/**
 * `decrypt_file` over an output directory: plaintext is streamed to a temporary
 * file and appears under its final name only after every check has passed.
 */
module Decrypt {
  import opened Bytes
  import opened Container
  import opened Integrity

  class Directory {
    const env: Env
    var files: map<string, seq<Byte>>

    constructor (env: Env, files: map<string, seq<Byte>>)
      ensures this.env == env && this.files == files
    {
      this.env, this.files := env, files;
    }

    /** Decrypt one segment in buffers, appending `written` to the temporary file;
        `cancelled(n)` is whether the progress callback raises after n bytes. */
    method DecryptSegment(file: seq<Byte>, key: Key, meta: Meta, pos: nat, i: nat,
                          tmp: string, cancelled: nat -> bool, completed: nat)
      returns (result: Outcome<seq<Byte>>, written: seq<Byte>)
      requires i < |meta.nonces| && pos <= |file| && tmp in files
      modifies this
      ensures files == old(files)[tmp := old(files)[tmp] + written]
      ensures result.Ok? ==> result == env.DecryptSegment(file, key, meta, pos, i) && written == result.value
      ensures (forall n :: !cancelled(n)) ==> result == env.DecryptSegment(file, key, meta, pos, i)
    {
      hide Container.Env.Ctr;
      written := [];
      assert files[tmp] + written == files[tmp];
      assert env.Ctr(key, meta.nonces[i], 0, file[pos..pos]) == [];
      if i >= |meta.tags| || |meta.tags[i]| < TAG_SIZE || !(8 <= |meta.nonces[i]| <= 128) {
        return Err(DecryptionError), written;
      }
      if i >= |meta.chunkLengths| {
        return Err(DecryptionError), written;
      }
      var remaining, at := meta.chunkLengths[i], pos;
      while remaining > 0
        invariant pos <= at <= |file| && at + Max(0, remaining) == env.CiphertextEnd(meta, pos, i)
        invariant written == env.Ctr(key, meta.nonces[i], 0, file[pos..at])
        invariant files == old(files)[tmp := old(files)[tmp] + written]
      {
        if at >= |file| {
          return Err(DecryptionError), written;        // unexpected end of file
        }
        var next := Min(at + Min(STREAM_BUFFER, remaining), |file|);
        var piece := env.Ctr(key, meta.nonces[i], at - pos, file[at..next]);
        StreamOn(file, key, meta.nonces[i], pos, at, next);
        JoinsAfter(old(files)[tmp], written, piece);
        files := files[tmp := files[tmp] + piece];
        written, remaining, at := written + piece, remaining - (next - at), next;
        if remaining > 0 && cancelled(completed + |written|) {
          return Err(DecryptionError), written;
        }
      }
      var end := env.CiphertextEnd(meta, pos, i);
      if file[end..Min(end + TAG_SIZE, |file|)] != meta.tags[i] {
        return Err(TamperDetected), written;
      }
      if env.tag(key, meta.nonces[i], file[pos..end]) != meta.tags[i] {   // finalize()
        return Err(TamperDetected), written;
      }
      return Ok(written), written;
    }

    /** The next buffer, decrypted where the last one ended. */
    lemma StreamOn(file: seq<Byte>, key: Key, nonce: seq<Byte>, pos: nat, at: nat, next: nat)
      requires pos <= at <= next <= |file|
      ensures env.Ctr(key, nonce, 0, file[pos..at]) + env.Ctr(key, nonce, at - pos, file[at..next])
           == env.Ctr(key, nonce, 0, file[pos..next])
    {
      env.CtrStreams(key, nonce, 0, file[pos..at], file[at..next]);
      assert file[pos..next] == file[pos..at] + file[at..next];
    }

    lemma JoinsAfter(a: seq<Byte>, b: seq<Byte>, c: seq<Byte>)
      ensures a + b + c == a + (b + c)
    {
    }

    /** `_decrypt_chunks`: all segments in order; `fed` is what both hashers saw. */
    method DecryptChunks(file: seq<Byte>, key: Key, meta: Meta, tmp: string, cancelled: nat -> bool)
      returns (result: Outcome<()>, fed: seq<Byte>)
      requires |file| >= OFFSET_SIZE && tmp in files && files[tmp] == []
      modifies this
      ensures files == old(files)[tmp := fed]
      ensures result.Ok? ==> env.DecryptFrom(file, key, meta, OFFSET_SIZE, 0) == Ok(fed)
      ensures (forall n :: !cancelled(n)) && result.Err? ==>
        env.DecryptFrom(file, key, meta, OFFSET_SIZE, 0) == Err(result.error)
    {
      hide Container.Env.DecryptFrom, Container.Env.DecryptSegment;
      fed := [];
      var i: nat, pos: nat := 0, OFFSET_SIZE;
      ghost var whole := env.DecryptFrom(file, key, meta, OFFSET_SIZE, 0);
      FrontOfNothing(whole);
      while i < |meta.nonces|
        invariant i <= |meta.nonces| && pos <= |file|
        invariant files == old(files)[tmp := fed]
        invariant whole == env.Prepend(fed, env.DecryptFrom(file, key, meta, pos, i))
      {
        var plain, written := DecryptSegment(file, key, meta, pos, i, tmp, cancelled, |fed|);
        if plain.Err? {
          Failed(file, key, meta, pos, i, fed);
          return Err(plain.error), fed + written;
        }
        OneMoreSegment(file, key, meta, pos, i, fed, written);
        pos, i := env.CiphertextEnd(meta, pos, i) + TAG_SIZE, i + 1;
        fed := fed + written;
        if cancelled(|fed|) {
          return Err(DecryptionError), fed;
        }
      }
      env.NothingLeft(file, key, meta, pos);
      assert fed + [] == fed;
      return Ok(()), fed;
    }

    lemma FrontOfNothing(whole: Outcome<seq<Byte>>)
      ensures whole == env.Prepend([], whole)
    {
      if whole.Ok? { assert [] + whole.value == whole.value; }
    }

    /** The segment at `pos` moves from what is left to what is done. */
    lemma OneMoreSegment(file: seq<Byte>, key: Key, meta: Meta, pos: nat, i: nat, fed: seq<Byte>, plain: seq<Byte>)
      requires i < |meta.nonces| && pos <= |file| && env.DecryptSegment(file, key, meta, pos, i) == Ok(plain)
      ensures env.CiphertextEnd(meta, pos, i) + TAG_SIZE <= |file|
      ensures env.Prepend(fed, env.DecryptFrom(file, key, meta, pos, i))
           == env.Prepend(fed + plain, env.DecryptFrom(file, key, meta, env.CiphertextEnd(meta, pos, i) + TAG_SIZE, i + 1))
    {
      hide Container.Env.DecryptSegment;
      var rest := env.DecryptFrom(file, key, meta, env.CiphertextEnd(meta, pos, i) + TAG_SIZE, i + 1);
      if rest.Ok? { assert fed + (plain + rest.value) == fed + plain + rest.value; }
    }

    lemma Failed(file: seq<Byte>, key: Key, meta: Meta, pos: nat, i: nat, fed: seq<Byte>)
      requires i < |meta.nonces| && pos <= |file|
      ensures var segment := env.DecryptSegment(file, key, meta, pos, i);
        segment.Err? ==> env.Prepend(fed, env.DecryptFrom(file, key, meta, pos, i)) == Err(segment.error)
    {
      hide Container.Env.DecryptSegment;
    }

    /** `decrypt_file`. `random` is the part of the temporary name mkstemp draws,
        `cleans` whether a failed run's temporary file can be removed. Nothing but
        the checked plaintext ever appears under another name. */
    method DecryptFile(file: seq<Byte>, key: Key, expectedSha256: Option<string>, expectedMd5: Option<string>,
                       random: string, cleans: bool, cancelled: nat -> bool)
      returns (result: Outcome<Plain>)
      requires forall name: string :: name + "." + random + ".part" !in files   // mkstemp creates a new file
      modifies this
      ensures result.Ok? ==>
        && result == env.Decrypt(file, key, expectedSha256, expectedMd5)
        && files == old(files)[result.value.filename := result.value.content]
      ensures result.Ok? ==>
        && env.ReadMetadata(file).Ok?
        && AllGenuine(env, file, key, env.ReadMetadata(file).value, 0)
        && HashesAgree(env, env.ReadMetadata(file).value, result.value.content, expectedSha256, expectedMd5)
      ensures result.Ok? ==> forall name | Published(old(files), files, name) ::
        && name == result.value.filename
        && (expectedSha256.Some? ==> env.sha256(files[name]) == expectedSha256.value)
        && (expectedMd5.Some? ==> env.md5(files[name]) == expectedMd5.value)
      ensures result.Err? && cleans ==> files == old(files)
      ensures result.Err? ==> files == old(files) || exists tmp :: tmp !in old(files) && files - {tmp} == old(files)
      ensures (forall n :: !cancelled(n)) ==> result == env.Decrypt(file, key, expectedSha256, expectedMd5)
    {
      hide AllGenuine;
      if |key| != KEY_SIZE {
        return Err(DecryptionError);
      }
      var read := env.ReadMetadata(file);
      if read.Err? {
        return Err(read.error);
      }
      var meta := read.value;
      var tmp := meta.filename + "." + random + ".part";
      files := files[tmp := []];
      var chunks, fed := DecryptChunks(file, key, meta, tmp, cancelled);
      if chunks.Ok? {
        SegmentsExactly(env, file, key, meta, 0);
        if && env.Reference(expectedMd5, meta.md5) == Some(env.md5(fed))
           && env.Reference(expectedSha256, meta.sha256) == Some(env.sha256(fed))
           && env.Consistent(expectedSha256, meta.sha256) && env.Consistent(expectedMd5, meta.md5)
        {
          files := (files - {tmp})[meta.filename := fed];   // os.replace
          return Ok(Plain(meta.filename, fed));
        }
        result := Err(TamperDetected);
      } else {
        result := Err(chunks.error);
      }
      assert files - {tmp} == old(files);
      if cleans {
        files := files - {tmp};
      }
    }
  }

  /** A name whose content is new or another. */
  predicate Published(before: map<string, seq<Byte>>, after: map<string, seq<Byte>>, name: string) {
    name in after && (name !in before || after[name] != before[name])
  }

  /** Nothing else has the digest of `original`. */
  ghost predicate IsOnlyOne(hash: seq<Byte> -> string, original: seq<Byte>) {
    forall other: seq<Byte> | hash(other) == hash(original) :: other == original
  }

  /** Whatever was done to a container (segments reordered, metadata rewritten): with the
      external SHA-256 of an original, a successful run changes one name, to content with
      that digest; where the digest is the original's alone, to the original. */
  method DecryptAgainstOriginal(directory: Directory, file: seq<Byte>, key: Key, ghost original: seq<Byte>, reference: string,
                                random: string, cleans: bool, cancelled: nat -> bool)
    returns (result: Outcome<Plain>)
    requires forall name: string :: name + "." + random + ".part" !in directory.files
    requires reference == directory.env.sha256(original)
    modifies directory
    ensures result.Ok? ==> forall name | Published(old(directory.files), directory.files, name) ::
      && name == result.value.filename && directory.env.sha256(directory.files[name]) == reference
      && (IsOnlyOne(directory.env.sha256, original) ==> directory.files[name] == original)
    ensures result.Ok? && IsOnlyOne(directory.env.sha256, original) ==>
      directory.files == old(directory.files)[result.value.filename := original]
    ensures result.Err? && cleans ==> directory.files == old(directory.files)
  {
    result := directory.DecryptFile(file, key, Some(reference), None, random, cleans, cancelled);
    ExternalReferenceDecides(directory.env, file, key, original, None);
  }

  /** What decrypts against an external SHA-256 has that digest. */
  lemma ExternalReferenceDecides(env: Env, file: seq<Byte>, key: Key, original: seq<Byte>, expectedMd5: Option<string>)
    ensures var r := env.Decrypt(file, key, Some(env.sha256(original)), expectedMd5);
      r.Ok? ==>
        && env.sha256(r.value.content) == env.sha256(original)
        && (IsOnlyOne(env.sha256, original) ==> r.value.content == original)
  {
  }

  /** Without an external reference, a container that carries no hash of its own
      never decrypts: deleting the fields does not switch the check off. */
  lemma MissingHashFailsClosed(env: Env, file: seq<Byte>, key: Key, meta: Meta)
    requires env.ReadMetadata(file) == Ok(meta) && (meta.sha256.None? || meta.md5.None?)
    ensures env.Decrypt(file, key, None, None).Err?
  {
  }
}
