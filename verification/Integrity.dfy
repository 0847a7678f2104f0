/**
 * What it takes for any file of bytes to open as a container: exact conditions, in terms
 * of the bytes, on its header, tail, segments and hashes.
 */
module Integrity {
  import opened Bytes
  import opened Container

  // ---------- the cipher and the number format ----------

  /** Ciphertext and plaintext differ by the key stream, byte by byte. */
  lemma CtrIsKeyStream(env: Env, key: Key, nonce: seq<Byte>, from: nat, text: seq<Byte>, i: nat)
    requires i < |text|
    ensures Xor(env.Ctr(key, nonce, from, text)[i], text[i]) == env.stream(key, nonce, from + i)
  {
    XorCancels(text[i], env.stream(key, nonce, from + i));
    XorCancels(env.stream(key, nonce, from + i), text[i]);
  }

  // ---------- header and tail ----------

  /** A header with where the metadata starts, data, metadata, and its length in four bytes. */
  ghost predicate IsContainer(env: Env, file: seq<Byte>, data: seq<Byte>, json: seq<Byte>, meta: Meta) {
    && OFFSET_SIZE + |data| < Pow256(OFFSET_SIZE) && |json| < Pow256(META_SIZE_FIELD)
    && file == LittleEndian(OFFSET_SIZE + |data|, OFFSET_SIZE) + data + json + LittleEndian(|json|, META_SIZE_FIELD)
    && env.decode(json) == Some(meta)
  }

  lemma ContainerReads(env: Env, file: seq<Byte>, data: seq<Byte>, json: seq<Byte>, meta: Meta)
    requires IsContainer(env, file, data, json, meta)
    ensures env.ReadMetadata(file) == Ok(meta)
  {
    hide LittleEndian, FromLittleEndian, Pow256;
    var offset, tail := OFFSET_SIZE + |data|, OFFSET_SIZE + |data| + |json|;
    LittleEndianRoundTrip(offset, OFFSET_SIZE);
    LittleEndianRoundTrip(|json|, META_SIZE_FIELD);
    assert file[..OFFSET_SIZE] == LittleEndian(offset, OFFSET_SIZE);
    assert file[tail..] == LittleEndian(|json|, META_SIZE_FIELD);
    assert file[offset..tail] == json;
  }

  lemma ReadIsContainer(env: Env, file: seq<Byte>, meta: Meta) returns (data: seq<Byte>, json: seq<Byte>)
    requires env.ReadMetadata(file) == Ok(meta)
    requires FromLittleEndian(file[..OFFSET_SIZE]) >= OFFSET_SIZE
    ensures IsContainer(env, file, data, json, meta)
  {
    hide LittleEndian, FromLittleEndian, Pow256;
    var tail := |file| - META_SIZE_FIELD;
    var offset := FromLittleEndian(file[..OFFSET_SIZE]);
    FromLittleEndianRoundTrip(file[..OFFSET_SIZE]);
    FromLittleEndianRoundTrip(file[tail..]);
    data, json := file[OFFSET_SIZE..offset], file[offset..tail];
    assert file == file[..OFFSET_SIZE] + data + json + file[tail..];
  }

  /** Metadata is read exactly when header and tail agree on where it lies. */
  lemma ReadMetadataExactly(env: Env, file: seq<Byte>, meta: Meta)
    requires |file| >= OFFSET_SIZE + META_SIZE_FIELD && FromLittleEndian(file[..OFFSET_SIZE]) >= OFFSET_SIZE
    ensures env.ReadMetadata(file) == Ok(meta) <==> exists data, json :: IsContainer(env, file, data, json, meta)
  {
    hide IsContainer, Pow256, LittleEndian, FromLittleEndian;
    if env.ReadMetadata(file) == Ok(meta) {
      var data, json := ReadIsContainer(env, file, meta);
    }
    if data, json :| IsContainer(env, file, data, json, meta) {
      ContainerReads(env, file, data, json, meta);
    }
  }

  // ---------- segments ----------

  /** Where the ciphertext of segment `i` starts. */
  function At(meta: Meta, i: nat): (pos: nat)
    requires i <= |meta.chunkLengths|
    ensures pos >= OFFSET_SIZE + i * TAG_SIZE
  {
    if i == 0 then OFFSET_SIZE else At(meta, i - 1) + Max(0, meta.chunkLengths[i - 1]) + TAG_SIZE
  }

  lemma {:induction false} AtGrows(meta: Meta, i: nat, j: nat)
    requires i <= j <= |meta.chunkLengths|
    ensures At(meta, i) + (j - i) * TAG_SIZE <= At(meta, j)
  {
    if i < j { AtGrows(meta, i, j - 1); }
  }

  /** Everything that segment `i` needs to be decrypted is there, genuine or not. */
  predicate IsPresent(file: seq<Byte>, meta: Meta, i: nat)
    requires i < |meta.nonces|
  {
    && i < |meta.tags| && |meta.tags[i]| >= TAG_SIZE && 8 <= |meta.nonces[i]| <= 128
    && i < |meta.chunkLengths| && At(meta, i + 1) - TAG_SIZE <= |file|
  }

  /** Segment `i` is followed by its recorded tag, which is the tag of its ciphertext. */
  predicate IsGenuine(env: Env, file: seq<Byte>, key: Key, meta: Meta, i: nat)
    requires i < |meta.nonces|
  {
    && IsPresent(file, meta, i) && At(meta, i + 1) <= |file|
    && var end := At(meta, i + 1) - TAG_SIZE;
    && file[end..end + TAG_SIZE] == meta.tags[i] == env.tag(key, meta.nonces[i], file[At(meta, i)..end])
  }

  lemma SegmentExactly(env: Env, file: seq<Byte>, key: Key, meta: Meta, i: nat)
    requires i < |meta.nonces| && i <= |meta.chunkLengths| && At(meta, i) <= |file|
    ensures var r := env.DecryptSegment(file, key, meta, At(meta, i), i);
      && (r.Ok? <==> IsGenuine(env, file, key, meta, i))
      && (r == Err(TamperDetected) <==> IsPresent(file, meta, i) && !IsGenuine(env, file, key, meta, i))
      && (r.Ok? ==> r.value == env.Ctr(key, meta.nonces[i], 0, file[At(meta, i)..At(meta, i + 1) - TAG_SIZE]))
  {
    if i < |meta.chunkLengths| {
      assert At(meta, i + 1) - TAG_SIZE == env.CiphertextEnd(meta, At(meta, i), i);
    }
  }

  ghost predicate AllGenuine(env: Env, file: seq<Byte>, key: Key, meta: Meta, i: nat) {
    forall j | i <= j < |meta.nonces| :: IsGenuine(env, file, key, meta, j)
  }

  /** Segment `j` is the first that is not genuine, from `i` on. */
  ghost predicate FirstForged(env: Env, file: seq<Byte>, key: Key, meta: Meta, i: nat, j: nat) {
    && i <= j < |meta.nonces| && !IsGenuine(env, file, key, meta, j)
    && forall k | i <= k < j :: IsGenuine(env, file, key, meta, k)
  }

  /** How far into the plaintext segment `i` starts. */
  function PlainAt(meta: Meta, i: nat): (at: nat)
    requires i <= |meta.chunkLengths|
  {
    At(meta, i) - OFFSET_SIZE - i * TAG_SIZE
  }

  /** The piece of `content`, which starts with segment `i`, that segment `j` decrypts to. */
  ghost predicate PieceIs(env: Env, file: seq<Byte>, key: Key, meta: Meta, i: nat, j: nat, content: seq<Byte>)
    requires i <= j < |meta.nonces| <= |meta.chunkLengths|
  {
    && IsGenuine(env, file, key, meta, j)
    && var from, to := PlainAt(meta, j) - PlainAt(meta, i), PlainAt(meta, j + 1) - PlainAt(meta, i);
    && 0 <= from <= to <= |content|
    && content[from..to] == env.Ctr(key, meta.nonces[j], 0, file[At(meta, j)..At(meta, j + 1) - TAG_SIZE])
  }

  /** `content` is the decryption of each segment from `i` on, at its place. */
  ghost predicate IsPlaintext(env: Env, file: seq<Byte>, key: Key, meta: Meta, i: nat, content: seq<Byte>)
    requires i <= |meta.nonces| <= |meta.chunkLengths|
  {
    && |content| == PlainAt(meta, |meta.nonces|) - PlainAt(meta, i)
    && forall j | i <= j < |meta.nonces| :: PieceIs(env, file, key, meta, i, j, content)
  }

  lemma {:induction false} PlainAtGrows(meta: Meta, i: nat, j: nat)
    requires i <= j <= |meta.chunkLengths|
    ensures PlainAt(meta, i) <= PlainAt(meta, j)
  {
    if i < j { PlainAtGrows(meta, i, j - 1); }
  }

  lemma OnePieceMore(env: Env, file: seq<Byte>, key: Key, meta: Meta, i: nat, head: seq<Byte>, rest: seq<Byte>)
    requires i < |meta.nonces| <= |meta.chunkLengths| && IsGenuine(env, file, key, meta, i)
    requires head == env.Ctr(key, meta.nonces[i], 0, file[At(meta, i)..At(meta, i + 1) - TAG_SIZE])
    requires IsPlaintext(env, file, key, meta, i + 1, rest)
    ensures IsPlaintext(env, file, key, meta, i, head + rest)
  {
    GenuineEnd(env, file, key, meta, i);
    hide IsGenuine;
    assert |head| == PlainAt(meta, i + 1) - PlainAt(meta, i);
    forall j | i <= j < |meta.nonces| ensures PieceIs(env, file, key, meta, i, j, head + rest) {
      PlainAtGrows(meta, j + 1, |meta.nonces|);
      if j == i {
        assert (head + rest)[0..|head|] == head;
      } else {
        assert PieceIs(env, file, key, meta, i + 1, j, rest);
        var from, to := PlainAt(meta, j) - PlainAt(meta, i + 1), PlainAt(meta, j + 1) - PlainAt(meta, i + 1);
        assert (head + rest)[from + |head|..to + |head|] == rest[from..to];
      }
    }
  }

  /** The data region opens exactly when every segment is genuine; it counts as tampered
      with exactly when the first segment that is not genuine is all there. */
  lemma {:induction false} SegmentsExactly(env: Env, file: seq<Byte>, key: Key, meta: Meta, i: nat)
    requires i <= |meta.nonces| && i <= |meta.chunkLengths| && At(meta, i) <= |file|
    ensures var r := env.DecryptFrom(file, key, meta, At(meta, i), i);
      && (r.Ok? <==> AllGenuine(env, file, key, meta, i))
      && (r == Err(TamperDetected) <==>
            exists j :: FirstForged(env, file, key, meta, i, j) && IsPresent(file, meta, j))
    decreases |meta.nonces| - i
  {
    hide IsGenuine, IsPresent, AllGenuine, FirstForged, Container.Env.DecryptSegment;
    if i == |meta.nonces| {
      NoneLeft(env, file, key, meta);
    } else {
      SegmentExactly(env, file, key, meta, i);
      if IsGenuine(env, file, key, meta, i) {
        GenuineEnd(env, file, key, meta, i);
        SegmentsExactly(env, file, key, meta, i + 1);
        OneGenuine(env, file, key, meta, i);
      } else {
        NotGenuine(env, file, key, meta, i);
      }
    }
  }

  /** And what it opens to is the decryption of each segment, at its place. */
  lemma {:induction false} SegmentsPlaintext(env: Env, file: seq<Byte>, key: Key, meta: Meta, i: nat)
    requires i <= |meta.nonces| && i <= |meta.chunkLengths| && At(meta, i) <= |file|
    requires env.DecryptFrom(file, key, meta, At(meta, i), i).Ok?
    ensures |meta.nonces| <= |meta.chunkLengths|
    ensures IsPlaintext(env, file, key, meta, i, env.DecryptFrom(file, key, meta, At(meta, i), i).value)
    decreases |meta.nonces| - i
  {
    hide IsGenuine, PieceIs, Container.Env.DecryptSegment;
    if i < |meta.nonces| {
      SegmentExactly(env, file, key, meta, i);
      GenuineEnd(env, file, key, meta, i);
      SegmentsPlaintext(env, file, key, meta, i + 1);
      var head := env.DecryptSegment(file, key, meta, At(meta, i), i).value;
      OnePieceMore(env, file, key, meta, i, head, env.DecryptFrom(file, key, meta, At(meta, i + 1), i + 1).value);
    }
  }

  lemma GenuineEnd(env: Env, file: seq<Byte>, key: Key, meta: Meta, i: nat)
    requires i < |meta.nonces| && IsGenuine(env, file, key, meta, i)
    ensures i < |meta.chunkLengths| && At(meta, i + 1) == env.CiphertextEnd(meta, At(meta, i), i) + TAG_SIZE <= |file|
  {
  }

  lemma NoneLeft(env: Env, file: seq<Byte>, key: Key, meta: Meta)
    ensures AllGenuine(env, file, key, meta, |meta.nonces|)
    ensures forall j :: !FirstForged(env, file, key, meta, |meta.nonces|, j)
  {
  }

  lemma NotGenuine(env: Env, file: seq<Byte>, key: Key, meta: Meta, i: nat)
    requires i < |meta.nonces| && !IsGenuine(env, file, key, meta, i)
    ensures !AllGenuine(env, file, key, meta, i)
    ensures forall j :: FirstForged(env, file, key, meta, i, j) <==> j == i
  {
  }

  lemma OneGenuine(env: Env, file: seq<Byte>, key: Key, meta: Meta, i: nat)
    requires i < |meta.nonces| && IsGenuine(env, file, key, meta, i)
    ensures AllGenuine(env, file, key, meta, i) <==> AllGenuine(env, file, key, meta, i + 1)
    ensures forall j :: FirstForged(env, file, key, meta, i, j) <==> FirstForged(env, file, key, meta, i + 1, j)
  {
  }

  // ---------- the whole file ----------

  /** A hash is given or recorded, and whichever of the two exist are the true one. */
  predicate HashAgrees(given: Option<string>, recorded: Option<string>, actual: string) {
    && (given.Some? || recorded.Some?)
    && (given.Some? ==> given.value == actual) && (recorded.Some? ==> recorded.value == actual)
  }

  ghost predicate HashesAgree(env: Env, meta: Meta, content: seq<Byte>, sha256: Option<string>, md5: Option<string>) {
    HashAgrees(sha256, meta.sha256, env.sha256(content)) && HashAgrees(md5, meta.md5, env.md5(content))
  }

  /** A file opens exactly when the key is a key, its metadata is readable, every segment
      is genuine and each hash that is given or recorded is the plaintext's. */
  lemma DecryptExactly(env: Env, file: seq<Byte>, key: Key, sha256: Option<string>, md5: Option<string>, plain: Plain)
    ensures env.Decrypt(file, key, sha256, md5) == Ok(plain) <==>
      && |key| == KEY_SIZE && env.ReadMetadata(file).Ok?
      && var meta := env.ReadMetadata(file).value;
      && plain.filename == meta.filename && AllGenuine(env, file, key, meta, 0)
      && env.DecryptFrom(file, key, meta, OFFSET_SIZE, 0) == Ok(plain.content)
      && HashesAgree(env, meta, plain.content, sha256, md5)
  {
    if env.ReadMetadata(file).Ok? { SegmentsExactly(env, file, key, env.ReadMetadata(file).value, 0); }
    hide Container.Env.DecryptFrom, AllGenuine;
  }

  /** A refused file counts as tampered with exactly when its first forged segment is all
      there, or all are genuine and a hash is missing or wrong. */
  lemma TamperExactly(env: Env, file: seq<Byte>, key: Key, sha256: Option<string>, md5: Option<string>)
    ensures env.Decrypt(file, key, sha256, md5) == Err(TamperDetected) <==>
      && |key| == KEY_SIZE && env.ReadMetadata(file).Ok?
      && var meta := env.ReadMetadata(file).value;
      || (exists j :: FirstForged(env, file, key, meta, 0, j) && IsPresent(file, meta, j))
      || (AllGenuine(env, file, key, meta, 0) && env.DecryptFrom(file, key, meta, OFFSET_SIZE, 0).Ok?
          && !HashesAgree(env, meta, env.DecryptFrom(file, key, meta, OFFSET_SIZE, 0).value, sha256, md5))
  {
    if env.ReadMetadata(file).Ok? { SegmentsExactly(env, file, key, env.ReadMetadata(file).value, 0); }
    hide Container.Env.DecryptFrom, AllGenuine, FirstForged, IsPresent;
  }

  /** Without an external reference, what opens has the hashes the container records. */
  lemma OwnHashesDecide(env: Env, file: seq<Byte>, key: Key, meta: Meta)
    requires env.ReadMetadata(file) == Ok(meta)
    ensures var r := env.Decrypt(file, key, None, None);
      r.Ok? ==> meta.sha256 == Some(env.sha256(r.value.content)) && meta.md5 == Some(env.md5(r.value.content))
  {
  }

  /** A recorded hash that differs from a given one is refused, whatever the plaintext. */
  lemma ConflictIsRefused(env: Env, file: seq<Byte>, key: Key, meta: Meta, sha256: Option<string>, md5: Option<string>)
    requires env.ReadMetadata(file) == Ok(meta)
    requires (sha256.Some? && meta.sha256.Some? && sha256 != meta.sha256) || (md5.Some? && meta.md5.Some? && md5 != meta.md5)
    ensures env.Decrypt(file, key, sha256, md5).Err?
  {
  }
}
