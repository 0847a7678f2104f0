/**
 * The .enc container: AES-256-GCM segments after an 8-byte offset header, then
 * the metadata JSON and its 4-byte length.
 *
 * Counter mode is modelled as exclusive-or with a key stream and the tag as a
 * function of key, nonce and ciphertext. Both functions, the JSON codec, the
 * hashes and the key fingerprint are fields of `Env`, so every result below
 * holds for all of them.
 */
module Container {
  import opened Bytes

  type Key = seq<Byte>
  type Nonce = n: seq<Byte> | |n| == NONCE_SIZE witness seq(NONCE_SIZE, _ => 0)
  type Tag = t: seq<Byte> | |t| == TAG_SIZE witness seq(TAG_SIZE, _ => 0)

  const OFFSET_SIZE: nat := 8
  const META_SIZE_FIELD: nat := 4
  const NONCE_SIZE: nat := 12
  const TAG_SIZE: nat := 16
  const KEY_SIZE: nat := 32
  const STREAM_BUFFER: nat := 0x80_0000
  const MIN_CHUNK_SIZE: nat := 0x4000_0000
  const MAX_CHUNK_SIZE: nat := 0x10_0000_0000 - 0x100_0000
  /** Bytes of plaintext per invocation: section 5.2.1.1 of NIST SP 800-38D. */
  const GCM_PLAINTEXT_LIMIT: nat := 0x10_0000_0000 - 32

  datatype Failure = DecryptionError | TamperDetected
  datatype Outcome<+T> = Ok(value: T) | Err(error: Failure)

  datatype Meta = Meta(filename: string, size: int,
                       nonces: seq<seq<Byte>>, tags: seq<seq<Byte>>, chunkLengths: seq<int>,
                       sha256: Option<string>, md5: Option<string>)

  /** What `decrypt_file` publishes, and under which name. */
  datatype Plain = Plain(filename: string, content: seq<Byte>)

  // ---------- cutting a source into chunks ----------

  function NumChunks(length: nat, size: nat): (n: nat)
    requires size > 0
    ensures n > 0
  {
    Max(1, (length + size - 1) / size)
  }

  /** Where chunk `i` of a source of `length` bytes starts. */
  function ChunkStart(length: nat, size: nat, i: nat): (start: nat)
    ensures start <= length
  {
    Min(i * size, length)
  }

  lemma ChunkStartMonotonic(length: nat, size: nat, i: nat)
    ensures ChunkStart(length, size, i) <= ChunkStart(length, size, i + 1)
    ensures ChunkStart(length, size, i + 1) - ChunkStart(length, size, i) <= size
  {
  }

  function Chunk(source: seq<Byte>, size: nat, i: nat): seq<Byte> {
    ChunkStartMonotonic(|source|, size, i);
    source[ChunkStart(|source|, size, i)..ChunkStart(|source|, size, i + 1)]
  }

  /** The chunks cover the source: the last one ends where the source ends. */
  lemma ChunksCover(length: nat, size: nat)
    requires size > 0
    ensures ChunkStart(length, size, NumChunks(length, size)) == length
    ensures forall i | 0 <= i < NumChunks(length, size) :: ChunkStart(length, size, i) == i * size
    ensures length > 0 ==> (NumChunks(length, size) - 1) * size < length          // the last one is not empty
    ensures length == 0 ==> NumChunks(length, size) == 1
  {
    var n := NumChunks(length, size);
    var quotient := (length + size - 1) / size;
    assert quotient * size <= length + size - 1 < quotient * size + size;
    assert n * size >= length by {
      if n != quotient { assert length == 0; }
    }
    forall i | 0 <= i < n
      ensures i * size <= length
    {
      if i > 0 {
        assert n == quotient && i * size <= (n - 1) * size by { MultiplyMonotonic(i, n - 1, size); }
        assert (n - 1) * size == n * size - size;
      }
    }
  }

  /** Each chunk fits the plaintext limit of one GCM invocation. */
  lemma ChunkWithinGcmLimit(source: seq<Byte>, size: nat, i: nat)
    requires MIN_CHUNK_SIZE <= size <= MAX_CHUNK_SIZE
    ensures |Chunk(source, size, i)| <= GCM_PLAINTEXT_LIMIT
  {
  }

  datatype Env = Env(
    stream: (Key, seq<Byte>, nat) -> Byte,
    tag: (Key, seq<Byte>, seq<Byte>) -> Tag,
    encode: Meta -> seq<Byte>,
    decode: seq<Byte> -> Option<Meta>,
    sha256: seq<Byte> -> string,
    md5: seq<Byte> -> string,
    fingerprint: Key -> string)
  {
    /** Reading metadata undoes writing it: the one law asked of the JSON codec. */
    ghost predicate Lawful() {
      forall m: Meta :: decode(encode(m)) == Some(m)
    }

    // ---------- AES-GCM ----------

    /** Counter mode over `text`, whose first byte is byte `from` of the message. */
    function Ctr(key: Key, nonce: seq<Byte>, from: nat, text: seq<Byte>): (r: seq<Byte>)
      ensures |r| == |text|
    {
      seq(|text|, i requires 0 <= i < |text| => Xor(text[i], stream(key, nonce, from + i)))
    }

    /** Feeding a message in two parts gives the bytes of one call on the whole. */
    lemma CtrStreams(key: Key, nonce: seq<Byte>, from: nat, first: seq<Byte>, second: seq<Byte>)
      ensures Ctr(key, nonce, from, first + second)
           == Ctr(key, nonce, from, first) + Ctr(key, nonce, from + |first|, second)
    {
    }

    lemma CtrInverts(key: Key, nonce: seq<Byte>, from: nat, text: seq<Byte>)
      ensures Ctr(key, nonce, from, Ctr(key, nonce, from, text)) == text
    {
      var once := Ctr(key, nonce, from, text);
      forall i | 0 <= i < |text|
        ensures Ctr(key, nonce, from, once)[i] == text[i]
      {
        XorCancels(text[i], stream(key, nonce, from + i));
      }
    }

    /** One segment: ciphertext and tag. */
    function Seal(key: Key, nonce: Nonce, plain: seq<Byte>): (r: seq<Byte>)
      ensures |r| == |plain| + TAG_SIZE
    {
      var ciphertext := Ctr(key, nonce, 0, plain);
      ciphertext + tag(key, nonce, ciphertext)
    }

    // ---------- writing ----------

    /** The bytes of the first |nonces| segments of `source`. */
    function Segments(key: Key, source: seq<Byte>, size: nat, nonces: seq<Nonce>): seq<Byte> {
      if nonces == [] then []
      else
        var last := |nonces| - 1;
        Segments(key, source, size, nonces[..last]) + Seal(key, nonces[last], Chunk(source, size, last))
    }

    function TagAt(key: Key, source: seq<Byte>, size: nat, nonces: seq<Nonce>, i: nat): Tag
      requires i < |nonces|
    {
      tag(key, nonces[i], Ctr(key, nonces[i], 0, Chunk(source, size, i)))
    }

    /** The tag and length lists that go with the segments under `nonces`. */
    ghost predicate InStep(key: Key, source: seq<Byte>, size: nat,
                           nonces: seq<Nonce>, tags: seq<Tag>, lengths: seq<nat>)
    {
      && |tags| == |nonces| == |lengths|
      && (forall i | 0 <= i < |nonces| :: tags[i] == TagAt(key, source, size, nonces, i))
      && (forall i | 0 <= i < |nonces| :: lengths[i] == |Chunk(source, size, i)|)
    }

    /** `file` holds, after its header, the segments of `source` under `nonces`. */
    ghost predicate Holds(file: seq<Byte>, key: Key, source: seq<Byte>, size: nat, nonces: seq<Nonce>) {
      var segments := Segments(key, source, size, nonces);
      |file| >= OFFSET_SIZE + |segments| && file[OFFSET_SIZE..OFFSET_SIZE + |segments|] == segments
    }

    /** Appending metadata, its length and the final offset. */
    function Finish(file: seq<Byte>, meta: Meta): seq<Byte>
    {
      var whole := file + encode(meta) + LittleEndian(|encode(meta)|, META_SIZE_FIELD);
      if |whole| < OFFSET_SIZE then whole
      else Overwrite(whole, 0, LittleEndian(|file|, OFFSET_SIZE))
    }

    // ---------- reading ----------

    /** `_read_metadata`: header and tail must agree on where the metadata starts. */
    function ReadMetadata(file: seq<Byte>): Outcome<Meta> {
      if |file| < OFFSET_SIZE + META_SIZE_FIELD then Err(DecryptionError)
      else
        var offset := FromLittleEndian(file[..OFFSET_SIZE]);
        var tail := |file| - META_SIZE_FIELD;
        var metaSize := FromLittleEndian(file[tail..]);
        if offset != tail - metaSize then Err(DecryptionError)
        else match decode(file[offset..tail])
          case None => Err(DecryptionError)
          case Some(meta) => Ok(meta)
    }

    /** Where segment `i` ends when its ciphertext starts at `pos` (a negative length reads nothing). */
    function CiphertextEnd(meta: Meta, pos: nat, i: nat): (end: nat)
      requires i < |meta.chunkLengths|
      ensures end >= pos
    {
      pos + Max(0, meta.chunkLengths[i])
    }

    /** The plaintext of segment `i`, whose ciphertext starts at `pos`. */
    function DecryptSegment(file: seq<Byte>, key: Key, meta: Meta, pos: nat, i: nat): (r: Outcome<seq<Byte>>)
      requires i < |meta.nonces| && pos <= |file|
      ensures r.Ok? ==> i < |meta.chunkLengths| && CiphertextEnd(meta, pos, i) + TAG_SIZE <= |file|
    {
      if i >= |meta.tags| || |meta.tags[i]| < TAG_SIZE || !(8 <= |meta.nonces[i]| <= 128) then Err(DecryptionError)
      else if i >= |meta.chunkLengths| then Err(DecryptionError)
      else
        var end := CiphertextEnd(meta, pos, i);
        if end > |file| then Err(DecryptionError)
        else if file[end..Min(end + TAG_SIZE, |file|)] != meta.tags[i] then Err(TamperDetected)
        else if tag(key, meta.nonces[i], file[pos..end]) != meta.tags[i] then Err(TamperDetected)
        else Ok(Ctr(key, meta.nonces[i], 0, file[pos..end]))
    }

    function Prepend(front: seq<Byte>, rest: Outcome<seq<Byte>>): Outcome<seq<Byte>> {
      if rest.Ok? then Ok(front + rest.value) else rest
    }

    /** The plaintext of segments `i`.. of a container, read from `pos` on. */
    function DecryptFrom(file: seq<Byte>, key: Key, meta: Meta, pos: nat, i: nat): Outcome<seq<Byte>>
      requires i <= |meta.nonces| && pos <= |file|
      decreases |meta.nonces| - i
    {
      if i == |meta.nonces| then Ok([])
      else match DecryptSegment(file, key, meta, pos, i)
        case Err(e) => Err(e)
        case Ok(plain) =>
          Prepend(plain, DecryptFrom(file, key, meta, CiphertextEnd(meta, pos, i) + TAG_SIZE, i + 1))
    }

    /** The reference hashes: the caller's where given, else the container's own. */
    function Reference(expected: Option<string>, own: Option<string>): Option<string> {
      if expected.Some? then expected else own
    }

    /** A hash the caller gave and one the container carries must not differ. */
    predicate Consistent(expected: Option<string>, own: Option<string>) {
      expected.Some? && own.Some? ==> own == expected
    }

    /** `decrypt_file` without cancellation. */
    function Decrypt(file: seq<Byte>, key: Key, expectedSha256: Option<string>, expectedMd5: Option<string>)
      : Outcome<Plain>
    {
      if |key| != KEY_SIZE then Err(DecryptionError)
      else match ReadMetadata(file)
        case Err(e) => Err(e)
        case Ok(meta) =>
          match DecryptFrom(file, key, meta, OFFSET_SIZE, 0)
          case Err(e) => Err(e)
          case Ok(content) =>
            if && Reference(expectedMd5, meta.md5) == Some(md5(content))
               && Reference(expectedSha256, meta.sha256) == Some(sha256(content))
               && Consistent(expectedSha256, meta.sha256) && Consistent(expectedMd5, meta.md5)
            then Ok(Plain(meta.filename, content)) else Err(TamperDetected)
    }

    /** `file` decrypts to `source`, against its own hashes or the true ones. */
    ghost predicate Opens(file: seq<Byte>, key: Key, name: string, source: seq<Byte>) {
      forall expectedSha256: Option<string>, expectedMd5: Option<string>
        | (expectedSha256.None? || expectedSha256 == Some(sha256(source)))
          && (expectedMd5.None? || expectedMd5 == Some(md5(source)))
        :: Decrypt(file, key, expectedSha256, expectedMd5) == Ok(Plain(name, source))
    }

    // ---------- what was written opens ----------

    /** The recorded lengths add up: all segments together take the source plus one tag each. */
    lemma {:induction false} SegmentsSize(key: Key, source: seq<Byte>, size: nat, nonces: seq<Nonce>)
      ensures |Segments(key, source, size, nonces)|
           == ChunkStart(|source|, size, |nonces|) + |nonces| * TAG_SIZE
    {
      if nonces != [] {
        var last := |nonces| - 1;
        SegmentsSize(key, source, size, nonces[..last]);
        ChunkStartMonotonic(|source|, size, last);
      } else {
        assert ChunkStart(|source|, size, 0) == 0;
      }
    }

    lemma {:induction false} SegmentsPrefix(key: Key, source: seq<Byte>, size: nat, nonces: seq<Nonce>, i: nat)
      requires i <= |nonces|
      ensures |Segments(key, source, size, nonces[..i])| <= |Segments(key, source, size, nonces)|
      ensures Segments(key, source, size, nonces[..i])
           == Segments(key, source, size, nonces)[..|Segments(key, source, size, nonces[..i])|]
    {
      if i == |nonces| {
        assert nonces[..i] == nonces;
      } else {
        var last := |nonces| - 1;
        assert nonces[..last][..i] == nonces[..i];
        SegmentsPrefix(key, source, size, nonces[..last], i);
      }
    }

    lemma HoldsPrefix(file: seq<Byte>, key: Key, source: seq<Byte>, size: nat, nonces: seq<Nonce>, i: nat)
      requires i <= |nonces| && Holds(file, key, source, size, nonces)
      ensures Holds(file, key, source, size, nonces[..i])
    {
      SegmentsPrefix(key, source, size, nonces, i);
      var all, some := Segments(key, source, size, nonces), Segments(key, source, size, nonces[..i]);
      assert file[OFFSET_SIZE..OFFSET_SIZE + |some|] == file[OFFSET_SIZE..OFFSET_SIZE + |all|][..|some|];
    }

    /** Segment `i` sits right after the segments before it. */
    lemma SegmentAt(file: seq<Byte>, key: Key, source: seq<Byte>, size: nat, nonces: seq<Nonce>, i: nat)
      requires i < |nonces| && Holds(file, key, source, size, nonces)
      ensures var pos := OFFSET_SIZE + |Segments(key, source, size, nonces[..i])|;
              var segment := Seal(key, nonces[i], Chunk(source, size, i));
              && pos + |segment| <= |file| && file[pos..pos + |segment|] == segment
              && OFFSET_SIZE + |Segments(key, source, size, nonces[..i + 1])| == pos + |segment|
    {
      HoldsPrefix(file, key, source, size, nonces, i + 1);
      assert nonces[..i + 1][..i] == nonces[..i];
      var before, segment := Segments(key, source, size, nonces[..i]), Seal(key, nonces[i], Chunk(source, size, i));
      var upTo := Segments(key, source, size, nonces[..i + 1]);
      assert upTo == before + segment;
      assert file[OFFSET_SIZE..OFFSET_SIZE + |upTo|][|before|..] == segment;
    }

    /** One step of the decryptor over a genuine segment. */
    lemma SegmentOpens(file: seq<Byte>, key: Key, meta: Meta, pos: nat, i: nat, plain: seq<Byte>)
      requires i < |meta.nonces| == |meta.tags| == |meta.chunkLengths|
      requires |meta.nonces[i]| == NONCE_SIZE && meta.chunkLengths[i] == |plain|
      requires meta.tags[i] == tag(key, meta.nonces[i], Ctr(key, meta.nonces[i], 0, plain))
      requires pos + |plain| + TAG_SIZE <= |file|
      requires file[pos..pos + |plain| + TAG_SIZE] == Seal(key, meta.nonces[i], plain)
      ensures DecryptFrom(file, key, meta, pos, i)
           == Prepend(plain, DecryptFrom(file, key, meta, pos + |plain| + TAG_SIZE, i + 1))
    {
      var segment, end := file[pos..pos + |plain| + TAG_SIZE], pos + |plain|;
      assert file[pos..end] == segment[..|plain|];
      assert file[end..end + TAG_SIZE] == segment[|plain|..];
      CtrInverts(key, meta.nonces[i], 0, plain);
    }

    lemma ChunkThenRest(source: seq<Byte>, size: nat, i: nat)
      ensures ChunkStart(|source|, size, i) <= ChunkStart(|source|, size, i + 1)
      ensures Chunk(source, size, i) + source[ChunkStart(|source|, size, i + 1)..]
           == source[ChunkStart(|source|, size, i)..]
    {
    }

    /** Reading segments `i`.. of a complete data region gives the source from chunk `i` on. */
    lemma {:induction false} SegmentsOpen(
      file: seq<Byte>, key: Key, source: seq<Byte>, size: nat, nonces: seq<Nonce>, meta: Meta, i: nat, pos: nat)
      requires i <= |nonces| && ChunkStart(|source|, size, |nonces|) == |source|
      requires Holds(file, key, source, size, nonces)
      requires meta.nonces == nonces && InStepMeta(key, source, size, nonces, meta)
      requires pos == OFFSET_SIZE + |Segments(key, source, size, nonces[..i])| && pos <= |file|
      ensures DecryptFrom(file, key, meta, pos, i) == Ok(source[ChunkStart(|source|, size, i)..])
      decreases |nonces| - i
    {
      hide Segments, Seal, Chunk, ChunkStart, DecryptFrom, Ctr, Holds;
      if i == |nonces| {
        NothingLeft(file, key, meta, pos);
      } else {
        var next := pos + |Chunk(source, size, i)| + TAG_SIZE;
        SegmentAt(file, key, source, size, nonces, i);
        SegmentsOpen(file, key, source, size, nonces, meta, i + 1, next);
        assert meta.nonces[i] == nonces[i];
        SegmentOpens(file, key, meta, pos, i, Chunk(source, size, i));
        ChunkThenRest(source, size, i);
      }
    }

    lemma NothingLeft(file: seq<Byte>, key: Key, meta: Meta, pos: nat)
      requires pos <= |file|
      ensures DecryptFrom(file, key, meta, pos, |meta.nonces|) == Ok([])
    {
    }

    ghost predicate InStepMeta(key: Key, source: seq<Byte>, size: nat, nonces: seq<Nonce>, meta: Meta) {
      && |meta.tags| == |nonces| == |meta.chunkLengths|
      && (forall i | 0 <= i < |nonces| :: meta.tags[i] == TagAt(key, source, size, nonces, i))
      && (forall i | 0 <= i < |nonces| :: meta.chunkLengths[i] == |Chunk(source, size, i)|)
    }

    lemma FinishShape(file: seq<Byte>, meta: Meta)
      requires |file| >= OFFSET_SIZE
      ensures Finish(file, meta) == LittleEndian(|file|, OFFSET_SIZE) + file[OFFSET_SIZE..]
                                  + encode(meta) + LittleEndian(|encode(meta)|, META_SIZE_FIELD)
    {
      hide Overwrite, LittleEndian;
      OverwriteFront(file, encode(meta), LittleEndian(|encode(meta)|, META_SIZE_FIELD),
                     LittleEndian(|file|, OFFSET_SIZE));
    }

    /** Header and tail parsing undo the writing of the metadata. */
    lemma FinishReads(file: seq<Byte>, meta: Meta)
      requires Lawful() && |file| >= OFFSET_SIZE
      requires |file| < Pow256(OFFSET_SIZE) && |encode(meta)| < Pow256(META_SIZE_FIELD)
      ensures ReadMetadata(Finish(file, meta)) == Ok(meta)
    {
      hide Finish, LittleEndian, FromLittleEndian, Pow256;
      var json, whole := encode(meta), Finish(file, meta);
      FinishShape(file, meta);
      assert whole[..OFFSET_SIZE] == LittleEndian(|file|, OFFSET_SIZE);
      assert whole[|file| + |json|..] == LittleEndian(|json|, META_SIZE_FIELD);
      assert whole[|file|..|file| + |json|] == json;
      LittleEndianRoundTrip(|file|, OFFSET_SIZE);
      LittleEndianRoundTrip(|json|, META_SIZE_FIELD);
    }

    lemma FinishedHolds(file: seq<Byte>, key: Key, source: seq<Byte>, size: nat, nonces: seq<Nonce>, meta: Meta)
      requires Holds(file, key, source, size, nonces)
      ensures Holds(Finish(file, meta), key, source, size, nonces)
    {
    }

    lemma NoSegments(key: Key, source: seq<Byte>, size: nat)
      ensures Segments(key, source, size, []) == []
    {
    }

    /** A finished container whose data region holds all segments of `source`
        decrypts to exactly `source`, whatever stale bytes lie between the two. */
    lemma FinishedOpens(file: seq<Byte>, key: Key, source: seq<Byte>, size: nat, nonces: seq<Nonce>, meta: Meta)
      requires Lawful() && |key| == KEY_SIZE && size > 0
      requires |nonces| == NumChunks(|source|, size) && Holds(file, key, source, size, nonces)
      requires meta.nonces == nonces && InStepMeta(key, source, size, nonces, meta)
      requires meta.sha256 == Some(sha256(source)) && meta.md5 == Some(md5(source))
      requires |file| < Pow256(OFFSET_SIZE) && |encode(meta)| < Pow256(META_SIZE_FIELD)
      ensures Opens(Finish(file, meta), key, meta.filename, source)
    {
      hide Finish, Segments, DecryptFrom, NumChunks;
      var whole := Finish(file, meta);
      assert DecryptFrom(whole, key, meta, OFFSET_SIZE, 0) == Ok(source) by {
        FinishedHolds(file, key, source, size, nonces, meta);
        assert nonces[..0] == [];
        ChunksCover(|source|, size);
        assert Segments(key, source, size, []) == [] by { NoSegments(key, source, size); }
        SegmentsOpen(whole, key, source, size, nonces, meta, 0, OFFSET_SIZE);
        assert source[ChunkStart(|source|, size, 0)..] == source;
      }
      FinishReads(file, meta);
    }
  }
}
