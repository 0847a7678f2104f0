/**
 * `encrypt_file` with resume: one output path with its progress file, written by
 * any number of runs, each of which may stop anywhere, within a write too (`*`).
 */
module Encrypt {
  import opened Bytes
  import opened Container

  /** What a progress file stores about the source it belongs to. */
  datatype Binding = Binding(path: string, size: nat, mtimeNs: int)

  /** A progress file: text that does not parse, or its fields (None where a
      legacy file has none; `completed` is None when it is not an integer). */
  datatype Progress =
    | Unreadable
    | Progress(target: string, chunkSize: int, hasLists: bool,
               binding: Option<Binding>, fingerprint: Option<string>, completed: Option<int>,
               nonces: seq<Nonce>, tags: seq<Tag>, lengths: seq<nat>)

  /** One call: the source as it is on disk now, the key, and the nonce that the random
      source gives for each chunk. */
  datatype Run = Run(source: seq<Byte>, binding: Binding, key: Key, nonceFor: nat -> Nonce)

  /** From the given chunk on, each nonce is the run's own for that chunk. */
  ghost predicate DrawnFrom(run: Run, first: nat, nonces: seq<seq<Byte>>) {
    forall i | first <= i < |nonces| :: nonces[i] == run.nonceFor(i)
  }

  datatype RunResult = Returned | Raised

  /** Whether this run can read, and remove, the progress file it finds, and remove the output. */
  datatype Disk = Disk(readable: bool, removable: bool, outputRemovable: bool)

  /** The size of a container whose segments have the given plaintext lengths. */
  function SizeClaimed(lengths: seq<nat>): nat {
    if lengths == [] then OFFSET_SIZE
    else SizeClaimed(lengths[..|lengths| - 1]) + lengths[|lengths| - 1] + TAG_SIZE
  }

  lemma {:induction false} SizeClaimedIsSegments(
    env: Env, key: Key, source: seq<Byte>, size: nat, nonces: seq<Nonce>, tags: seq<Tag>, lengths: seq<nat>)
    requires env.InStep(key, source, size, nonces, tags, lengths)
    ensures SizeClaimed(lengths) == OFFSET_SIZE + |env.Segments(key, source, size, nonces)|
  {
    if nonces != [] {
      var last := |nonces| - 1;
      SizeClaimedIsSegments(env, key, source, size, nonces[..last], tags[..last], lengths[..last]);
    }
  }

  /** The lengths of all segments sum to the source: the data region is the source
      and one tag for each segment. */
  lemma LengthsCoverSource(
    env: Env, key: Key, source: seq<Byte>, size: nat, nonces: seq<Nonce>, tags: seq<Tag>, lengths: seq<nat>)
    requires size > 0 && |nonces| == NumChunks(|source|, size)
    requires env.InStep(key, source, size, nonces, tags, lengths)
    ensures SizeClaimed(lengths) == OFFSET_SIZE + |source| + |lengths| * TAG_SIZE
  {
    SizeClaimedIsSegments(env, key, source, size, nonces, tags, lengths);
    env.SegmentsSize(key, source, size, nonces);
    ChunksCover(|source|, size);
  }

  class Workspace {
    const env: Env
    const name: string        // base name of the source
    const chunkSize: nat
    var output: Option<seq<Byte>>
    var progress: Option<Progress>

    // Every key and source version a run has used so far, and the key of the
    // run that wrote the progress file.
    ghost var keys: set<Key>
    ghost var sources: map<Binding, seq<Byte>>
    ghost var owner: Key

    /** The guards tell this run from every earlier one: another key has another
        fingerprint, another source version another binding. */
    ghost predicate Distinguishes(run: Run)
      reads this
    {
      && |run.source| == run.binding.size
      && (forall key | key in keys && env.fingerprint(key) == env.fingerprint(run.key) :: key == run.key)
      && (run.binding in sources ==> sources[run.binding] == run.source)
    }

    /** A progress file that the first guards would compare with a run. */
    predicate Comparable(p: Progress) {
      p.Progress? && p.target == name && p.chunkSize == chunkSize && p.hasLists
    }

    ghost predicate WrittenBy(p: Progress, key: Key, source: seq<Byte>)
      requires p.Progress?
      reads this
    {
      && p.completed == Some(|p.nonces|) && p.nonces != []
      && env.InStep(key, source, chunkSize, p.nonces, p.tags, p.lengths)
      && (output.Some? && |output.value| >= SizeClaimed(p.lengths)
          ==> env.Holds(output.value, key, source, chunkSize, p.nonces))
    }

    /** What every run keeps: a progress file that carries a binding and a
        fingerprint was written by an earlier run with that key and source, and
        an output file large enough for it starts with that run's segments. */
    ghost predicate Sound()
      reads this
    {
      progress.Some? && Comparable(progress.value)
      && progress.value.binding.Some? && progress.value.fingerprint.Some?
      ==>
        && owner in keys && env.fingerprint(owner) == progress.value.fingerprint.value
        && progress.value.binding.value in sources
        && WrittenBy(progress.value, owner, sources[progress.value.binding.value])
    }

    /** All four guards of `_load_progress` pass. */
    predicate Accepts(p: Progress, out: Option<seq<Byte>>, run: Run)
      requires chunkSize > 0
    {
      && Comparable(p)
      && p.binding == Some(run.binding) && p.fingerprint == Some(env.fingerprint(run.key))
      && p.completed.Some? && 0 <= p.completed.value <= NumChunks(run.binding.size, chunkSize)
      && (p.completed.value > 0 ==>
          && p.completed.value == |p.lengths| == |p.nonces| == |p.tags|
          && out.Some? && |out.value| >= SizeClaimed(p.lengths))
    }

    /** No progress file is left that a later run could take up. */
    predicate Cleared()
      reads this
    {
      progress.None? || !Comparable(progress.value)
    }

    constructor (env: Env, name: string, chunkSize: nat, output: Option<seq<Byte>>)
      ensures this.env == env && this.name == name && this.chunkSize == chunkSize
      ensures this.output == output && progress.None? && keys == {} && sources == map[]
      ensures Sound()
    {
      this.env, this.name, this.chunkSize, this.output := env, name, chunkSize, output;
      progress, keys, sources, owner := None, {}, map[], [];
    }

    /** `_discard_partial`: a file that cannot be removed is left (only logged). */
    method Discard(both: bool, disk: Disk)
      modifies this`output, this`progress
      ensures progress == if disk.removable then None else old(progress)
      ensures output == if both && disk.outputRemovable then None else old(output)
    {
      if disk.removable {
        progress := None;
      }
      if both && disk.outputRemovable {
        output := None;
      }
    }

    /** The first three guards pass, but the lists are not as long as the count says. */
    predicate ListsDisagree(p: Progress, run: Run)
      requires chunkSize > 0
    {
      && Comparable(p) && p.binding == Some(run.binding) && p.fingerprint == Some(env.fingerprint(run.key))
      && p.completed.Some? && 0 < p.completed.value <= NumChunks(run.binding.size, chunkSize)
      && !(p.completed.value == |p.lengths| == |p.nonces| == |p.tags|)
    }

    /** `_load_progress`: the progress file to continue from, if every guard passes. */
    method LoadProgress(run: Run, disk: Disk) returns (resume: Option<Progress>)
      requires chunkSize > 0
      modifies this`output, this`progress
      ensures resume.Some? ==> unchanged(this) && progress == resume && Accepts(resume.value, output, run)
      ensures disk.readable && old(progress.Some? && Accepts(progress.value, output, run)) ==> resume.Some?
      ensures resume.None? && disk.readable && disk.removable ==> Cleared()
      ensures !(disk.readable && disk.removable) ==> progress == old(progress)
      ensures !disk.readable || old(progress.None? || !Comparable(progress.value)) ==>
        resume.None? && progress == old(progress) && output == old(output)
      ensures disk.readable && old(progress.Some? && Comparable(progress.value) && !Accepts(progress.value, output, run)) ==>
        && resume.None? && progress == (if disk.removable then None else old(progress))
        && output == if !disk.outputRemovable || ListsDisagree(old(progress).value, run) then old(output) else None
    {
      if progress.None? || !disk.readable {
        return None;
      }
      var p := progress.value;
      if p.Unreadable? || p.target != name || p.chunkSize != chunkSize || !p.hasLists {
        return None;                                  // kept, but never comparable
      }
      if p.binding != Some(run.binding) {             // guard 1: the same source
        Discard(true, disk);
        return None;
      }
      if p.fingerprint != Some(env.fingerprint(run.key)) {   // guard 2: the same key
        Discard(true, disk);
        return None;
      }
      if p.completed.None? || !(0 <= p.completed.value <= NumChunks(run.binding.size, chunkSize)) {
        Discard(true, disk);                          // guard 3: a chunk count in range
        return None;
      }
      if p.completed.value > 0 {                      // guard 4: the output covers them
        if !(p.completed.value == |p.lengths| == |p.nonces| == |p.tags|) {
          Discard(false, disk);
          return None;
        }
        if output.None? || |output.value| < SizeClaimed(p.lengths) {
          Discard(true, disk);
          return None;
        }
      }
      return Some(p);
    }

    function SavedProgress(run: Run, nonces: seq<Nonce>, tags: seq<Tag>, lengths: seq<nat>): Progress {
      Progress(name, chunkSize, true, Some(run.binding), Some(env.fingerprint(run.key)),
               Some(|nonces|), nonces, tags, lengths)
    }

    /** Between two segments: the output holds the segments done so far, and
        the progress file says so (or nothing is done and none is left). */
    ghost predicate AtBoundary(run: Run, nonces: seq<Nonce>, tags: seq<Tag>, lengths: seq<nat>)
      reads this`keys, this`sources, this`output
    {
      && run.key in keys && run.binding in sources && sources[run.binding] == run.source
      && env.InStep(run.key, run.source, chunkSize, nonces, tags, lengths)
      && output.Some? && env.Holds(output.value, run.key, run.source, chunkSize, nonces)
    }

    ghost predicate ProgressCurrent(run: Run, nonces: seq<Nonce>, tags: seq<Tag>, lengths: seq<nat>)
      reads this
    {
      if nonces == [] then Cleared()
      else owner == run.key && progress == Some(SavedProgress(run, nonces, tags, lengths))
    }

    lemma BoundaryIsSound(run: Run, nonces: seq<Nonce>, tags: seq<Tag>, lengths: seq<nat>)
      requires AtBoundary(run, nonces, tags, lengths) && ProgressCurrent(run, nonces, tags, lengths)
      ensures Sound()
    {
    }

    /** A write that, in a run that may stop, may stop after any number of its bytes. */
    method WriteOrStop(pos: nat, data: seq<Byte>, mayStop: bool) returns (done: bool)
      requires output.Some? && OFFSET_SIZE <= pos <= |output.value|
      modifies this`output
      ensures output.Some? && |output.value| >= |old(output).value|
      ensures output.value[OFFSET_SIZE..pos] == old(output).value[OFFSET_SIZE..pos]
      ensures !mayStop ==> done
      ensures done ==>
        && output.value == Overwrite(old(output).value, pos, data)
        && output.value[OFFSET_SIZE..pos + |data|] == old(output).value[OFFSET_SIZE..pos] + data
    {
      ghost var before := output.value;
      var written := *;
      done := !(mayStop && 0 <= written < |data|);
      var part := if done then data else data[..written];
      OverwriteExtends(before, OFFSET_SIZE, pos, part);
      output := Some(Overwrite(output.value, pos, part));
      FrontOfSlice(output.value, OFFSET_SIZE, pos, pos + |part|, before[OFFSET_SIZE..pos], part);
    }

    /** One segment, streamed in buffers: appended to the output at `pos`. */
    method EncryptSegment(run: Run, nonce: Nonce, chunk: seq<Byte>, pos: nat, mayStop: bool)
      returns (done: bool, tag: Tag)
      requires output.Some? && OFFSET_SIZE <= pos <= |output.value|
      modifies this`output
      ensures !mayStop ==> done
      ensures output.Some? && |output.value| >= pos
      ensures output.value[OFFSET_SIZE..pos] == old(output).value[OFFSET_SIZE..pos]
      ensures done ==>
        && tag == env.tag(run.key, nonce, env.Ctr(run.key, nonce, 0, chunk))
        && pos + |chunk| + TAG_SIZE <= |output.value|
        && output.value[OFFSET_SIZE..pos + |chunk| + TAG_SIZE]
           == old(output).value[OFFSET_SIZE..pos] + env.Seal(run.key, nonce, chunk)
    {
      hide Overwrite;
      ghost var before := output.value[OFFSET_SIZE..pos];
      tag := env.tag(run.key, nonce, []);
      var chunkDone, ciphertext := 0, [];
      while chunkDone < |chunk|
        invariant chunkDone <= |chunk|
        invariant output.Some? && pos + chunkDone <= |output.value|
        invariant ciphertext == env.Ctr(run.key, nonce, 0, chunk[..chunkDone])
        invariant output.value[OFFSET_SIZE..pos + chunkDone] == before + ciphertext
      {
        var toRead := Min(STREAM_BUFFER, |chunk| - chunkDone);
        var piece := env.Ctr(run.key, nonce, chunkDone, chunk[chunkDone..chunkDone + toRead]);
        var written := WriteOrStop(pos + chunkDone, piece, mayStop);
        FrontOfSlice(output.value, OFFSET_SIZE, pos, pos + chunkDone, before, ciphertext);
        if !written {
          return false, tag;
        }
        StreamStep(run.key, nonce, chunk, chunkDone, toRead);
        JoinsAfter(before, ciphertext, piece);
        ciphertext := ciphertext + piece;
        chunkDone := chunkDone + toRead;
        var cancelled: bool := *;                     // by the progress callback
        if mayStop && cancelled {
          FrontOfSlice(output.value, OFFSET_SIZE, pos, pos + chunkDone, before, ciphertext);
          return false, tag;
        }
      }
      assert chunk[..chunkDone] == chunk;
      tag := env.tag(run.key, nonce, ciphertext);
      done := WriteOrStop(pos + chunkDone, tag, mayStop);
      FrontOfSlice(output.value, OFFSET_SIZE, pos, pos + chunkDone, before, ciphertext);
      JoinsAfter(before, ciphertext, tag);
    }

    lemma JoinsAfter(a: seq<Byte>, b: seq<Byte>, c: seq<Byte>)
      ensures a + b + c == a + (b + c)
    {
    }

    lemma StreamStep(key: Key, nonce: Nonce, chunk: seq<Byte>, from: nat, count: nat)
      requires from + count <= |chunk|
      ensures env.Ctr(key, nonce, 0, chunk[..from]) + env.Ctr(key, nonce, from, chunk[from..from + count])
           == env.Ctr(key, nonce, 0, chunk[..from + count])
    {
    }

    lemma SegmentAppended(key: Key, source: seq<Byte>, nonces: seq<Nonce>, tags: seq<Tag>, lengths: seq<nat>,
                          nonce: Nonce, tag: Tag, chunk: seq<Byte>)
      requires env.InStep(key, source, chunkSize, nonces, tags, lengths)
      requires chunk == Chunk(source, chunkSize, |nonces|)
      requires tag == env.tag(key, nonce, env.Ctr(key, nonce, 0, chunk))
      ensures env.InStep(key, source, chunkSize, nonces + [nonce], tags + [tag], lengths + [|chunk|])
      ensures env.Segments(key, source, chunkSize, nonces + [nonce])
           == env.Segments(key, source, chunkSize, nonces) + env.Seal(key, nonce, chunk)
    {
    }

    /** `_save_progress`: a temporary file, then an atomic replace. */
    method SaveProgress(run: Run, nonces: seq<Nonce>, tags: seq<Tag>, lengths: seq<nat>, mayStop: bool)
      returns (done: bool)
      modifies this`progress, this`owner
      ensures !mayStop ==> done
      ensures done ==> progress == Some(SavedProgress(run, nonces, tags, lengths)) && owner == run.key
      ensures !done ==> progress == old(progress) && owner == old(owner)
    {
      var stopped: bool := *;
      if mayStop && stopped {
        return false;
      }
      progress, owner := Some(SavedProgress(run, nonces, tags, lengths)), run.key;
      return true;
    }

    lemma HoldsOneMore(before: seq<Byte>, after: seq<Byte>, run: Run,
                       nonces: seq<Nonce>, tags: seq<Tag>, lengths: seq<nat>, nonce: Nonce, tag: Tag, chunk: seq<Byte>)
      requires env.InStep(run.key, run.source, chunkSize, nonces, tags, lengths)
      requires env.Holds(before, run.key, run.source, chunkSize, nonces)
      requires chunk == Chunk(run.source, chunkSize, |nonces|)
      requires tag == env.tag(run.key, nonce, env.Ctr(run.key, nonce, 0, chunk))
      requires var pos := SizeClaimed(lengths);
               && pos <= |before| && pos + |chunk| + TAG_SIZE <= |after|
               && after[OFFSET_SIZE..pos + |chunk| + TAG_SIZE]
                  == before[OFFSET_SIZE..pos] + env.Seal(run.key, nonce, chunk)
      ensures env.InStep(run.key, run.source, chunkSize, nonces + [nonce], tags + [tag], lengths + [|chunk|])
      ensures env.Holds(after, run.key, run.source, chunkSize, nonces + [nonce])
    {
      SegmentAppended(run.key, run.source, nonces, tags, lengths, nonce, tag, chunk);
      SizeClaimedIsSegments(env, run.key, run.source, chunkSize, nonces, tags, lengths);
    }

    lemma StillHolds(before: seq<Byte>, after: seq<Byte>, run: Run,
                     nonces: seq<Nonce>, tags: seq<Tag>, lengths: seq<nat>)
      requires env.InStep(run.key, run.source, chunkSize, nonces, tags, lengths)
      requires env.Holds(before, run.key, run.source, chunkSize, nonces)
      requires var pos := SizeClaimed(lengths);
               pos <= |before| && pos <= |after| && after[OFFSET_SIZE..pos] == before[OFFSET_SIZE..pos]
      ensures env.Holds(after, run.key, run.source, chunkSize, nonces)
    {
      SizeClaimedIsSegments(env, run.key, run.source, chunkSize, nonces, tags, lengths);
    }

    /** One turn of the chunk loop: encrypt, write, record. */
    method EncryptNext(run: Run, nonces: seq<Nonce>, tags: seq<Tag>, lengths: seq<nat>, chunk: seq<Byte>, mayStop: bool)
      returns (done: bool, nonce: Nonce, tag: Tag)
      requires AtBoundary(run, nonces, tags, lengths) && chunk == Chunk(run.source, chunkSize, |nonces|)
      modifies this`output, this`progress, this`owner
      ensures !mayStop ==> done
      ensures nonce == run.nonceFor(|nonces|)
      ensures !done ==> AtBoundary(run, nonces, tags, lengths)
      ensures !done && old(ProgressCurrent(run, nonces, tags, lengths)) ==>
        ProgressCurrent(run, nonces, tags, lengths) && Sound()
      ensures done ==>
        && AtBoundary(run, nonces + [nonce], tags + [tag], lengths + [|chunk|])
        && ProgressCurrent(run, nonces + [nonce], tags + [tag], lengths + [|chunk|])
    {
      var pos := SizeClaimed(lengths);
      SizeClaimedIsSegments(env, run.key, run.source, chunkSize, nonces, tags, lengths);
      nonce := run.nonceFor(|nonces|);
      ghost var before := output.value;
      done, tag := EncryptSegment(run, nonce, chunk, pos, mayStop);
      StillHolds(before, output.value, run, nonces, tags, lengths);
      if done {
        HoldsOneMore(before, output.value, run, nonces, tags, lengths, nonce, tag, chunk);
        done := SaveProgress(run, nonces + [nonce], tags + [tag], lengths + [|chunk|], mayStop);
      }
      if !done && old(ProgressCurrent(run, nonces, tags, lengths)) {
        BoundaryIsSound(run, nonces, tags, lengths);
      }
    }

    /** "wb": the old output goes, and the placeholder of the header is written. */
    method StartOutput(run: Run, mayStop: bool) returns (started: bool)
      requires run.key in keys && run.binding in sources && sources[run.binding] == run.source
      modifies this`output
      ensures !mayStop ==> started
      ensures old(Cleared()) ==> Sound()
      ensures started ==> output == Some(LittleEndian(0, OFFSET_SIZE)) && AtBoundary(run, [], [], [])
      ensures started && old(Cleared()) ==> ProgressCurrent(run, [], [], [])
    {
      var placeholder, written := LittleEndian(0, OFFSET_SIZE), *;
      started := !(mayStop && 0 <= written < OFFSET_SIZE);
      output := Some(if started then placeholder else placeholder[..written]);
    }

    lemma FedOneMore(source: seq<Byte>, i: nat)
      ensures source[..ChunkStart(|source|, chunkSize, i)] + Chunk(source, chunkSize, i)
           == source[..ChunkStart(|source|, chunkSize, i + 1)]
    {
      ChunkStartMonotonic(|source|, chunkSize, i);
    }

    /** `_write_encrypted_data` from chunk |nonces0| on; `fed` is what the inline hashers saw. */
    method WriteEncryptedData(run: Run, nonces0: seq<Nonce>, tags0: seq<Tag>, lengths0: seq<nat>, mayStop: bool)
      returns (done: bool, nonces: seq<Nonce>, tags: seq<Tag>, lengths: seq<nat>, fed: seq<Byte>)
      requires chunkSize > 0 && |nonces0| <= NumChunks(|run.source|, chunkSize)
      requires run.key in keys && run.binding in sources && sources[run.binding] == run.source
      requires |nonces0| == |tags0| == |lengths0|
      requires nonces0 != [] ==>
        AtBoundary(run, nonces0, tags0, lengths0) && ProgressCurrent(run, nonces0, tags0, lengths0)
      modifies this`output, this`progress, this`owner
      ensures !mayStop ==> done
      ensures nonces0 != [] || old(Cleared()) ==> Sound()
      ensures nonces0 != [] ==> AtBoundary(run, nonces, tags, lengths) && ProgressCurrent(run, nonces, tags, lengths)
      ensures nonces0 <= nonces && tags0 <= tags && lengths0 <= lengths   // finished segments are kept
      ensures DrawnFrom(run, |nonces0|, nonces)
      ensures done ==>
        && |nonces| == NumChunks(|run.source|, chunkSize)
        && AtBoundary(run, nonces, tags, lengths) && ProgressCurrent(run, nonces, tags, lengths)
        && (nonces0 == [] ==> fed == run.source)
    {
      hide AtBoundary, ProgressCurrent, Sound, Cleared, NumChunks, ChunkStart, Chunk;
      done, nonces, tags, lengths, fed := false, nonces0, tags0, lengths0, [];
      ghost var reliable := nonces0 != [] || Cleared();
      var numChunks := NumChunks(|run.source|, chunkSize);
      ChunksCover(|run.source|, chunkSize);
      if nonces == [] {
        var started := StartOutput(run, mayStop);
        if !started {
          return;
        }
      }
      while |nonces| < numChunks
        invariant |nonces0| <= |nonces| <= numChunks
        invariant nonces0 <= nonces && tags0 <= tags && lengths0 <= lengths && DrawnFrom(run, |nonces0|, nonces)
        invariant AtBoundary(run, nonces, tags, lengths)
        invariant reliable || nonces != [] ==> ProgressCurrent(run, nonces, tags, lengths)
        invariant nonces0 == [] ==> fed == run.source[..ChunkStart(|run.source|, chunkSize, |nonces|)]
      {
        var chunk := Chunk(run.source, chunkSize, |nonces|);
        var written, nonce, tag := EncryptNext(run, nonces, tags, lengths, chunk, mayStop);
        if !written {
          return;
        }
        FedOneMore(run.source, |nonces|);
        fed := fed + chunk;
        nonces, tags, lengths := nonces + [nonce], tags + [tag], lengths + [|chunk|];
        var cancelled: bool := *;                     // by the progress callback
        if mayStop && cancelled {
          BoundaryIsSound(run, nonces, tags, lengths);
          return;
        }
      }
      BoundaryIsSound(run, nonces, tags, lengths);
      done := true;
    }

    /** `_write_metadata_and_finalize`: three writes, the metadata always at the end. */
    method WriteMetadataAndFinalize(meta: Meta, mayStop: bool) returns (done: bool)
      requires output.Some? && |output.value| >= OFFSET_SIZE
      modifies this`output
      ensures output.Some? && |output.value| >= |old(output).value|
      ensures output.value[OFFSET_SIZE..|old(output).value|] == old(output).value[OFFSET_SIZE..]
      ensures !mayStop && !done ==>
        |old(output).value| >= Pow256(OFFSET_SIZE) || |env.encode(meta)| >= Pow256(META_SIZE_FIELD)
      ensures done ==>
        && |old(output).value| < Pow256(OFFSET_SIZE) && |env.encode(meta)| < Pow256(META_SIZE_FIELD)
        && output.value == env.Finish(old(output).value, meta)
    {
      hide LittleEndian, Overwrite, Pow256;
      done := false;
      var metaOffset, json := |output.value|, env.encode(meta);
      ghost var data := output.value;
      done := AppendOrStop(json, mayStop);
      if !done || |json| >= Pow256(META_SIZE_FIELD) {      // struct.pack("<I") refuses
        return false;
      }
      ghost var withJson := output.value;
      done := AppendOrStop(LittleEndian(|json|, META_SIZE_FIELD), mayStop);
      ShorterToo(withJson, output.value, metaOffset);
      if !done || metaOffset >= Pow256(OFFSET_SIZE) {
        return false;
      }
      ghost var whole := output.value;
      done := WriteHeader(LittleEndian(metaOffset, OFFSET_SIZE), mayStop);
      SameData(whole, output.value, metaOffset);
    }

    /** A write at the end of the output. */
    method AppendOrStop(data: seq<Byte>, mayStop: bool) returns (done: bool)
      requires output.Some? && |output.value| >= OFFSET_SIZE
      modifies this`output
      ensures !mayStop ==> done
      ensures output.Some? && |output.value| >= |old(output).value|
      ensures output.value[OFFSET_SIZE..|old(output).value|] == old(output).value[OFFSET_SIZE..]
      ensures done ==> output.value == old(output).value + data
    {
      AtTheEnd(output.value, data);
      done := WriteOrStop(|output.value|, data, mayStop);
    }

    lemma AtTheEnd(file: seq<Byte>, data: seq<Byte>)
      ensures Overwrite(file, |file|, data) == file + data
    {
    }

    lemma ShorterToo(a: seq<Byte>, b: seq<Byte>, n: nat)
      requires OFFSET_SIZE <= n <= |a| <= |b| && b[OFFSET_SIZE..|a|] == a[OFFSET_SIZE..]
      ensures b[OFFSET_SIZE..n] == a[OFFSET_SIZE..n]
    {
      SliceOfSlice(b, OFFSET_SIZE, n, |a|);
      SliceOfSlice(a, OFFSET_SIZE, n, |a|);
    }

    /** The header's eight bytes, or the first few of them. */
    method WriteHeader(header: seq<Byte>, mayStop: bool) returns (done: bool)
      requires output.Some? && |header| == OFFSET_SIZE <= |output.value|
      modifies this`output
      ensures !mayStop ==> done
      ensures output.Some? && |output.value| == |old(output).value|
      ensures output.value[OFFSET_SIZE..] == old(output).value[OFFSET_SIZE..]
      ensures done ==> output.value == Overwrite(old(output).value, 0, header)
    {
      var written := *;
      done := !(mayStop && 0 <= written < |header|);
      var part := if done then header else header[..written];
      HeaderKeepsData(output.value, part);
      output := Some(Overwrite(output.value, 0, part));
    }

    lemma SameData(a: seq<Byte>, b: seq<Byte>, n: nat)
      requires OFFSET_SIZE <= n <= |a| == |b| && a[OFFSET_SIZE..] == b[OFFSET_SIZE..]
      ensures a[OFFSET_SIZE..n] == b[OFFSET_SIZE..n]
    {
    }

    lemma HeaderKeepsData(file: seq<Byte>, header: seq<Byte>)
      requires |header| <= OFFSET_SIZE <= |file|
      ensures |Overwrite(file, 0, header)| == |file|
      ensures Overwrite(file, 0, header)[OFFSET_SIZE..] == file[OFFSET_SIZE..]
    {
    }

    /** What the guards accept is this run's own work. */
    lemma AcceptedIsBoundary(run: Run)
      requires chunkSize > 0 && Sound() && Distinguishes(run)
      requires run.key in keys && run.binding in sources && sources[run.binding] == run.source
      requires progress.Some? && Accepts(progress.value, output, run)
      ensures var p := progress.value;
        && p.nonces != [] && |p.nonces| <= NumChunks(|run.source|, chunkSize)
        && AtBoundary(run, p.nonces, p.tags, p.lengths) && ProgressCurrent(run, p.nonces, p.tags, p.lengths)
    {
    }

    /** And this run's own work is what the guards accept: stopped after any segment it has
        recorded, the same run is taken up there, by source, key and finished bytes. */
    lemma OwnProgressIsAccepted(run: Run, nonces: seq<Nonce>, tags: seq<Tag>, lengths: seq<nat>, disk: Disk)
      requires chunkSize > 0 && nonces != [] && |nonces| <= NumChunks(|run.source|, chunkSize)
      requires AtBoundary(run, nonces, tags, lengths) && ProgressCurrent(run, nonces, tags, lengths)
      requires |run.source| == run.binding.size
      ensures Accepts(progress.value, output, run) && (disk.readable ==> Resumes(run, disk))
    {
      SizeClaimedIsSegments(env, run.key, run.source, chunkSize, nonces, tags, lengths);
    }

    /** Metadata written after the segments leaves them as they are. */
    method FinishContainer(run: Run, meta: Meta, nonces: seq<Nonce>, tags: seq<Tag>, lengths: seq<nat>,
                           mayStop: bool)
      returns (done: bool)
      requires env.Lawful() && |run.key| == KEY_SIZE && chunkSize > 0
      requires |nonces| == NumChunks(|run.source|, chunkSize)
      requires AtBoundary(run, nonces, tags, lengths) && ProgressCurrent(run, nonces, tags, lengths)
      requires meta.nonces == nonces && meta.tags == tags && meta.chunkLengths == lengths
      requires meta.sha256 == Some(env.sha256(run.source)) && meta.md5 == Some(env.md5(run.source))
      modifies this`output
      ensures Sound() && AtBoundary(run, nonces, tags, lengths) && ProgressCurrent(run, nonces, tags, lengths)
      ensures !mayStop && !done ==>
        |output.value| >= Pow256(OFFSET_SIZE) || |env.encode(meta)| >= Pow256(META_SIZE_FIELD)
      ensures done ==> env.ReadMetadata(output.value) == Ok(meta)
      ensures done ==> env.Opens(output.value, run.key, meta.filename, run.source)
    {
      ghost var data := output.value;
      SizeClaimedIsSegments(env, run.key, run.source, chunkSize, nonces, tags, lengths);
      done := WriteMetadataAndFinalize(meta, mayStop);
      assert output.value[OFFSET_SIZE..SizeClaimed(lengths)] == data[OFFSET_SIZE..SizeClaimed(lengths)] by {
        assert output.value[OFFSET_SIZE..SizeClaimed(lengths)]
            == output.value[OFFSET_SIZE..|data|][..SizeClaimed(lengths) - OFFSET_SIZE];
      }
      StillHolds(data, output.value, run, nonces, tags, lengths);
      BoundaryIsSound(run, nonces, tags, lengths);
      if done {
        env.FinishReads(data, meta);
        env.FinishedOpens(data, run.key, run.source, chunkSize, nonces, meta);
      }
    }

    /** The run joins those the guards have to tell apart. */
    ghost method Enter(run: Run)
      requires Sound() && Distinguishes(run)
      modifies this`keys, this`sources
      ensures keys == old(keys) + {run.key} && sources == old(sources)[run.binding := run.source]
      ensures Sound() && Distinguishes(run)
    {
      keys, sources := keys + {run.key}, sources[run.binding := run.source];
    }

    /** The run finds progress of its own that passes all guards. */
    predicate Resumes(run: Run, disk: Disk)
      reads this
    {
      disk.readable && chunkSize > 0 && progress.Some? && Accepts(progress.value, output, run)
    }

    /** The lists of a progress file that metadata, or a later progress file, begins with. */
    ghost predicate ListsExtend(p: Progress, nonces: seq<seq<Byte>>, tags: seq<seq<Byte>>, lengths: seq<int>) {
      p.Progress? && p.nonces <= nonces && p.tags <= tags && p.lengths <= lengths
    }

    /** Two files that hold the same segments do so in the same bytes. */
    lemma SameSegments(run: Run, p: Progress, before: seq<Byte>, after: seq<Byte>, nonces: seq<Nonce>)
      requires p.Progress? && p.nonces <= nonces
      requires env.InStep(run.key, run.source, chunkSize, p.nonces, p.tags, p.lengths)
      requires env.Holds(before, run.key, run.source, chunkSize, p.nonces)
      requires env.Holds(after, run.key, run.source, chunkSize, nonces)
      ensures SizeClaimed(p.lengths) <= |before| && SizeClaimed(p.lengths) <= |after|
      ensures after[OFFSET_SIZE..SizeClaimed(p.lengths)] == before[OFFSET_SIZE..SizeClaimed(p.lengths)]
    {
      SizeClaimedIsSegments(env, run.key, run.source, chunkSize, p.nonces, p.tags, p.lengths);
      assert nonces[..|p.nonces|] == p.nonces;
      env.HoldsPrefix(after, run.key, run.source, chunkSize, nonces, |p.nonces|);
    }

    /** The finished segments of a progress file are still there, byte for byte. */
    ghost predicate Kept(p: Progress, before: Option<seq<Byte>>, after: Option<seq<Byte>>) {
      && p.Progress? && before.Some? && after.Some?
      && OFFSET_SIZE <= SizeClaimed(p.lengths) <= |before.value| && SizeClaimed(p.lengths) <= |after.value|
      && after.value[OFFSET_SIZE..SizeClaimed(p.lengths)] == before.value[OFFSET_SIZE..SizeClaimed(p.lengths)]
    }

    lemma StillThere(run: Run, p: Progress, before: Option<seq<Byte>>, nonces: seq<Nonce>, tags: seq<Tag>, lengths: seq<nat>)
      requires p.Progress? && p.nonces <= nonces && before.Some?
      requires env.InStep(run.key, run.source, chunkSize, p.nonces, p.tags, p.lengths)
      requires env.Holds(before.value, run.key, run.source, chunkSize, p.nonces)
      requires AtBoundary(run, nonces, tags, lengths)
      ensures Kept(p, before, output)
    {
      SizeClaimedIsSegments(env, run.key, run.source, chunkSize, p.nonces, p.tags, p.lengths);
      SameSegments(run, p, before.value, output.value, nonces);
    }

    /** The metadata of a finished container. */
    ghost predicate Describes(meta: Meta, run: Run)
      requires chunkSize > 0
    {
      && meta.filename == name && meta.size == |run.source| && |meta.nonces| == NumChunks(|run.source|, chunkSize)
      && meta.sha256 == Some(env.sha256(run.source)) && meta.md5 == Some(env.md5(run.source))
    }

    /** The container's own fields cannot hold it: 2^64 bytes of data, or 2^32 of metadata. */
    ghost predicate TooLarge(run: Run)
      reads this
    {
      || (output.Some? && |output.value| >= Pow256(OFFSET_SIZE))
      || exists meta: Meta :: meta.filename == name && meta.size == |run.source| && |env.encode(meta)| >= Pow256(META_SIZE_FIELD)
    }

    /** Encrypts what is left after the given segments and finishes the container. */
    method Continue(run: Run, nonces0: seq<Nonce>, tags0: seq<Tag>, lengths0: seq<nat>, mayStop: bool)
      returns (result: RunResult, ghost nonces: seq<Nonce>, ghost tags: seq<Tag>, ghost lengths: seq<nat>)
      requires env.Lawful() && |run.key| == KEY_SIZE && chunkSize > 0 && |nonces0| <= NumChunks(|run.source|, chunkSize)
      requires run.key in keys && run.binding in sources && sources[run.binding] == run.source
      requires |nonces0| == |tags0| == |lengths0|
      requires nonces0 != [] ==>
        AtBoundary(run, nonces0, tags0, lengths0) && ProgressCurrent(run, nonces0, tags0, lengths0)
      modifies this`output, this`progress, this`owner
      ensures nonces0 != [] || old(Cleared()) ==> Sound()
      ensures nonces0 <= nonces && tags0 <= tags && lengths0 <= lengths
      ensures DrawnFrom(run, |nonces0|, nonces)
      ensures nonces0 != [] ==> AtBoundary(run, nonces, tags, lengths)
      ensures nonces0 != [] && result.Raised? ==> ProgressCurrent(run, nonces, tags, lengths)
      ensures !mayStop ==> result.Returned? || TooLarge(run)
      ensures result.Returned? ==>
        && Sound() && progress.None? && output.Some?
        && env.Opens(output.value, run.key, name, run.source)
      ensures result.Returned? ==>
        && var read := env.ReadMetadata(output.value);
        && read.Ok? && Describes(read.value, run)
        && read.value.nonces == nonces && read.value.tags == tags && read.value.chunkLengths == lengths
    {
      hide NumChunks, AtBoundary, ProgressCurrent, WrittenBy, Cleared;
      result := Raised;
      var done, doneNonces, doneTags, doneLengths, fed := WriteEncryptedData(run, nonces0, tags0, lengths0, mayStop);
      nonces, tags, lengths := doneNonces, doneTags, doneLengths;
      if !done {
        return;
      }
      var hashed := if nonces0 == [] then fed else run.source;
      var meta := Meta(name, |run.source|, doneNonces, doneTags, doneLengths,
                       Some(env.sha256(hashed)), Some(env.md5(hashed)));
      done := FinishContainer(run, meta, doneNonces, doneTags, doneLengths, mayStop);
      if !done {
        return;
      }
      var failed: bool := *;                          // removing the progress file fails
      if mayStop && failed {
        return;
      }
      progress := None;
      result := Returned;
    }

    /** `encrypt_file`. Whatever earlier runs left, a run that returns leaves a container
        that opens with its key to exactly its source; a run that raises anywhere keeps
        the workspace sound for the next one, if the progress file it found could be both
        read and removed. A run that finds progress of its own keeps the finished
        segments byte for byte, and never loses one it has recorded. A run that does not
        stop returns. */
    method EncryptFile(run: Run, disk: Disk, mayStop: bool) returns (result: RunResult)
      requires env.Lawful() && Sound() && Distinguishes(run)
      modifies this
      ensures keys == old(keys) + {run.key} && sources == old(sources)[run.binding := run.source]
      ensures disk.readable && disk.removable ==> Sound()
      ensures |run.key| != KEY_SIZE || !(MIN_CHUNK_SIZE <= chunkSize <= MAX_CHUNK_SIZE) ==>
        result.Raised? && output == old(output) && progress == old(progress)
      ensures !mayStop && |run.key| == KEY_SIZE && MIN_CHUNK_SIZE <= chunkSize <= MAX_CHUNK_SIZE ==>
        result.Returned? || TooLarge(run)
      ensures result.Returned? ==>
        && Sound() && progress.None? && output.Some?
        && env.Opens(output.value, run.key, name, run.source)
      ensures result.Returned? ==>
        && chunkSize > 0
        && var read := env.ReadMetadata(output.value);
        && read.Ok? && Describes(read.value, run)
        && (old(Resumes(run, disk)) ==>
              && ListsExtend(old(progress).value, read.value.nonces, read.value.tags, read.value.chunkLengths)
              && DrawnFrom(run, |old(progress).value.nonces|, read.value.nonces))
        && (!old(Resumes(run, disk)) ==> DrawnFrom(run, 0, read.value.nonces))
      ensures old(Resumes(run, disk)) ==> Kept(old(progress).value, old(output), output)
      ensures old(Resumes(run, disk)) && result.Raised? ==>
        && progress.Some? && progress.value.Progress?
        && ListsExtend(old(progress).value, progress.value.nonces, progress.value.tags, progress.value.lengths)
    {
      Enter(run);
      ghost var found, before, resumes := progress, output, Resumes(run, disk);
      if resumes {
        AcceptedIsBoundary(run);
        BoundaryParts(run, found.value, before);
        StillThere(run, found.value, before, found.value.nonces, found.value.tags, found.value.lengths);
      }
      hide NumChunks, Distinguishes, AtBoundary, Accepts, WrittenBy, Sound, Kept, Describes, TooLarge;
      result := Raised;
      if |run.key| != KEY_SIZE || !(MIN_CHUNK_SIZE <= chunkSize <= MAX_CHUNK_SIZE) {
        return;
      }
      var resume := LoadProgress(run, disk);
      var nonces, tags, lengths := [], [], [];
      if resume.Some? {
        AcceptedIsBoundary(run);
        nonces, tags, lengths := resume.value.nonces, resume.value.tags, resume.value.lengths;
        var failed: bool := *;                        // metadata collection fails
        if mayStop && failed {
          return;
        }
      }
      ghost var allNonces, allTags, allLengths;
      result, allNonces, allTags, allLengths := Continue(run, nonces, tags, lengths, mayStop);
      if resumes { StillThere(run, found.value, before, allNonces, allTags, allLengths); }
    }

    lemma BoundaryParts(run: Run, p: Progress, before: Option<seq<Byte>>)
      requires p.Progress? && before == output && AtBoundary(run, p.nonces, p.tags, p.lengths)
      ensures env.InStep(run.key, run.source, chunkSize, p.nonces, p.tags, p.lengths)
      ensures before.Some? && env.Holds(before.value, run.key, run.source, chunkSize, p.nonces)
    {
    }

    /** Why the progress file has to go. A run starts over because the progress file
        belongs to another key; the file cannot be both read and removed, so it stays.
        The run stops after its first segment, before recording it. The workspace is
        sound then only if that segment is the one that the old file describes. When
        they differ in their tags, the run of the old file takes up the foreign segment,
        and no container that goes on from there decrypts. */
    method RestartOverLeftover(run: Run, disk: Disk, nonce: Nonce) returns (done: bool, tag: Tag)
      requires chunkSize > 0 && Sound() && Distinguishes(run) && !(disk.readable && disk.removable)
      requires progress.Some? && Comparable(progress.value) && progress.value.binding.Some?
      requires progress.value.fingerprint.Some? && progress.value.fingerprint != Some(env.fingerprint(run.key))
      modifies this
      ensures progress == old(progress) && owner == old(owner)
      ensures var p, chunk := progress.value, Chunk(run.source, chunkSize, 0);
        done ==>
          && tag == env.tag(run.key, nonce, env.Ctr(run.key, nonce, 0, chunk)) && StartsWith(run.key, nonce, chunk)
          && (Sound() <==> DescribedBy(p))
          && (p.lengths == [|chunk|] && p.tags[0] != tag ==>
                !Sound() && TakenUp(p, output) && NeverDecrypts(p, output.value))
    {
      Enter(run);
      var resume := LoadProgress(run, disk);
      done := StartOutput(run, true);
      tag := env.tag(run.key, nonce, []);
      if !done {
        return;
      }
      var chunk := Chunk(run.source, chunkSize, 0);
      done, tag := EncryptSegment(run, nonce, chunk, OFFSET_SIZE, true);
      if done {
        assert output.value[OFFSET_SIZE..OFFSET_SIZE + |chunk| + TAG_SIZE] == env.Seal(run.key, nonce, chunk);
        ghost var p := progress.value;
        if p.lengths == [|chunk|] && p.tags[0] != tag { OtherSegment(p, run.key, nonce, chunk); }
      }
    }

    /** The output holds this one segment behind its header. */
    ghost predicate StartsWith(key: Key, nonce: Nonce, chunk: seq<Byte>)
      reads this
    {
      && output.Some? && |output.value| >= OFFSET_SIZE + |chunk| + TAG_SIZE
      && output.value[OFFSET_SIZE..OFFSET_SIZE + |chunk| + TAG_SIZE] == env.Seal(key, nonce, chunk)
    }

    /** The output is too short for what the progress file claims, or holds just that. */
    ghost predicate DescribedBy(p: Progress)
      reads this
    {
      p.Progress? && p.binding.Some? && p.binding.value in sources && output.Some?
      && |output.value| >= SizeClaimed(p.lengths) ==>
        env.Holds(output.value, owner, sources[p.binding.value], chunkSize, p.nonces)
    }

    lemma OtherSegment(p: Progress, key: Key, nonce: Nonce, chunk: seq<Byte>)
      requires chunkSize > 0 && Comparable(p) && p.binding.Some? && p.fingerprint.Some? && p.binding.value in sources
      requires p.completed == Some(|p.nonces|)
      requires env.InStep(owner, sources[p.binding.value], chunkSize, p.nonces, p.tags, p.lengths)
      requires StartsWith(key, nonce, chunk) && p.lengths == [|chunk|]
      requires p.tags[0] != env.tag(key, nonce, env.Ctr(key, nonce, 0, chunk))
      ensures !DescribedBy(p) && TakenUp(p, output) && NeverDecrypts(p, output.value)
    {
      var tag := env.tag(key, nonce, env.Ctr(key, nonce, 0, chunk));
      TagInPlace(output.value, key, nonce, chunk);
      assert SizeClaimed(p.lengths) == OFFSET_SIZE + |chunk| + TAG_SIZE by { assert p.lengths[..0] == []; }
      assert !DescribedBy(p) by { NotHeld(p, output.value, tag); }
      forall k: Key, meta: Meta, more: seq<Byte>
        | p.nonces <= meta.nonces && p.tags <= meta.tags && p.lengths <= meta.chunkLengths
        ensures env.DecryptFrom(output.value + more, k, meta, OFFSET_SIZE, 0) == Err(TamperDetected)
      {
        assert meta.nonces[0] == p.nonces[0] && meta.tags[0] == p.tags[0] && meta.chunkLengths[0] == p.lengths[0];
        OtherTagRefused(output.value, more, k, meta, |chunk|, tag);
      }
    }

    lemma TagInPlace(file: seq<Byte>, key: Key, nonce: Nonce, chunk: seq<Byte>)
      requires var end := OFFSET_SIZE + |chunk|;
        |file| >= end + TAG_SIZE && file[OFFSET_SIZE..end + TAG_SIZE] == env.Seal(key, nonce, chunk)
      ensures var end := OFFSET_SIZE + |chunk|;
        file[end..end + TAG_SIZE] == env.tag(key, nonce, env.Ctr(key, nonce, 0, chunk))
    {
      var end := OFFSET_SIZE + |chunk|;
      assert file[end..end + TAG_SIZE] == file[OFFSET_SIZE..end + TAG_SIZE][|chunk|..];
    }

    /** A first tag in the file that is not the one in the metadata. */
    lemma OtherTagRefused(file: seq<Byte>, more: seq<Byte>, key: Key, meta: Meta, length: nat, tag: Tag)
      requires meta.nonces != [] && |meta.nonces[0]| == NONCE_SIZE && meta.tags != [] && |meta.tags[0]| == TAG_SIZE
      requires meta.chunkLengths != [] && meta.chunkLengths[0] == length && meta.tags[0] != tag
      requires var end := OFFSET_SIZE + length; |file| >= end + TAG_SIZE && file[end..end + TAG_SIZE] == tag
      ensures env.DecryptFrom(file + more, key, meta, OFFSET_SIZE, 0) == Err(TamperDetected)
    {
      var end := OFFSET_SIZE + length;
      assert (file + more)[end..end + TAG_SIZE] == tag;
    }

    /** One claimed segment whose recorded tag is not in its place. */
    lemma NotHeld(p: Progress, file: seq<Byte>, tag: Tag)
      requires p.Progress? && p.binding.Some? && p.binding.value in sources && |p.lengths| == 1
      requires env.InStep(owner, sources[p.binding.value], chunkSize, p.nonces, p.tags, p.lengths)
      requires var end := OFFSET_SIZE + p.lengths[0];
        |file| >= end + TAG_SIZE && file[end..end + TAG_SIZE] == tag && p.tags[0] != tag
      ensures !env.Holds(file, owner, sources[p.binding.value], chunkSize, p.nonces)
    {
      var source, end := sources[p.binding.value], OFFSET_SIZE + p.lengths[0];
      var theirs := env.Segments(owner, source, chunkSize, p.nonces);
      assert theirs == env.Seal(owner, p.nonces[0], Chunk(source, chunkSize, 0)) by {
        assert p.nonces[..0] == [];
        env.NoSegments(owner, source, chunkSize);
      }
      assert theirs[p.lengths[0]..] == p.tags[0];
      assert file[OFFSET_SIZE..end + TAG_SIZE][p.lengths[0]..] == tag;
    }

    /** Every run of the old file's source and key accepts the file with this output. */
    ghost predicate TakenUp(p: Progress, out: Option<seq<Byte>>) {
      forall first: Run | chunkSize > 0 && p.Progress? && p.binding == Some(first.binding)
        && p.fingerprint == Some(env.fingerprint(first.key)) :: Accepts(p, out, first)
    }

    /** Whatever follows, metadata that starts with the old file's lists does not decrypt it. */
    ghost predicate NeverDecrypts(p: Progress, file: seq<Byte>) {
      forall key: Key, meta: Meta, more: seq<Byte> | |file| >= OFFSET_SIZE && p.Progress?
        && p.nonces <= meta.nonces && p.tags <= meta.tags && p.lengths <= meta.chunkLengths ::
        env.DecryptFrom(file + more, key, meta, OFFSET_SIZE, 0) == Err(TamperDetected)
    }

    /** Any number of runs, interrupted or not, with any keys and source versions
        the guards tell apart; the output file may vanish in between. */
    method EncryptRepeatedly(runs: seq<Run>) returns (results: seq<RunResult>)
      requires env.Lawful() && Sound()
      requires forall i | 0 <= i < |runs| :: |runs[i].source| == runs[i].binding.size
      requires forall i, j | 0 <= i < j < |runs| ::
                 && (env.fingerprint(runs[i].key) == env.fingerprint(runs[j].key) ==> runs[i].key == runs[j].key)
                 && (runs[i].binding == runs[j].binding ==> runs[i].source == runs[j].source)
      requires keys == {} && sources == map[]
      modifies this
      ensures Sound() && |results| == |runs|
      ensures runs != [] && results[|runs| - 1].Returned? ==>
        && output.Some?
        && env.Opens(output.value, runs[|runs| - 1].key, name, runs[|runs| - 1].source)
    {
      results := [];
      while |results| < |runs|
        invariant |results| <= |runs| && Sound()
        invariant forall key | key in keys :: exists i :: 0 <= i < |results| && runs[i].key == key
        invariant forall b | b in sources ::
                    exists i :: 0 <= i < |results| && runs[i].binding == b && runs[i].source == sources[b]
        invariant results != [] && results[|results| - 1].Returned? ==>
          && output.Some?
          && env.Opens(output.value, runs[|results| - 1].key, name, runs[|results| - 1].source)
      {
        var run := runs[|results|];
        if * {
          output := None;
        }
        var outputRemovable, mayStop := *, *;
        var result := EncryptFile(run, Disk(true, true, outputRemovable), mayStop);
        results := results + [result];
        assert runs[|results| - 1] == run;
      }
    }
  }
}
