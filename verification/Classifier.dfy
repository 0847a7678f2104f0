/**
 * Sorting the files of a directory into known and unknown ones for a resealing:
 * only files of a recorded size are hashed, unless a record lacks its size.
 */
module Classifier {
  import opened Bytes

  /** A file entry of the previous record; a missing hash is "". */
  datatype Entry = Entry(sha256: string, size: Option<int>)

  datatype File = File(path: string, content: seq<Byte>)

  /** A classified file and the hash listed for it, "" when it was not hashed. */
  datatype Item = Item(file: File, sha256: string)

  type Hash = seq<Byte> -> string

  function KnownHashes(entries: seq<Entry>): set<string> {
    set e | e in entries && e.sha256 != "" :: e.sha256
  }

  function KnownSizes(entries: seq<Entry>): set<int> {
    set e | e in entries && e.sha256 != "" && e.size.Some? :: e.size.value
  }

  predicate SizesComplete(entries: seq<Entry>) {
    forall e | e in entries && e.sha256 != "" :: e.size.Some?
  }

  /** Known when every file is hashed. */
  predicate IsKnown(entries: seq<Entry>, hash: Hash, f: File) {
    hash(f.content) in KnownHashes(entries)
  }

  /** Known: some recorded hash is this file's. */
  lemma KnownMeans(entries: seq<Entry>, hash: Hash, f: File)
    requires hash(f.content) != ""
    ensures IsKnown(entries, hash, f) <==> exists i :: 0 <= i < |entries| && entries[i].sha256 == hash(f.content)
  {
  }

  /** Whether the size pre-filter lets a file be hashed. */
  predicate IsHashed(entries: seq<Entry>, f: File) {
    !SizesComplete(entries) || |f.content| in KnownSizes(entries)
  }

  function Select(files: seq<File>, p: File -> bool): seq<File> {
    if files == [] then []
    else
      var last := files[|files| - 1];
      Select(files[..|files| - 1], p) + if p(last) then [last] else []
  }

  /** A selection keeps exactly what was asked for, in order. */
  lemma {:induction false} SelectMeans(files: seq<File>, p: File -> bool, f: File)
    ensures f in Select(files, p) <==> f in files && p(f)
    ensures (forall g | g in files :: p(g)) ==> Select(files, p) == files
  {
    if files != [] {
      var front, last := files[..|files| - 1], files[|files| - 1];
      assert files == front + [last];
      SelectMeans(front, p, f);
    }
  }

  function FilesOf(items: seq<Item>): (files: seq<File>)
    ensures |files| == |items| && forall i | 0 <= i < |items| :: files[i] == items[i].file
  {
    seq(|items|, i requires 0 <= i < |items| => items[i].file)
  }

  /** The pre-filter passes over no file that hashing would find known. */
  predicate Exact(entries: seq<Entry>, hash: Hash, files: seq<File>) {
    forall f | f in files && IsKnown(entries, hash, f) :: IsHashed(entries, f)
  }

  lemma {:induction false} SelectLess(files: seq<File>, p: File -> bool, q: File -> bool)
    requires forall f | f in files && p(f) :: q(f)
    ensures |Select(files, p)| <= |Select(files, q)|
    ensures Select(files, p) == Select(files, q) <==> forall f | f in files :: p(f) == q(f)
  {
    if files != [] {
      var front, last := files[..|files| - 1], files[|files| - 1];
      assert files == front + [last];
      SelectLess(front, p, q);
      SelectEnds(Select(front, p), Select(front, q), last);
    }
  }

  lemma SelectEnds(a: seq<File>, b: seq<File>, last: File)
    ensures a + [last] == b + [last] <==> a == b
    ensures a == a + [] && b == b + []
  {
    if a + [last] == b + [last] {
      assert a == (a + [last])[..|a|] && b == (b + [last])[..|b|];
    }
  }

  /** What a record truly describes: a file whose hash and size it gives. */
  ghost predicate Describes(e: Entry, original: seq<Byte>, hash: Hash) {
    e.sha256 == hash(original) && (e.size.Some? ==> e.size.value == |original|)
  }

  ghost predicate NoCollision(hash: Hash, contents: set<seq<Byte>>) {
    forall a, b | a in contents && b in contents && hash(a) == hash(b) :: a == b
  }

  /** True recorded sizes and no hash collision among the originals and the files
      make the pre-filter exact. */
  lemma TrueSizesAreExact(entries: seq<Entry>, originals: seq<seq<Byte>>, files: seq<File>, hash: Hash)
    requires |originals| == |entries|
    requires forall i | 0 <= i < |entries| && entries[i].sha256 != "" :: Describes(entries[i], originals[i], hash)
    requires NoCollision(hash, (set o | o in originals) + (set f | f in files :: f.content))
    ensures Exact(entries, hash, files)
  {
  }

  /** Every entry of the previous record, in turn. */
  method RegisterKnown(entries: seq<Entry>)
      returns (knownHashes: set<string>, knownSizes: set<int>, sizesComplete: bool)
    ensures knownHashes == KnownHashes(entries) && knownSizes == KnownSizes(entries)
    ensures sizesComplete == SizesComplete(entries)
  {
    knownHashes, knownSizes, sizesComplete := {}, {}, true;
    for i := 0 to |entries|
      invariant knownHashes == KnownHashes(entries[..i]) && knownSizes == KnownSizes(entries[..i])
      invariant sizesComplete == SizesComplete(entries[..i])
    {
      assert entries[..i + 1] == entries[..i] + [entries[i]];
      var e := entries[i];
      if e.sha256 != "" {
        knownHashes := knownHashes + {e.sha256};
        if e.size.Some? {
          knownSizes := knownSizes + {e.size.value};
        } else {
          sizesComplete := false;
        }
      }
    }
    assert entries[..|entries|] == entries;
  }

  /** `_fallback_classify`. The lists are those of hashing every file exactly when the
      pre-filter passes over no known file; a missing directory has no files. */
  method Classify(entries: seq<Entry>, directory: Option<seq<File>>, hash: Hash)
      returns (known: seq<Item>, unknown: seq<Item>)
    requires forall c :: hash(c) != ""
    ensures directory.None? ==> known == [] && unknown == []
    ensures directory.Some? ==>
      && (FilesOf(known) == Select(directory.value, f => IsKnown(entries, hash, f))
          <==> Exact(entries, hash, directory.value))
      && (FilesOf(unknown) == Select(directory.value, f => !IsKnown(entries, hash, f))
          <==> Exact(entries, hash, directory.value))
    ensures directory.Some? && Exact(entries, hash, directory.value) ==> forall f | f in directory.value ::
      && (f in FilesOf(known) <==> exists i :: 0 <= i < |entries| && entries[i].sha256 == hash(f.content))
      && (f in FilesOf(unknown) <==> forall i | 0 <= i < |entries| :: entries[i].sha256 != hash(f.content))
    ensures forall i | 0 <= i < |known| :: known[i].sha256 == hash(known[i].file.content)
    ensures forall i | 0 <= i < |unknown| :: unknown[i].sha256 in {"", hash(unknown[i].file.content)}
  {
    hide KnownHashes, KnownSizes, SizesComplete;
    var knownHashes, knownSizes, sizesComplete := RegisterKnown(entries);
    known, unknown := [], [];
    if directory.None? { return; }
    var files := directory.value;
    ghost var found := (f: File) => IsHashed(entries, f) && IsKnown(entries, hash, f);
    ghost var missed := (f: File) => !(IsHashed(entries, f) && IsKnown(entries, hash, f));
    for i := 0 to |files|
      invariant FilesOf(known) == Select(files[..i], found)
      invariant FilesOf(unknown) == Select(files[..i], missed)
      invariant forall k | 0 <= k < |known| :: known[k].sha256 == hash(known[k].file.content)
      invariant forall k | 0 <= k < |unknown| :: unknown[k].sha256 in {"", hash(unknown[k].file.content)}
    {
      assert files[..i + 1][..i] == files[..i];
      var f := files[i];
      var fileHash := "";
      if !sizesComplete || |f.content| in knownSizes { fileHash := hash(f.content); }
      if fileHash != "" && fileHash in knownHashes {
        assert FilesOf(known + [Item(f, fileHash)]) == FilesOf(known) + [f];
        known := known + [Item(f, fileHash)];
      } else {
        assert FilesOf(unknown + [Item(f, fileHash)]) == FilesOf(unknown) + [f];
        unknown := unknown + [Item(f, fileHash)];
      }
    }
    assert files[..|files|] == files;
    SelectLess(files, found, f => IsKnown(entries, hash, f));
    SelectLess(files, f => !IsKnown(entries, hash, f), missed);
    forall f | f in files && Exact(entries, hash, files)
      ensures f in FilesOf(known) <==> exists i :: 0 <= i < |entries| && entries[i].sha256 == hash(f.content)
      ensures f in FilesOf(unknown) <==> forall i | 0 <= i < |entries| :: entries[i].sha256 != hash(f.content)
    {
      SelectMeans(files, f => IsKnown(entries, hash, f), f);
      SelectMeans(files, f => !IsKnown(entries, hash, f), f);
      KnownMeans(entries, hash, f);
    }
  }
}
