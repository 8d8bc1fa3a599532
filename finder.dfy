/**
 * modules/finder.py: enumerating the files of a tree and bucketing them by
 * size. The traversal itself (os.walk, Path.rglob) is given as a sequence.
 */
module Finder {

  import opened FileSystem
  import StableSort

  /** One (root, dirs, files) triple produced by os.walk; dirs is not used. */
  datatype WalkStep = WalkStep(root: Path, files: seq<string>)

  /** What Path.is_file() says of an entry that rglob('*') yields. */
  datatype EntryKind = RegularFile | Directory | OtherEntry

  /** One path yielded by rglob('*'), in traversal order. */
  datatype Entry = Entry(path: Path, kind: EntryKind)

  /**
   * The defaultdict(list) built by group_files_by_size: the buckets by size,
   * and the order in which the sizes were first inserted, which is the order
   * in which Python iterates over the dictionary.
   */
  datatype SizeIndex = SizeIndex(order: seq<nat>, buckets: map<nat, seq<Path>>)

  // ---------------------------------------------------------------------
  // get_all_files

  function JoinAll(root: Path, names: seq<string>): (paths: seq<Path>)
  {
    seq(|names|, i requires 0 <= i < |names| => Join(root, names[i]))
  }

  /** The joined path of every file entry of the walk, in walk order: one path per entry. */
  function WalkPaths(walk: seq<WalkStep>): (paths: seq<Path>)
    ensures |paths| == FileCount(walk)
  {
    if walk == [] then []
    else
      var last := walk[|walk| - 1];
      WalkPaths(walk[..|walk| - 1]) + JoinAll(last.root, last.files)
  }

  /** The number of file entries of the walk. */
  function FileCount(walk: seq<WalkStep>): nat
  {
    if walk == [] then 0 else FileCount(walk[..|walk| - 1]) + |walk[|walk| - 1].files|
  }

  /**
   * get_all_files lists exactly one path per file entry of the walk, in walk
   * order: the j-th file of the i-th directory visited is at position
   * (files in the directories before it) + j.
   */
  lemma {:induction false} WalkPathsAt(walk: seq<WalkStep>, i: nat, j: nat)
    requires i < |walk| && j < |walk[i].files|
    ensures |WalkPaths(walk)| == FileCount(walk)
    ensures FileCount(walk[..i]) + j < |WalkPaths(walk)|
    ensures WalkPaths(walk)[FileCount(walk[..i]) + j] == Join(walk[i].root, walk[i].files[j])
  {
    var init := walk[..|walk| - 1];
    if i == |walk| - 1 {
      assert walk[..i] == init;
    } else {
      WalkPathsAt(init, i, j);
      assert init[..i] == walk[..i];
    }
  }

  method GetAllFiles(walk: seq<WalkStep>) returns (allFiles: seq<Path>)
    ensures allFiles == WalkPaths(walk)
  {
    allFiles := [];
    for i := 0 to |walk|
      invariant allFiles == WalkPaths(walk[..i])
    {
      var step := walk[i];
      for j := 0 to |step.files|
        invariant allFiles == WalkPaths(walk[..i]) + JoinAll(step.root, step.files[..j])
      {
        allFiles := allFiles + [Join(step.root, step.files[j])];
      }
      assert walk[..i + 1][..i] == walk[..i];
      assert step.files[..|step.files|] == step.files;
    }
    assert walk[..|walk|] == walk;
  }

  // ---------------------------------------------------------------------
  // get_files_with_size

  function SizeKey(entry: (Path, nat)): int
  {
    entry.1
  }

  /** Each path paired with the size stat reports for it. */
  function WithSizes(fs: Fs, paths: seq<Path>): (pairs: seq<(Path, nat)>)
    requires forall p :: p in paths ==> p in fs
    ensures |pairs| == |paths|
    ensures forall i :: 0 <= i < |pairs| ==> pairs[i].0 == paths[i] && pairs[i].0 in fs && pairs[i].1 == Size(fs[pairs[i].0])
  {
    seq(|paths|, i requires 0 <= i < |paths| => (paths[i], Size(fs[paths[i]])))
  }

  /** One more path adds its pair at the end. */
  lemma WithSizesSnoc(fs: Fs, paths: seq<Path>, p: Path, paths1: seq<Path>)
    requires forall q :: q in paths ==> q in fs
    requires p in fs && paths1 == paths + [p]
    ensures forall q :: q in paths1 ==> q in fs
    ensures WithSizes(fs, paths1) == WithSizes(fs, paths) + [(p, Size(fs[p]))]
  {
    assert WithSizes(fs, paths1)[..|paths|] == WithSizes(fs, paths);
  }

  /**
   * The (path, size) pairs of the walk, sorted by size with list.sort, which
   * is stable. os.path.getsize is unguarded here, so every path must exist.
   */
  method GetFilesWithSize(walk: seq<WalkStep>, fs: Fs) returns (filesWithSize: seq<(Path, nat)>)
    requires forall p :: p in WalkPaths(walk) ==> p in fs
    ensures multiset(filesWithSize) == multiset(WithSizes(fs, WalkPaths(walk)))
    ensures StableSort.SortedBy(filesWithSize, SizeKey)
    ensures StableSort.SameKeyOrder(filesWithSize, WithSizes(fs, WalkPaths(walk)), SizeKey)
  {
    filesWithSize := [];
    for i := 0 to |walk|
      invariant forall p :: p in WalkPaths(walk[..i]) ==> p in fs
      invariant filesWithSize == WithSizes(fs, WalkPaths(walk[..i]))
    {
      var step := walk[i];
      for j := 0 to |step.files|
        invariant forall p :: p in WalkPaths(walk[..i]) + JoinAll(step.root, step.files[..j]) ==> p in fs
        invariant filesWithSize == WithSizes(fs, WalkPaths(walk[..i]) + JoinAll(step.root, step.files[..j]))
      {
        var fullPath := Join(step.root, step.files[j]);
        WalkPathsAt(walk, i, j);
        var fileSize := Size(fs[fullPath]);
        ghost var before := WalkPaths(walk[..i]) + JoinAll(step.root, step.files[..j]);
        assert JoinAll(step.root, step.files[..j + 1]) == JoinAll(step.root, step.files[..j]) + [fullPath];
        WithSizesSnoc(fs, before, fullPath, WalkPaths(walk[..i]) + JoinAll(step.root, step.files[..j + 1]));
        filesWithSize := filesWithSize + [(fullPath, fileSize)];
      }
      assert walk[..i + 1][..i] == walk[..i];
      assert step.files[..|step.files|] == step.files;
    }
    assert walk[..|walk|] == walk;
    ghost var unsorted := filesWithSize;
    filesWithSize := StableSort.Sort(filesWithSize, SizeKey);
    StableSort.SortSorted(unsorted, SizeKey);
    StableSort.SortStable(unsorted, SizeKey);
  }

  // ---------------------------------------------------------------------
  // group_files_by_size

  /**
   * Records one entry: a regular file whose stat succeeds is appended to the
   * bucket of its size, whose key becomes the last one when it is new.
   */
  function AddEntry(index: SizeIndex, entry: Entry, fs: Fs): (r: SizeIndex)
    ensures r.buckets.Keys ==
              index.buckets.Keys + (if entry.kind == RegularFile && entry.path in fs then {Size(fs[entry.path])} else {})
    ensures entry.kind == RegularFile && entry.path in fs ==>
              Size(fs[entry.path]) in r.buckets && r.buckets[Size(fs[entry.path])] != []
              && r.buckets[Size(fs[entry.path])][|r.buckets[Size(fs[entry.path])]| - 1] == entry.path
    ensures index.order <= r.order && |r.order| <= |index.order| + 1
  {
    if entry.kind == RegularFile && entry.path in fs then
      var k := Size(fs[entry.path]);
      if k in index.buckets then index.(buckets := index.buckets[k := index.buckets[k] + [entry.path]])
      else SizeIndex(index.order + [k], index.buckets[k := [entry.path]])
    else index
  }

  /**
   * The dictionary group_files_by_size builds from the traversal: it has no
   * empty bucket, and at most one key per entry.
   */
  function SizeGroups(entries: seq<Entry>, fs: Fs): (g: SizeIndex)
    ensures forall k :: k in g.buckets ==> g.buckets[k] != []
    ensures |g.order| <= |entries|
  {
    if entries == [] then SizeIndex([], map[])
    else AddEntry(SizeGroups(entries[..|entries| - 1], fs), entries[|entries| - 1], fs)
  }

  method GroupFilesBySize(entries: seq<Entry>, fs: Fs) returns (filesBySize: SizeIndex)
    ensures filesBySize == SizeGroups(entries, fs)
  {
    var order: seq<nat> := [];
    var buckets: map<nat, seq<Path>> := map[];
    for i := 0 to |entries|
      invariant SizeIndex(order, buckets) == SizeGroups(entries[..i], fs)
    {
      var filePath := entries[i];
      ghost var before := SizeIndex(order, buckets);
      assert entries[..i + 1][..i] == entries[..i];
      if filePath.kind == RegularFile {
        if filePath.path in fs {
          var fileSize := Size(fs[filePath.path]);
          if fileSize !in buckets {
            order := order + [fileSize];
            buckets := buckets[fileSize := []];
          }
          ghost var current := if fileSize in before.buckets then before.buckets[fileSize] else [];
          assert buckets == before.buckets[fileSize := current];
          buckets := buckets[fileSize := buckets[fileSize] + [filePath.path]];
          assert current + [filePath.path] == if fileSize in before.buckets then before.buckets[fileSize] + [filePath.path] else [filePath.path];
        }
        // otherwise stat raised OSError: the file is reported and skipped
      }
    }
    assert entries[..|entries|] == entries;
    filesBySize := SizeIndex(order, buckets);
  }

  // ---------------------------------------------------------------------
  // Reference definitions for the grouping

  /** The traversed regular files whose stat succeeds with size k, in traversal order. */
  function Selected(entries: seq<Entry>, fs: Fs, k: nat): (files: seq<Path>)
    ensures forall p :: p in files ==> p in fs && Size(fs[p]) == k
  {
    if entries == [] then []
    else
      var e := entries[|entries| - 1];
      Selected(entries[..|entries| - 1], fs, k)
        + (if e.kind == RegularFile && e.path in fs && Size(fs[e.path]) == k then [e.path] else [])
  }

  /** The sizes of the traversed regular files whose stat succeeds, in traversal order. */
  function StatSizes(entries: seq<Entry>, fs: Fs): seq<nat>
  {
    if entries == [] then []
    else
      var e := entries[|entries| - 1];
      StatSizes(entries[..|entries| - 1], fs)
        + (if e.kind == RegularFile && e.path in fs then [Size(fs[e.path])] else [])
  }

  /** s with every repeated element removed, each kept at its first position. */
  function FirstOccurrences(s: seq<nat>): seq<nat>
  {
    if s == [] then []
    else
      var init := FirstOccurrences(s[..|s| - 1]);
      if s[|s| - 1] in s[..|s| - 1] then init else init + [s[|s| - 1]]
  }

  predicate Distinct<T(==)>(s: seq<T>)
  {
    forall i, j :: 0 <= i < j < |s| ==> s[i] != s[j]
  }

  predicate DistinctPaths(entries: seq<Entry>)
  {
    forall i, j :: 0 <= i < j < |entries| ==> entries[i].path != entries[j].path
  }

  lemma {:induction false} FirstOccurrencesSpec(s: seq<nat>)
    ensures forall x :: x in FirstOccurrences(s) <==> x in s
    ensures Distinct(FirstOccurrences(s))
  {
    if s != [] {
      FirstOccurrencesSpec(s[..|s| - 1]);
      assert s == s[..|s| - 1] + [s[|s| - 1]];
    }
  }

  lemma {:induction false} SelectedMember(entries: seq<Entry>, fs: Fs, k: nat, p: Path)
    ensures p in Selected(entries, fs, k) <==> Entry(p, RegularFile) in entries && p in fs && Size(fs[p]) == k
  {
    if entries != [] {
      var init := entries[..|entries| - 1];
      SelectedMember(init, fs, k, p);
      assert entries == init + [entries[|entries| - 1]];
    }
  }

  lemma {:induction false} StatSizesMember(entries: seq<Entry>, fs: Fs, k: nat)
    ensures k in StatSizes(entries, fs) <==> Selected(entries, fs, k) != []
  {
    if entries != [] {
      StatSizesMember(entries[..|entries| - 1], fs, k);
    }
  }

  /**
   * The dictionary holds a bucket for size k exactly when some traversed
   * regular file with a successful stat has size k (so no bucket is empty,
   * and buckets of one file are kept); the bucket lists exactly those files,
   * in traversal order; and the sizes are iterated in order of first
   * appearance in the traversal.
   */
  lemma {:induction false} SizeGroupsSpec(entries: seq<Entry>, fs: Fs, g: SizeIndex)
    requires g == SizeGroups(entries, fs)
    ensures forall k :: k in g.buckets <==> Selected(entries, fs, k) != []
    ensures forall k :: k in g.buckets ==> g.buckets[k] == Selected(entries, fs, k)
    ensures g.order == FirstOccurrences(StatSizes(entries, fs))
  {
    if entries != [] {
      var init := entries[..|entries| - 1];
      var e := entries[|entries| - 1];
      var gi := SizeGroups(init, fs);
      SizeGroupsSpec(init, fs, gi);
      assert g == AddEntry(gi, e, fs);
      if e.kind == RegularFile && e.path in fs {
        var k := Size(fs[e.path]);
        StatSizesMember(init, fs, k);
        AddFileSpec(entries, fs, init, e, k, gi, g);
      } else {
        assert StatSizes(entries, fs) == StatSizes(init, fs) + [];
        assert StatSizes(entries, fs) == StatSizes(init, fs);
        forall k ensures Selected(entries, fs, k) == Selected(init, fs, k) {
          assert Selected(entries, fs, k) == Selected(init, fs, k) + [];
        }
      }
    }
  }

  lemma SelectedSnoc(entries: seq<Entry>, fs: Fs, init: seq<Entry>, e: Entry, k: nat)
    requires entries != [] && init == entries[..|entries| - 1] && e == entries[|entries| - 1]
    ensures Selected(entries, fs, k) ==
              Selected(init, fs, k) + (if e.kind == RegularFile && e.path in fs && Size(fs[e.path]) == k then [e.path] else [])
  {
  }

  /** The step of SizeGroupsSpec for a regular file whose stat succeeds. */
  lemma AddFileSpec(entries: seq<Entry>, fs: Fs, init: seq<Entry>, e: Entry, k: nat, gi: SizeIndex, g: SizeIndex)
    requires entries != [] && init == entries[..|entries| - 1] && e == entries[|entries| - 1]
    requires e.kind == RegularFile && e.path in fs && k == Size(fs[e.path])
    requires k in StatSizes(init, fs) <==> Selected(init, fs, k) != []
    requires forall k' :: k' in gi.buckets <==> Selected(init, fs, k') != []
    requires forall k' :: k' in gi.buckets ==> gi.buckets[k'] == Selected(init, fs, k')
    requires gi.order == FirstOccurrences(StatSizes(init, fs))
    requires g == AddEntry(gi, e, fs)
    ensures forall k' :: k' in g.buckets <==> Selected(entries, fs, k') != []
    ensures forall k' :: k' in g.buckets ==> g.buckets[k'] == Selected(entries, fs, k')
    ensures g.order == FirstOccurrences(StatSizes(entries, fs))
  {
    var sizes := StatSizes(entries, fs);
    var si := StatSizes(init, fs);
    assert sizes == si + [k];
    assert sizes[..|sizes| - 1] == si && sizes[|sizes| - 1] == k;
    assert FirstOccurrences(sizes) == if k in si then FirstOccurrences(si) else FirstOccurrences(si) + [k];
    if k in gi.buckets {
      assert g == gi.(buckets := gi.buckets[k := gi.buckets[k] + [e.path]]);
      assert k in si;
      assert g.order == gi.order == FirstOccurrences(sizes);
    } else {
      assert g == SizeIndex(gi.order + [k], gi.buckets[k := [e.path]]);
    }
    forall k'
      ensures k' in g.buckets <==> Selected(entries, fs, k') != []
      ensures k' in g.buckets ==> g.buckets[k'] == Selected(entries, fs, k')
    {
      SelectedSnoc(entries, fs, init, e, k');
      if k' == k {
        assert k' in g.buckets && g.buckets[k'] == Selected(init, fs, k) + [e.path];
      } else {
        assert k' in g.buckets <==> k' in gi.buckets;
        assert k' in g.buckets ==> g.buckets[k'] == gi.buckets[k'];
      }
    }
  }

  /** The iteration order lists every bucket once. */
  lemma SizeGroupsOrder(entries: seq<Entry>, fs: Fs, g: SizeIndex)
    requires g == SizeGroups(entries, fs)
    ensures Distinct(g.order)
    ensures forall k :: k in g.order <==> k in g.buckets
  {
    SizeGroupsSpec(entries, fs, g);
    FirstOccurrencesSpec(StatSizes(entries, fs));
    forall k ensures k in StatSizes(entries, fs) <==> Selected(entries, fs, k) != [] {
      StatSizesMember(entries, fs, k);
    }
  }

  /**
   * Every path in bucket k is a traversed regular file whose stat reported
   * size k; conversely every traversed regular file whose stat succeeds is in
   * the bucket of its size. Directories, other entries and files whose stat
   * fails are in no bucket.
   */
  lemma BucketMembers(entries: seq<Entry>, fs: Fs, k: nat, p: Path)
    ensures var g := SizeGroups(entries, fs);
            (k in g.buckets && p in g.buckets[k]) <==> (Entry(p, RegularFile) in entries && p in fs && Size(fs[p]) == k)
  {
    SizeGroupsSpec(entries, fs, SizeGroups(entries, fs));
    SelectedMember(entries, fs, k, p);
  }

  lemma {:induction false} SelectedDistinct(entries: seq<Entry>, fs: Fs, k: nat)
    requires DistinctPaths(entries)
    ensures Distinct(Selected(entries, fs, k))
  {
    if entries != [] {
      var init := entries[..|entries| - 1];
      var e := entries[|entries| - 1];
      SelectedDistinct(init, fs, k);
      if e.path in Selected(init, fs, k) {
        SelectedMember(init, fs, k, e.path);
        assert false;
      }
    }
  }

  /** When the traversal yields each path once, no bucket holds a path twice. */
  lemma BucketsDistinct(entries: seq<Entry>, fs: Fs)
    requires DistinctPaths(entries)
    ensures var g := SizeGroups(entries, fs);
            forall k :: k in g.buckets ==> Distinct(g.buckets[k])
  {
    SizeGroupsSpec(entries, fs, SizeGroups(entries, fs));
    forall k ensures Distinct(Selected(entries, fs, k)) {
      SelectedDistinct(entries, fs, k);
    }
  }
}
