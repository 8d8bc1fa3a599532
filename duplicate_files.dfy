/**
 * modules/duplicate_files.py: finding duplicate sets in one tree, matching a
 * source tree against a target tree, and deleting all but the first file of
 * each set.
 */
module DuplicateFiles {

  import opened FileSystem
  import StableSort
  import Utils
  import Finder

  // =====================================================================
  // duplicate_files_in_directory

  /**
   * The files of rest that filecmp.cmp reports equal to keep, in their
   * order in rest. A file whose comparison raises is left out and the
   * remaining files are still compared.
   */
  function KeepMatches(fs: Fs, keep: Path, rest: seq<Path>): (matches: seq<Path>)
    ensures forall p :: p in matches <==> p in rest && ContentEqual(fs, keep, p) == Some(true)
    ensures |matches| <= |rest|
  {
    if rest == [] then []
    else
      var last := rest[|rest| - 1];
      assert rest == rest[..|rest| - 1] + [last];
      KeepMatches(fs, keep, rest[..|rest| - 1]) + (if ContentEqual(fs, keep, last) == Some(true) then [last] else [])
  }

  /**
   * The keep file of a bucket: the earliest-created file, and among files
   * created at that same time the first in the bucket's order.
   */
  function KeepFile(fs: Fs, files: seq<Path>): (keep: Path)
    requires Utils.AllPresent(fs, files) && |files| > 0
    ensures keep in files
    ensures forall p :: p in files ==> fs[keep].ctime <= fs[p].ctime
    ensures keep == files[StableSort.FirstMinIndex(files, Utils.CtimeKey(fs))]
  {
    Utils.SortedHeadIsEarliest(fs, files);
    Utils.SortFilesByCreationTime(fs, files)[0]
  }

  /**
   * The duplicate set one bucket yields: the keep file followed by every
   * other file that compares equal to it, in creation-time order, provided
   * that makes at least two files.
   */
  function BucketDuplicates(fs: Fs, files: seq<Path>): (found: Option<seq<Path>>)
    requires Utils.AllPresent(fs, files)
    ensures found.Some? ==> 2 <= |found.value| <= |files|
  {
    if |files| <= 1 then None
    else
      var sortedFiles := Utils.SortFilesByCreationTime(fs, files);
      var tempList := [sortedFiles[0]] + KeepMatches(fs, sortedFiles[0], sortedFiles[1..]);
      if |tempList| >= 2 then Some(tempList) else None
  }

  ghost predicate IndexInFs(fs: Fs, index: Finder.SizeIndex)
  {
    forall k, p :: k in index.buckets && p in index.buckets[k] ==> p in fs
  }

  ghost predicate IndexSized(fs: Fs, index: Finder.SizeIndex)
    requires IndexInFs(fs, index)
  {
    forall k, p :: k in index.buckets && p in index.buckets[k] ==> Size(fs[p]) == k
  }

  /** The sets emitted for the buckets of sizes ks, visited in that order. */
  function DuplicateSets(fs: Fs, index: Finder.SizeIndex, ks: seq<nat>): seq<seq<Path>>
    requires IndexInFs(fs, index)
    requires forall k :: k in ks ==> k in index.buckets
  {
    if ks == [] then []
    else
      var k := ks[|ks| - 1];
      DuplicateSets(fs, index, ks[..|ks| - 1])
        + match BucketDuplicates(fs, index.buckets[k]) case Some(s) => [s] case None => []
  }

  /** What group_files_by_size produces is consistent with the filesystem it was built from. */
  lemma SizeGroupsWellFormed(entries: seq<Finder.Entry>, fs: Fs, g: Finder.SizeIndex)
    requires g == Finder.SizeGroups(entries, fs)
    ensures IndexInFs(fs, g) && IndexSized(fs, g)
    ensures Finder.Distinct(g.order)
    ensures forall k :: k in g.order <==> k in g.buckets
  {
    Finder.SizeGroupsOrder(entries, fs, g);
    forall k, p | k in g.buckets && p in g.buckets[k] ensures p in fs && Size(fs[p]) == k {
      Finder.BucketMembers(entries, fs, k, p);
    }
  }

  /** The part of SizeGroupsWellFormed the resolver's loop relies on. */
  lemma SizeGroupsInFs(entries: seq<Finder.Entry>, fs: Fs, g: Finder.SizeIndex)
    requires g == Finder.SizeGroups(entries, fs)
    ensures IndexInFs(fs, g)
    ensures forall k :: k in g.order ==> k in g.buckets
  {
    SizeGroupsWellFormed(entries, fs, g);
  }

  /** The duplicate sets of a tree: those of its size buckets, in dictionary order. */
  function FindDuplicates(entries: seq<Finder.Entry>, fs: Fs): (sets: seq<seq<Path>>)
    ensures forall i :: 0 <= i < |sets| ==> |sets[i]| >= 2
  {
    var g := Finder.SizeGroups(entries, fs);
    SizeGroupsWellFormed(entries, fs, g);
    DuplicateSetsSpec(fs, g, g.order, DuplicateSets(fs, g, g.order));
    DuplicateSets(fs, g, g.order)
  }

  /**
   * duplicate_files_in_directory: groups the tree by size, then visits the
   * buckets in dictionary order; a bucket of more than one file is sorted by
   * creation time, its oldest file is kept, and every other file is compared
   * with that keep file only. A set of at least two files is emitted.
   */
  method DuplicateFilesInDirectory(entries: seq<Finder.Entry>, fs: Fs) returns (duplicateFilesList: seq<seq<Path>>)
    ensures duplicateFilesList == FindDuplicates(entries, fs)
  {
    var filesBySize := Finder.GroupFilesBySize(entries, fs);
    SizeGroupsInFs(entries, fs, filesBySize);
    duplicateFilesList := [];
    for n := 0 to |filesBySize.order|
      invariant duplicateFilesList == DuplicateSets(fs, filesBySize, filesBySize.order[..n])
    {
      var fileSize := filesBySize.order[n];
      var files := filesBySize.buckets[fileSize];
      ghost var bucket := files;
      ghost var found: Option<seq<Path>> := None;
      if |files| > 1 {
        files := Utils.SortFilesByCreationTime(fs, files);
        var keepFile := files[0];
        var remainFiles := files[1..];
        var tempList := CollectMatches(fs, keepFile, remainFiles);
        BucketDuplicatesUnfold(fs, bucket, files, tempList);
        if |tempList| >= 2 {
          duplicateFilesList := duplicateFilesList + [tempList];
          found := Some(tempList);
        }
      }
      DuplicateSetsStep(fs, filesBySize, n, found);
    }
    assert filesBySize.order[..|filesBySize.order|] == filesBySize.order;
    FindDuplicatesIs(entries, fs, filesBySize);
  }

  lemma FindDuplicatesIs(entries: seq<Finder.Entry>, fs: Fs, g: Finder.SizeIndex)
    requires g == Finder.SizeGroups(entries, fs)
    requires IndexInFs(fs, g) && forall k :: k in g.order ==> k in g.buckets
    ensures FindDuplicates(entries, fs) == DuplicateSets(fs, g, g.order)
  {
  }

  /**
   * The inner loop of duplicate_files_in_directory: starting from the keep
   * file, every remaining file is compared with the keep file and appended
   * when filecmp.cmp reports it equal; a comparison that raises is reported
   * and the file skipped.
   */
  method CollectMatches(fs: Fs, keepFile: Path, remainFiles: seq<Path>) returns (tempList: seq<Path>)
    ensures tempList == [keepFile] + KeepMatches(fs, keepFile, remainFiles)
  {
    tempList := [keepFile];
    for i := 0 to |remainFiles|
      invariant tempList == [keepFile] + KeepMatches(fs, keepFile, remainFiles[..i])
    {
      var file := remainFiles[i];
      assert remainFiles[..i + 1][..i] == remainFiles[..i];
      var same := ContentEqual(fs, keepFile, file);
      if same == Some(true) {
        tempList := tempList + [file];
      }
      // same == None: the comparison raised; it is reported and the file is skipped
    }
    assert remainFiles[..|remainFiles|] == remainFiles;
  }

  lemma BucketDuplicatesUnfold(fs: Fs, files: seq<Path>, sortedFiles: seq<Path>, tempList: seq<Path>)
    requires Utils.AllPresent(fs, files) && |files| > 1
    requires sortedFiles == Utils.SortFilesByCreationTime(fs, files)
    requires tempList == [sortedFiles[0]] + KeepMatches(fs, sortedFiles[0], sortedFiles[1..])
    ensures BucketDuplicates(fs, files) == if |tempList| >= 2 then Some(tempList) else None
  {
  }

  /** Visiting the bucket at position n of the order appends what it yields. */
  lemma DuplicateSetsStep(fs: Fs, index: Finder.SizeIndex, n: nat, found: Option<seq<Path>>)
    requires IndexInFs(fs, index) && forall k :: k in index.order ==> k in index.buckets
    requires n < |index.order|
    requires found == BucketDuplicates(fs, index.buckets[index.order[n]])
    ensures DuplicateSets(fs, index, index.order[..n + 1]) ==
              DuplicateSets(fs, index, index.order[..n]) + match found case Some(s) => [s] case None => []
  {
    var ks, k, ks1 := index.order[..n], index.order[n], index.order[..n + 1];
    assert ks1 == ks + [k];
    forall k' | k' in ks ensures k' in index.buckets {
      var i :| 0 <= i < |ks| && ks[i] == k';
      assert k' == index.order[i];
    }
    DuplicateSetsSnoc(fs, index, ks, k, ks1);
    if found.Some? {
      assert DuplicateSets(fs, index, ks1) == DuplicateSets(fs, index, ks) + [found.value];
    } else {
      assert DuplicateSets(fs, index, ks1) == DuplicateSets(fs, index, ks);
    }
  }

  lemma SplitLast<T>(s: seq<T>, init: seq<T>, last: T)
    requires s != [] && init == s[..|s| - 1] && last == s[|s| - 1]
    ensures s == init + [last]
    ensures forall x :: x in s <==> x in init || x == last
  {
  }

  /** Visiting one more bucket appends what that bucket yields. */
  lemma DuplicateSetsSnoc(fs: Fs, index: Finder.SizeIndex, ks: seq<nat>, k: nat, ks1: seq<nat>)
    requires IndexInFs(fs, index)
    requires forall k' :: k' in ks ==> k' in index.buckets
    requires k in index.buckets && ks1 == ks + [k]
    ensures BucketDuplicates(fs, index.buckets[k]).None? ==> DuplicateSets(fs, index, ks1) == DuplicateSets(fs, index, ks)
    ensures BucketDuplicates(fs, index.buckets[k]).Some? ==>
              DuplicateSets(fs, index, ks1) == DuplicateSets(fs, index, ks) + [BucketDuplicates(fs, index.buckets[k]).value]
  {
    assert ks1[..|ks|] == ks;
  }

  // ---------------------------------------------------------------------
  // Properties of the single-tree resolver

  lemma {:induction false} KeepMatchesSorted(fs: Fs, keep: Path, rest: seq<Path>, m: seq<Path>)
    requires StableSort.SortedBy(rest, Utils.CtimeKey(fs))
    requires m == KeepMatches(fs, keep, rest)
    ensures StableSort.SortedBy(m, Utils.CtimeKey(fs))
  {
    if rest != [] {
      var key := Utils.CtimeKey(fs);
      var init := rest[..|rest| - 1];
      var last := rest[|rest| - 1];
      var m0 := KeepMatches(fs, keep, init);
      assert StableSort.SortedBy(init, key) by {
        forall i, j | 0 <= i < j < |init| ensures key(init[i]) <= key(init[j]) {
          assert init[i] == rest[i] && init[j] == rest[j];
        }
      }
      KeepMatchesSorted(fs, keep, init, m0);
      forall p | p in m0 ensures key(p) <= key(last) {
        var i :| 0 <= i < |init| && init[i] == p;
        assert rest[i] == p;
      }
      if ContentEqual(fs, keep, last) == Some(true) {
        assert m == m0 + [last];
        forall i, j | 0 <= i < j < |m| ensures key(m[i]) <= key(m[j]) {
          if j == |m| - 1 {
            assert m[i] == m0[i] && m[j] == last;
            assert m0[i] in m0;
          } else {
            assert m[i] == m0[i] && m[j] == m0[j];
          }
        }
      } else {
        assert m == m0;
      }
    }
  }

  /** A bucket of two or more files yields the keep file and its matches, when there are any. */
  lemma BucketDuplicatesShape(fs: Fs, files: seq<Path>, sortedFiles: seq<Path>, m: seq<Path>)
    requires Utils.AllPresent(fs, files) && |files| > 1
    requires sortedFiles == Utils.SortFilesByCreationTime(fs, files)
    requires m == KeepMatches(fs, sortedFiles[0], sortedFiles[1..])
    ensures sortedFiles[0] == KeepFile(fs, files)
    ensures BucketDuplicates(fs, files) == if m == [] then None else Some([sortedFiles[0]] + m)
  {
  }

  /**
   * What a bucket yields. An emitted set has at least two files, all from
   * the bucket; it starts with the keep file; every later member compares
   * byte-equal to the keep file; and a file that does not compare equal to
   * the keep file is in no set, even if it equals another file of the bucket.
   */
  lemma BucketDuplicatesSound(fs: Fs, files: seq<Path>, s: seq<Path>)
    requires Utils.AllPresent(fs, files)
    requires BucketDuplicates(fs, files) == Some(s)
    ensures |s| >= 2 && |files| >= 2
    ensures s[0] == KeepFile(fs, files)
    ensures forall p :: p in s ==> p in files
    ensures forall j :: 1 <= j < |s| ==> ContentEqual(fs, s[0], s[j]) == Some(true)
    ensures forall p :: p in files && p != s[0] && ContentEqual(fs, s[0], p) != Some(true) ==> p !in s
  {
    var sortedFiles := Utils.SortFilesByCreationTime(fs, files);
    var m := KeepMatches(fs, sortedFiles[0], sortedFiles[1..]);
    BucketDuplicatesShape(fs, files, sortedFiles, m);
    Utils.SortFilesByCreationTimeMembers(fs, files, sortedFiles);
    KeepSetSound(fs, files, sortedFiles, m, s);
  }

  /** The keep file followed by its matches among the rest of a rearranged bucket. */
  lemma KeepSetSound(fs: Fs, files: seq<Path>, sortedFiles: seq<Path>, m: seq<Path>, s: seq<Path>)
    requires |sortedFiles| > 0 && forall p :: p in sortedFiles <==> p in files
    requires m == KeepMatches(fs, sortedFiles[0], sortedFiles[1..])
    requires s == [sortedFiles[0]] + m
    ensures forall p :: p in s ==> p in files
    ensures forall j :: 1 <= j < |s| ==> ContentEqual(fs, s[0], s[j]) == Some(true)
    ensures forall p :: p in files && p != s[0] && ContentEqual(fs, s[0], p) != Some(true) ==> p !in s
  {
    forall j | 1 <= j < |s| ensures ContentEqual(fs, s[0], s[j]) == Some(true) {
      assert s[j] == m[j - 1];
    }
    forall p | p in s ensures p in files {
      if p != s[0] {
        assert p in m;
        var i :| 0 <= i < |sortedFiles| - 1 && sortedFiles[1..][i] == p;
        assert sortedFiles[i + 1] == p;
      }
    }
  }

  /** The head of a sorted list followed by files drawn from its tail is still sorted. */
  lemma SortedHeadFirst(fs: Fs, sortedFiles: seq<Path>, m: seq<Path>)
    requires |sortedFiles| > 0 && StableSort.SortedBy(sortedFiles, Utils.CtimeKey(fs))
    requires StableSort.SortedBy(m, Utils.CtimeKey(fs))
    requires forall p :: p in m ==> p in sortedFiles[1..]
    ensures StableSort.SortedBy([sortedFiles[0]] + m, Utils.CtimeKey(fs))
  {
    var key := Utils.CtimeKey(fs);
    forall p | p in m ensures key(sortedFiles[0]) <= key(p) {
      var i :| 0 <= i < |sortedFiles| - 1 && sortedFiles[1..][i] == p;
      assert sortedFiles[i + 1] == p;
    }
    StableSort.SortedCons(sortedFiles[0], m, key);
  }

  /** The members of an emitted set are in creation-time order. */
  lemma BucketDuplicatesOrdered(fs: Fs, files: seq<Path>, s: seq<Path>)
    requires Utils.AllPresent(fs, files)
    requires BucketDuplicates(fs, files) == Some(s)
    ensures Utils.AllPresent(fs, s)
    ensures StableSort.SortedBy(s, Utils.CtimeKey(fs))
  {
    BucketDuplicatesSound(fs, files, s);
    var sortedFiles := Utils.SortFilesByCreationTime(fs, files);
    Utils.SortFilesByCreationTimeOrdered(fs, files, sortedFiles);
    var rest := sortedFiles[1..];
    var m := KeepMatches(fs, sortedFiles[0], rest);
    BucketDuplicatesShape(fs, files, sortedFiles, m);
    StableSort.SortedTail(sortedFiles, Utils.CtimeKey(fs));
    KeepMatchesSorted(fs, sortedFiles[0], rest, m);
    SortedHeadFirst(fs, sortedFiles, m);
  }

  /**
   * Every file of the bucket other than the keep file that compares equal to
   * the keep file is in the emitted set; in particular a set is emitted
   * whenever one such file exists.
   */
  lemma BucketDuplicatesComplete(fs: Fs, files: seq<Path>, p: Path)
    requires Utils.AllPresent(fs, files) && |files| > 0
    requires p in files && p != KeepFile(fs, files)
    requires ContentEqual(fs, KeepFile(fs, files), p) == Some(true)
    ensures BucketDuplicates(fs, files).Some? && p in BucketDuplicates(fs, files).value
  {
    var sortedFiles := Utils.SortFilesByCreationTime(fs, files);
    Utils.SortFilesByCreationTimeMembers(fs, files, sortedFiles);
    assert |files| > 1;
    BucketDuplicatesShape(fs, files, sortedFiles, KeepMatches(fs, sortedFiles[0], sortedFiles[1..]));
    assert sortedFiles == [sortedFiles[0]] + sortedFiles[1..];
    assert p in sortedFiles[1..];
  }

  /** The set a bucket of the index yields starts with a file of that bucket's size. */
  lemma BucketSetSized(fs: Fs, index: Finder.SizeIndex, k: nat, s: seq<Path>)
    requires IndexInFs(fs, index) && IndexSized(fs, index)
    requires k in index.buckets && BucketDuplicates(fs, index.buckets[k]) == Some(s)
    ensures |s| >= 2 && s[0] in fs && Size(fs[s[0]]) == k
  {
    BucketDuplicatesSound(fs, index.buckets[k], s);
    assert s[0] in index.buckets[k];
  }

  /** Each set produced for the buckets ks is what the bucket of its first file's size yields. */
  lemma {:induction false} DuplicateSetsFrom(fs: Fs, index: Finder.SizeIndex, ks: seq<nat>, sets: seq<seq<Path>>)
    requires IndexInFs(fs, index) && IndexSized(fs, index)
    requires forall k :: k in ks ==> k in index.buckets
    requires sets == DuplicateSets(fs, index, ks)
    ensures forall i :: 0 <= i < |sets| ==>
              && |sets[i]| >= 2 && sets[i][0] in fs
              && Size(fs[sets[i][0]]) in ks
              && BucketDuplicates(fs, index.buckets[Size(fs[sets[i][0]])]) == Some(sets[i])
  {
    if ks != [] {
      var init := ks[..|ks| - 1];
      var k := ks[|ks| - 1];
      SplitLast(ks, init, k);
      var prev := DuplicateSets(fs, index, init);
      DuplicateSetsFrom(fs, index, init, prev);
      DuplicateSetsSnoc(fs, index, init, k, ks);
      var b := BucketDuplicates(fs, index.buckets[k]);
      if b.Some? {
        var s := b.value;
        BucketSetSized(fs, index, k, s);
        assert sets == prev + [s];
        forall i | 0 <= i < |sets|
          ensures && |sets[i]| >= 2 && sets[i][0] in fs
                  && Size(fs[sets[i][0]]) in ks
                  && BucketDuplicates(fs, index.buckets[Size(fs[sets[i][0]])]) == Some(sets[i])
        {
          if i < |prev| {
            assert sets[i] == prev[i];
          } else {
            assert sets[i] == s;
          }
        }
      } else {
        assert sets == prev;
        forall i | 0 <= i < |sets| ensures Size(fs[sets[i][0]]) in ks {
          assert Size(fs[prev[i][0]]) in init;
        }
      }
    }
  }

  /** The sets produced for distinct sizes come from different buckets. */
  lemma {:induction false} DuplicateSetsApart(fs: Fs, index: Finder.SizeIndex, ks: seq<nat>, sets: seq<seq<Path>>)
    requires IndexInFs(fs, index) && IndexSized(fs, index)
    requires forall k :: k in ks ==> k in index.buckets
    requires Finder.Distinct(ks)
    requires sets == DuplicateSets(fs, index, ks)
    ensures forall i :: 0 <= i < |sets| ==> |sets[i]| >= 2 && sets[i][0] in fs
    ensures forall i, j :: 0 <= i < j < |sets| ==> Size(fs[sets[i][0]]) != Size(fs[sets[j][0]])
  {
    if ks != [] {
      var init := ks[..|ks| - 1];
      var k := ks[|ks| - 1];
      SplitLast(ks, init, k);
      DistinctSplit(ks, init, k);
      var prev := DuplicateSets(fs, index, init);
      DuplicateSetsApart(fs, index, init, prev);
      DuplicateSetsFrom(fs, index, init, prev);
      DuplicateSetsSnoc(fs, index, init, k, ks);
      var b := BucketDuplicates(fs, index.buckets[k]);
      if b.Some? {
        BucketSetSized(fs, index, k, b.value);
        AppendApart(fs, prev, b.value, sets, init, k);
      }
    }
  }

  /** Appending a set of a size not met before keeps the sets' sizes apart. */
  lemma AppendApart(fs: Fs, prev: seq<seq<Path>>, s: seq<Path>, sets: seq<seq<Path>>, init: seq<nat>, k: nat)
    requires forall i :: 0 <= i < |prev| ==> |prev[i]| >= 2 && prev[i][0] in fs && Size(fs[prev[i][0]]) in init
    requires forall i, j :: 0 <= i < j < |prev| ==> Size(fs[prev[i][0]]) != Size(fs[prev[j][0]])
    requires |s| >= 2 && s[0] in fs && Size(fs[s[0]]) == k && k !in init
    requires sets == prev + [s]
    ensures forall i :: 0 <= i < |sets| ==> |sets[i]| >= 2 && sets[i][0] in fs
    ensures forall i, j :: 0 <= i < j < |sets| ==> Size(fs[sets[i][0]]) != Size(fs[sets[j][0]])
  {
    forall i | 0 <= i < |sets| ensures |sets[i]| >= 2 && sets[i][0] in fs {
      if i < |prev| {
        assert sets[i] == prev[i];
      } else {
        assert sets[i] == s;
      }
    }
    forall i, j | 0 <= i < j < |sets| ensures Size(fs[sets[i][0]]) != Size(fs[sets[j][0]]) {
      assert sets[i] == prev[i];
      if j < |prev| {
        assert sets[j] == prev[j];
      } else {
        assert sets[j] == s;
      }
    }
  }

  lemma DistinctSplit<T>(ks: seq<T>, init: seq<T>, k: T)
    requires Finder.Distinct(ks) && ks == init + [k]
    ensures Finder.Distinct(init) && k !in init
  {
    forall i | 0 <= i < |init| ensures init[i] != k {
      assert init[i] == ks[i] && k == ks[|init|];
    }
    forall i, j | 0 <= i < j < |init| ensures init[i] != init[j] {
      assert init[i] == ks[i] && init[j] == ks[j];
    }
  }

  /** Every bucket of ks that yields a set contributes it. */
  lemma {:induction false} DuplicateSetsComplete(fs: Fs, index: Finder.SizeIndex, ks: seq<nat>, sets: seq<seq<Path>>)
    requires IndexInFs(fs, index)
    requires forall k :: k in ks ==> k in index.buckets
    requires sets == DuplicateSets(fs, index, ks)
    ensures forall k :: k in ks && BucketDuplicates(fs, index.buckets[k]).Some? ==>
              BucketDuplicates(fs, index.buckets[k]).value in sets
  {
    if ks != [] {
      var init := ks[..|ks| - 1];
      var k := ks[|ks| - 1];
      SplitLast(ks, init, k);
      var prev := DuplicateSets(fs, index, init);
      DuplicateSetsComplete(fs, index, init, prev);
      DuplicateSetsSnoc(fs, index, init, k, ks);
      forall k' | k' in ks && BucketDuplicates(fs, index.buckets[k']).Some?
        ensures BucketDuplicates(fs, index.buckets[k']).value in sets
      {
        if k' in init {
          assert BucketDuplicates(fs, index.buckets[k']).value in prev;
        }
      }
    }
  }

  /**
   * The sets produced for the buckets ks: each is the set its own bucket
   * (the bucket of its first file's size) yields; the sets come from
   * different buckets, so each bucket yields at most one set; and every
   * bucket of ks that yields a set contributes it.
   */
  lemma DuplicateSetsSpec(fs: Fs, index: Finder.SizeIndex, ks: seq<nat>, sets: seq<seq<Path>>)
    requires IndexInFs(fs, index) && IndexSized(fs, index)
    requires forall k :: k in ks ==> k in index.buckets
    requires Finder.Distinct(ks)
    requires sets == DuplicateSets(fs, index, ks)
    ensures forall i :: 0 <= i < |sets| ==>
              && |sets[i]| >= 2 && sets[i][0] in fs
              && Size(fs[sets[i][0]]) in ks
              && BucketDuplicates(fs, index.buckets[Size(fs[sets[i][0]])]) == Some(sets[i])
    ensures forall i, j :: 0 <= i < j < |sets| ==> Size(fs[sets[i][0]]) != Size(fs[sets[j][0]])
    ensures forall k :: k in ks && BucketDuplicates(fs, index.buckets[k]).Some? ==>
              BucketDuplicates(fs, index.buckets[k]).value in sets
  {
    DuplicateSetsFrom(fs, index, ks, sets);
    DuplicateSetsApart(fs, index, ks, sets);
    DuplicateSetsComplete(fs, index, ks, sets);
  }

  /**
   * duplicate_files_in_directory in terms of the traversal: every emitted
   * set is the set of the bucket of its files' size (its members are
   * traversed regular files of that size, the first is the bucket's keep
   * file, and the rest compare byte-equal to it), no two sets come from the
   * same bucket, and every bucket that has a qualifying set contributes it.
   */
  lemma DuplicateFilesSpec(entries: seq<Finder.Entry>, fs: Fs, sets: seq<seq<Path>>)
    requires sets == FindDuplicates(entries, fs)
    ensures forall i :: 0 <= i < |sets| ==>
              && |sets[i]| >= 2 && sets[i][0] in fs
              && BucketDuplicates(fs, Finder.Selected(entries, fs, Size(fs[sets[i][0]]))) == Some(sets[i])
    ensures forall i, j :: 0 <= i < j < |sets| ==> Size(fs[sets[i][0]]) != Size(fs[sets[j][0]])
    ensures forall k :: BucketDuplicates(fs, Finder.Selected(entries, fs, k)).Some? ==>
              BucketDuplicates(fs, Finder.Selected(entries, fs, k)).value in sets
  {
    var g := Finder.SizeGroups(entries, fs);
    SizeGroupsWellFormed(entries, fs, g);
    Finder.SizeGroupsSpec(entries, fs, g);
    DuplicateSetsSpec(fs, g, g.order, sets);
    forall k | BucketDuplicates(fs, Finder.Selected(entries, fs, k)).Some?
      ensures BucketDuplicates(fs, Finder.Selected(entries, fs, k)).value in sets
    {
      assert Finder.Selected(entries, fs, k) != [];
    }
  }

  /**
   * When no bucket yields a set, duplicate_files_in_directory returns the
   * empty list, and only then.
   */
  lemma NoDuplicatesIffNoBucketQualifies(entries: seq<Finder.Entry>, fs: Fs)
    ensures FindDuplicates(entries, fs) == [] <==>
              forall k :: BucketDuplicates(fs, Finder.Selected(entries, fs, k)).None?
  {
    var sets := FindDuplicates(entries, fs);
    DuplicateFilesSpec(entries, fs, sets);
    if sets != [] {
      var k := Size(fs[sets[0][0]]);
      assert BucketDuplicates(fs, Finder.Selected(entries, fs, k)).Some?;
    }
  }

  // =====================================================================
  // compare_two_files and duplicate_files_from_source_directory_with_target_directory

  /**
   * compare_two_files: the target path when the two files have the same size
   * and filecmp.cmp finds them equal, otherwise None. A getsize or compare
   * that raises is reported and yields None; nothing propagates.
   */
  function CompareTwoFiles(fs: Fs, sourceFile: Path, targetFile: Path): (result: Option<Path>)
    ensures result.Some? ==> result.value == targetFile
    ensures result.Some? <==> SameContent(fs, sourceFile, targetFile)
  {
    if sourceFile !in fs || targetFile !in fs then None
    else if Size(fs[sourceFile]) != Size(fs[targetFile]) then None
    else if ContentEqual(fs, sourceFile, targetFile) == Some(true) then Some(targetFile)
    else None
  }

  /** Python truthiness of a compare_two_files result: None and the empty path are falsy. */
  predicate Truthy(result: Option<Path>)
    ensures Truthy(result) ==> result.Some?
  {
    result.Some? && result.value != ""
  }

  /** The position in targets of the first comparison that is truthy, or |targets| when none is. */
  function FirstMatchIndex(fs: Fs, sourceFile: Path, targets: seq<Path>): (i: nat)
    ensures i <= |targets|
    ensures forall j :: 0 <= j < i ==> !Truthy(CompareTwoFiles(fs, sourceFile, targets[j]))
    ensures i < |targets| ==> Truthy(CompareTwoFiles(fs, sourceFile, targets[i]))
  {
    if targets == [] then 0
    else if Truthy(CompareTwoFiles(fs, sourceFile, targets[0])) then 0
    else 1 + FirstMatchIndex(fs, sourceFile, targets[1..])
  }

  /**
   * The pair one source file yields: [target, source] for the first target of
   * the bucket of the source's size whose comparison is truthy; nothing when
   * the target tree has no bucket of that size or no target matches.
   */
  function PairFor(fs: Fs, index: Finder.SizeIndex, sourceFile: Path): (pair: Option<seq<Path>>)
    requires sourceFile in fs
    ensures pair.Some? ==> Size(fs[sourceFile]) in index.buckets
    ensures pair.Some? ==> |pair.value| == 2 && pair.value[1] == sourceFile && pair.value[0] in index.buckets[Size(fs[sourceFile])]
  {
    var size := Size(fs[sourceFile]);
    if size in index.buckets && index.buckets[size] != [] then
      var targets := index.buckets[size];
      var i := FirstMatchIndex(fs, sourceFile, targets);
      if i < |targets| then Some([targets[i], sourceFile]) else None
    else None
  }

  /** The pairs for the source files, in their order. */
  function CrossPairs(fs: Fs, index: Finder.SizeIndex, sources: seq<Path>): seq<seq<Path>>
    requires Utils.AllPresent(fs, sources)
  {
    if sources == [] then []
    else
      var last := sources[|sources| - 1];
      CrossPairs(fs, index, sources[..|sources| - 1])
        + match PairFor(fs, index, last) case Some(pair) => [pair] case None => []
  }

  /** What the matcher returns for a source walk and a target traversal. */
  function CrossMatches(sourceWalk: seq<Finder.WalkStep>, targetEntries: seq<Finder.Entry>, fs: Fs): seq<seq<Path>>
    requires forall p :: p in Finder.WalkPaths(sourceWalk) ==> p in fs
  {
    CrossPairs(fs, Finder.SizeGroups(targetEntries, fs), Finder.WalkPaths(sourceWalk))
  }

  /**
   * duplicate_files_from_source_directory_with_target_directory: every source
   * file is looked up in the target's size buckets; the comparisons with the
   * bucket's files are submitted in bucket order and their results read in
   * that order, and the first truthy one yields [target, source]. The
   * source's getsize is unguarded, so every source file must exist.
   */
  method DuplicateFilesFromSourceWithTarget(sourceWalk: seq<Finder.WalkStep>, targetEntries: seq<Finder.Entry>, fs: Fs)
    returns (duplicateFilesList: seq<seq<Path>>)
    requires forall p :: p in Finder.WalkPaths(sourceWalk) ==> p in fs
    ensures duplicateFilesList == CrossMatches(sourceWalk, targetEntries, fs)
  {
    var sourceFiles := Finder.GetAllFiles(sourceWalk);
    var targetFilesBySize := Finder.GroupFilesBySize(targetEntries, fs);
    duplicateFilesList := [];
    assert Utils.AllPresent(fs, sourceFiles);
    for n := 0 to |sourceFiles|
      invariant duplicateFilesList == CrossPairs(fs, targetFilesBySize, sourceFiles[..n])
    {
      var sourceFile := sourceFiles[n];
      ghost var found: Option<seq<Path>> := None;
      var sourceFileSize := Size(fs[sourceFile]);
      if sourceFileSize in targetFilesBySize.buckets && targetFilesBySize.buckets[sourceFileSize] != [] {
        var targetFiles := targetFilesBySize.buckets[sourceFileSize];
        var result := FirstTruthyResult(fs, sourceFile, targetFiles);
        PairForResult(fs, targetFilesBySize, sourceFile, targetFiles, result);
        if result.Some? {
          duplicateFilesList := duplicateFilesList + [[result.value, sourceFile]];
          found := Some([result.value, sourceFile]);
        }
      }
      CrossPairsStep(fs, targetFilesBySize, sourceFiles, n, found);
    }
    assert sourceFiles[..|sourceFiles|] == sourceFiles;
    CrossMatchesIs(sourceWalk, targetEntries, fs, targetFilesBySize, sourceFiles);
  }

  lemma CrossMatchesIs(sourceWalk: seq<Finder.WalkStep>, targetEntries: seq<Finder.Entry>, fs: Fs,
                       g: Finder.SizeIndex, sources: seq<Path>)
    requires sources == Finder.WalkPaths(sourceWalk) && Utils.AllPresent(fs, sources)
    requires g == Finder.SizeGroups(targetEntries, fs)
    ensures CrossMatches(sourceWalk, targetEntries, fs) == CrossPairs(fs, g, sources)
  {
  }

  /**
   * The comparisons of sourceFile with each target file are submitted in
   * order, and their results read in that order until the first truthy one,
   * which is returned; None when no result is truthy.
   */
  method FirstTruthyResult(fs: Fs, sourceFile: Path, targetFiles: seq<Path>) returns (result: Option<Path>)
    ensures FirstMatchIndex(fs, sourceFile, targetFiles) < |targetFiles| ==>
              result == Some(targetFiles[FirstMatchIndex(fs, sourceFile, targetFiles)])
    ensures FirstMatchIndex(fs, sourceFile, targetFiles) == |targetFiles| ==> result == None
  {
    var futures := seq(|targetFiles|, t requires 0 <= t < |targetFiles| => CompareTwoFiles(fs, sourceFile, targetFiles[t]));
    var j := 0;
    while j < |futures|
      invariant j <= |futures|
      invariant forall j' :: 0 <= j' < j ==> !Truthy(CompareTwoFiles(fs, sourceFile, targetFiles[j']))
    {
      result := futures[j];
      if Truthy(result) {
        FirstMatchIndexIs(fs, sourceFile, targetFiles, j);
        return;
      }
      j := j + 1;
    }
    FirstMatchIndexIs(fs, sourceFile, targetFiles, j);
    result := None;
  }

  /** The first truthy result of a source file's bucket makes its pair. */
  lemma PairForResult(fs: Fs, index: Finder.SizeIndex, sourceFile: Path, targetFiles: seq<Path>, result: Option<Path>)
    requires sourceFile in fs
    requires Size(fs[sourceFile]) in index.buckets && index.buckets[Size(fs[sourceFile])] == targetFiles && targetFiles != []
    requires FirstMatchIndex(fs, sourceFile, targetFiles) < |targetFiles| ==>
               result == Some(targetFiles[FirstMatchIndex(fs, sourceFile, targetFiles)])
    requires FirstMatchIndex(fs, sourceFile, targetFiles) == |targetFiles| ==> result == None
    ensures PairFor(fs, index, sourceFile) == if result.Some? then Some([result.value, sourceFile]) else None
  {
  }

  /** Looking up the source file at position n appends the pair it yields, if any. */
  lemma CrossPairsStep(fs: Fs, index: Finder.SizeIndex, sources: seq<Path>, n: nat, found: Option<seq<Path>>)
    requires Utils.AllPresent(fs, sources) && n < |sources|
    requires found == PairFor(fs, index, sources[n])
    ensures Utils.AllPresent(fs, sources[..n]) && Utils.AllPresent(fs, sources[..n + 1])
    ensures CrossPairs(fs, index, sources[..n + 1]) ==
              CrossPairs(fs, index, sources[..n]) + match found case Some(pair) => [pair] case None => []
  {
    assert sources[..n + 1] == sources[..n] + [sources[n]];
    CrossPairsSnoc(fs, index, sources[..n], sources[n], sources[..n + 1]);
  }

  /** Looking up one more source file appends the pair it yields, if any. */
  lemma CrossPairsSnoc(fs: Fs, index: Finder.SizeIndex, sources: seq<Path>, p: Path, sources1: seq<Path>)
    requires Utils.AllPresent(fs, sources)
    requires p in fs && sources1 == sources + [p]
    ensures Utils.AllPresent(fs, sources1)
    ensures CrossPairs(fs, index, sources1) ==
              CrossPairs(fs, index, sources) + match PairFor(fs, index, p) case Some(pair) => [pair] case None => []
  {
    assert sources1[..|sources|] == sources;
  }

  /** t is the target at the first position of targets whose comparison with sourceFile is truthy. */
  predicate FirstMatch(fs: Fs, sourceFile: Path, targets: seq<Path>, t: Path)
  {
    FirstMatchIndex(fs, sourceFile, targets) < |targets| && targets[FirstMatchIndex(fs, sourceFile, targets)] == t
  }

  /** FirstMatchIndex is the only position with its two defining properties. */
  lemma FirstMatchIndexIs(fs: Fs, sourceFile: Path, targets: seq<Path>, j: nat)
    requires j <= |targets|
    requires forall j' :: 0 <= j' < j ==> !Truthy(CompareTwoFiles(fs, sourceFile, targets[j']))
    requires j < |targets| ==> Truthy(CompareTwoFiles(fs, sourceFile, targets[j]))
    ensures FirstMatchIndex(fs, sourceFile, targets) == j
  {
  }

  // ---------------------------------------------------------------------
  // Properties of the cross-directory matcher

  /**
   * A pair for a source file is [target, source] where target is the first
   * file of the bucket of the source's size that matches it byte for byte
   * (and is a non-empty path, so the result is truthy); in particular there
   * is no pair when the target tree has no bucket of that size.
   */
  lemma PairForSound(fs: Fs, index: Finder.SizeIndex, sourceFile: Path, pair: seq<Path>)
    requires sourceFile in fs
    requires PairFor(fs, index, sourceFile) == Some(pair)
    ensures Size(fs[sourceFile]) in index.buckets
    ensures |pair| == 2 && pair[1] == sourceFile
    ensures FirstMatch(fs, sourceFile, index.buckets[Size(fs[sourceFile])], pair[0])
    ensures pair[0] in index.buckets[Size(fs[sourceFile])]
    ensures pair[0] != "" && SameContent(fs, sourceFile, pair[0])
  {
  }

  /** A source file that matches some non-empty path of the bucket of its size yields a pair. */
  lemma PairForComplete(fs: Fs, index: Finder.SizeIndex, sourceFile: Path, targetFile: Path)
    requires sourceFile in fs
    requires Size(fs[sourceFile]) in index.buckets && targetFile in index.buckets[Size(fs[sourceFile])]
    requires targetFile != "" && SameContent(fs, sourceFile, targetFile)
    ensures PairFor(fs, index, sourceFile).Some?
  {
    var targets := index.buckets[Size(fs[sourceFile])];
    var j :| 0 <= j < |targets| && targets[j] == targetFile;
    assert Truthy(CompareTwoFiles(fs, sourceFile, targets[j]));
  }

  /** The source files that yield a pair, in their order. */
  function PairedSources(fs: Fs, index: Finder.SizeIndex, sources: seq<Path>): (paired: seq<Path>)
    requires Utils.AllPresent(fs, sources)
    ensures forall p :: p in paired <==> p in sources && PairFor(fs, index, p).Some?
    ensures |paired| <= |sources|
  {
    if sources == [] then []
    else
      var last := sources[|sources| - 1];
      assert sources == sources[..|sources| - 1] + [last];
      PairedSources(fs, index, sources[..|sources| - 1]) + (if PairFor(fs, index, last).Some? then [last] else [])
  }

  /**
   * The pairs are those of the source files that have one, one pair per such
   * source file and in source order.
   */
  lemma {:induction false} CrossPairsSpec(fs: Fs, index: Finder.SizeIndex, sources: seq<Path>, paired: seq<Path>)
    requires Utils.AllPresent(fs, sources)
    requires paired == PairedSources(fs, index, sources)
    ensures |CrossPairs(fs, index, sources)| == |paired|
    ensures forall i :: 0 <= i < |paired| ==> PairFor(fs, index, paired[i]) == Some(CrossPairs(fs, index, sources)[i])
  {
    if sources != [] {
      var init := sources[..|sources| - 1];
      var last := sources[|sources| - 1];
      SplitLast(sources, init, last);
      var pairedInit := PairedSources(fs, index, init);
      CrossPairsSpec(fs, index, init, pairedInit);
      CrossPairsSnoc(fs, index, init, last, sources);
      PairAppend(fs, index, pairedInit, CrossPairs(fs, index, init), last, paired, CrossPairs(fs, index, sources));
    }
  }

  /** One more source file extends the paired sources and the pairs in step. */
  lemma PairAppend(fs: Fs, index: Finder.SizeIndex, pairedInit: seq<Path>, pairsInit: seq<seq<Path>>,
                   last: Path, paired: seq<Path>, pairs: seq<seq<Path>>)
    requires Utils.AllPresent(fs, pairedInit) && last in fs
    requires |pairsInit| == |pairedInit|
    requires forall i :: 0 <= i < |pairedInit| ==> PairFor(fs, index, pairedInit[i]) == Some(pairsInit[i])
    requires PairFor(fs, index, last).Some? ==>
               paired == pairedInit + [last] && pairs == pairsInit + [PairFor(fs, index, last).value]
    requires PairFor(fs, index, last).None? ==> paired == pairedInit && pairs == pairsInit
    ensures Utils.AllPresent(fs, paired)
    ensures |pairs| == |paired|
    ensures forall i :: 0 <= i < |paired| ==> PairFor(fs, index, paired[i]) == Some(pairs[i])
  {
    if PairFor(fs, index, last).Some? {
      forall i | 0 <= i < |paired| ensures PairFor(fs, index, paired[i]) == Some(pairs[i]) {
        if i < |pairedInit| {
          assert paired[i] == pairedInit[i] && pairs[i] == pairsInit[i];
        } else {
          assert paired[i] == last;
        }
      }
    }
  }

  /**
   * The matcher in terms of the two trees: each pair is [target, source]
   * with source a walked file of the source tree and target the first
   * traversed regular file of the target tree, in traversal order, that has
   * the source's size and matches it byte for byte; pairs come in the order
   * of the source walk, at most one per walked path; and a source file with
   * a non-empty matching target of its size has a pair.
   */
  lemma CrossMatchesSpec(sourceWalk: seq<Finder.WalkStep>, targetEntries: seq<Finder.Entry>, fs: Fs, pairs: seq<seq<Path>>)
    requires forall p :: p in Finder.WalkPaths(sourceWalk) ==> p in fs
    requires pairs == CrossMatches(sourceWalk, targetEntries, fs)
    ensures |pairs| <= |Finder.WalkPaths(sourceWalk)|
    ensures forall i :: 0 <= i < |pairs| ==>
              && |pairs[i]| == 2 && pairs[i][1] in Finder.WalkPaths(sourceWalk)
              && pairs[i][0] in Finder.Selected(targetEntries, fs, Size(fs[pairs[i][1]]))
              && FirstMatch(fs, pairs[i][1], Finder.Selected(targetEntries, fs, Size(fs[pairs[i][1]])), pairs[i][0])
              && SameContent(fs, pairs[i][1], pairs[i][0])
    ensures forall s, t ::
              (s in Finder.WalkPaths(sourceWalk) && t in Finder.Selected(targetEntries, fs, Size(fs[s])) && t != "" && SameContent(fs, s, t))
              ==> exists i :: 0 <= i < |pairs| && pairs[i][1] == s
    ensures |pairs| == |PairedSources(fs, Finder.SizeGroups(targetEntries, fs), Finder.WalkPaths(sourceWalk))|
    ensures forall i :: 0 <= i < |pairs| ==>
              pairs[i][1] == PairedSources(fs, Finder.SizeGroups(targetEntries, fs), Finder.WalkPaths(sourceWalk))[i]
    ensures Finder.Distinct(Finder.WalkPaths(sourceWalk)) ==>
              forall i, j :: 0 <= i < j < |pairs| ==> pairs[i][1] != pairs[j][1]
  {
    var sources := Finder.WalkPaths(sourceWalk);
    var g := Finder.SizeGroups(targetEntries, fs);
    var paired := PairedSources(fs, g, sources);
    assert pairs == CrossPairs(fs, g, sources);
    CrossPairsSpec(fs, g, sources, paired);
    PairsSound(targetEntries, fs, g, sources, paired, pairs);
    PairsComplete(targetEntries, fs, g, sources, paired, pairs);
    PairsFollowSources(fs, g, paired, pairs);
    if Finder.Distinct(sources) {
      PairedSourcesDistinct(fs, g, sources);
    }
  }

  /** The source of each pair is the paired source at the same position. */
  lemma PairsFollowSources(fs: Fs, index: Finder.SizeIndex, paired: seq<Path>, pairs: seq<seq<Path>>)
    requires Utils.AllPresent(fs, paired)
    requires |pairs| == |paired|
    requires forall i :: 0 <= i < |paired| ==> PairFor(fs, index, paired[i]) == Some(pairs[i])
    ensures forall i :: 0 <= i < |pairs| ==> |pairs[i]| == 2 && pairs[i][1] == paired[i]
  {
    forall i | 0 <= i < |pairs| ensures |pairs[i]| == 2 && pairs[i][1] == paired[i] {
      assert paired[i] in paired;
      assert PairFor(fs, index, paired[i]).value == pairs[i];
    }
  }

  /** Distinct source files yield distinct paired sources. */
  lemma {:induction false} PairedSourcesDistinct(fs: Fs, index: Finder.SizeIndex, sources: seq<Path>)
    requires Utils.AllPresent(fs, sources) && Finder.Distinct(sources)
    ensures Finder.Distinct(PairedSources(fs, index, sources))
  {
    if sources != [] {
      var init, last := sources[..|sources| - 1], sources[|sources| - 1];
      SplitLast(sources, init, last);
      DistinctSplit(sources, init, last);
      PairedSourcesDistinct(fs, index, init);
      if PairFor(fs, index, last).Some? {
        DistinctSnoc(PairedSources(fs, index, init), last);
      }
    }
  }

  lemma DistinctSnoc<T>(s: seq<T>, x: T)
    requires Finder.Distinct(s) && x !in s
    ensures Finder.Distinct(s + [x])
  {
    forall i, j | 0 <= i < j < |s| + 1 ensures (s + [x])[i] != (s + [x])[j] {
      assert (s + [x])[i] == s[i];
      if j < |s| {
        assert (s + [x])[j] == s[j];
      }
    }
  }

  lemma PairsSound(targetEntries: seq<Finder.Entry>, fs: Fs, g: Finder.SizeIndex,
                   sources: seq<Path>, paired: seq<Path>, pairs: seq<seq<Path>>)
    requires g == Finder.SizeGroups(targetEntries, fs)
    requires Utils.AllPresent(fs, sources)
    requires forall p :: p in paired ==> p in sources
    requires |pairs| == |paired|
    requires forall i :: 0 <= i < |paired| ==> PairFor(fs, g, paired[i]) == Some(pairs[i])
    ensures forall i :: 0 <= i < |pairs| ==>
              && |pairs[i]| == 2 && pairs[i][1] in sources
              && pairs[i][0] in Finder.Selected(targetEntries, fs, Size(fs[pairs[i][1]]))
              && FirstMatch(fs, pairs[i][1], Finder.Selected(targetEntries, fs, Size(fs[pairs[i][1]])), pairs[i][0])
              && SameContent(fs, pairs[i][1], pairs[i][0])
  {
    forall i | 0 <= i < |pairs|
      ensures && |pairs[i]| == 2 && pairs[i][1] in sources
              && pairs[i][0] in Finder.Selected(targetEntries, fs, Size(fs[pairs[i][1]]))
              && FirstMatch(fs, pairs[i][1], Finder.Selected(targetEntries, fs, Size(fs[pairs[i][1]])), pairs[i][0])
              && SameContent(fs, pairs[i][1], pairs[i][0])
    {
      assert paired[i] in paired;
      PairInTarget(targetEntries, fs, g, paired[i], pairs[i]);
    }
  }

  lemma PairsComplete(targetEntries: seq<Finder.Entry>, fs: Fs, g: Finder.SizeIndex,
                      sources: seq<Path>, paired: seq<Path>, pairs: seq<seq<Path>>)
    requires g == Finder.SizeGroups(targetEntries, fs)
    requires Utils.AllPresent(fs, sources)
    requires forall p :: p in paired <==> p in sources && PairFor(fs, g, p).Some?
    requires |pairs| == |paired|
    requires forall i :: 0 <= i < |paired| ==> PairFor(fs, g, paired[i]) == Some(pairs[i])
    requires forall i :: 0 <= i < |pairs| ==> |pairs[i]| == 2
    ensures forall s, t ::
              (s in sources && t in Finder.Selected(targetEntries, fs, Size(fs[s])) && t != "" && SameContent(fs, s, t))
              ==> exists i :: 0 <= i < |pairs| && pairs[i][1] == s
  {
    forall s, t | s in sources && t in Finder.Selected(targetEntries, fs, Size(fs[s])) && t != "" && SameContent(fs, s, t)
      ensures exists i :: 0 <= i < |pairs| && pairs[i][1] == s
    {
      TargetPaired(targetEntries, fs, g, s, t);
      var i :| 0 <= i < |paired| && paired[i] == s;
      PairForSound(fs, g, s, pairs[i]);
    }
  }

  /** PairForSound, with the bucket read as the target files of the source's size. */
  lemma PairInTarget(targetEntries: seq<Finder.Entry>, fs: Fs, g: Finder.SizeIndex, s: Path, pair: seq<Path>)
    requires g == Finder.SizeGroups(targetEntries, fs)
    requires s in fs && PairFor(fs, g, s) == Some(pair)
    ensures |pair| == 2 && pair[1] == s
    ensures pair[0] in Finder.Selected(targetEntries, fs, Size(fs[s]))
    ensures FirstMatch(fs, s, Finder.Selected(targetEntries, fs, Size(fs[s])), pair[0])
    ensures SameContent(fs, s, pair[0])
  {
    PairForSound(fs, g, s, pair);
    Finder.SizeGroupsSpec(targetEntries, fs, g);
  }

  /** PairForComplete, with the bucket read as the target files of the source's size. */
  lemma TargetPaired(targetEntries: seq<Finder.Entry>, fs: Fs, g: Finder.SizeIndex, s: Path, t: Path)
    requires g == Finder.SizeGroups(targetEntries, fs)
    requires s in fs && t in Finder.Selected(targetEntries, fs, Size(fs[s]))
    requires t != "" && SameContent(fs, s, t)
    ensures PairFor(fs, g, s).Some?
  {
    Finder.SizeGroupsSpec(targetEntries, fs, g);
    PairForComplete(fs, g, s, t);
  }

  /**
   * When the source tree is the target tree, a file is paired with itself:
   * for the tree /d holding one readable file a, the matcher returns
   * [[/d/a, /d/a]].
   */
  lemma SameTreeExample(fs: Fs, walk: seq<Finder.WalkStep>, entries: seq<Finder.Entry>)
    requires fs == map["/d/a" := FileRecord([], 0, true, true)]
    requires walk == [Finder.WalkStep("/d", ["a"])]
    requires entries == [Finder.Entry("/d/a", Finder.RegularFile)]
    ensures Finder.WalkPaths(walk) == ["/d/a"]
    ensures CrossMatches(walk, entries, fs) == [["/d/a", "/d/a"]]
  {
    assert Join("/d", "a") == "/d/a";
    assert walk[..0] == [] && entries[..0] == [];
    assert Finder.JoinAll("/d", ["a"]) == ["/d/a"];
    assert Finder.WalkPaths(walk[..0]) == [];
    var sources := Finder.WalkPaths(walk);
    assert sources == [] + Finder.JoinAll(walk[0].root, walk[0].files);
    assert sources == ["/d/a"];
    assert Finder.SizeGroups(entries[..0], fs) == Finder.SizeIndex([], map[]);
    var g := Finder.SizeGroups(entries, fs);
    assert Size(fs["/d/a"]) == 0;
    assert g == Finder.SizeIndex([0], map[0 := ["/d/a"]]);
    assert CompareTwoFiles(fs, "/d/a", "/d/a") == Some("/d/a");
    assert FirstMatchIndex(fs, "/d/a", ["/d/a"]) == 0;
    assert PairFor(fs, g, "/d/a") == Some(["/d/a", "/d/a"]);
    assert sources[..0] == [] && sources[|sources| - 1] == "/d/a";
    assert CrossPairs(fs, g, sources[..0]) == [];
    assert CrossPairs(fs, g, sources) == [] + [["/d/a", "/d/a"]];
    assert CrossPairs(fs, g, sources) == [["/d/a", "/d/a"]];
    CrossMatchesIs(walk, entries, fs, g, sources);
  }

  // =====================================================================
  // delete_duplicate_files

  /** str.lower on one character, for the ASCII letters. */
  function LowerChar(c: char): (d: char)
    ensures !('A' <= d <= 'Z')
    ensures !('A' <= c <= 'Z') ==> d == c
  {
    if 'A' <= c <= 'Z' then (c as int - 'A' as int + 'a' as int) as char else c
  }

  /** str.lower: no ASCII capital is left, and every other character is kept. */
  function Lower(s: string): (lowered: string)
    ensures |lowered| == |s|
    ensures forall i :: 0 <= i < |s| ==> !('A' <= lowered[i] <= 'Z')
    ensures forall i :: 0 <= i < |s| && !('A' <= s[i] <= 'Z') ==> lowered[i] == s[i]
  {
    seq(|s|, i requires 0 <= i < |s| => LowerChar(s[i]))
  }

  /** The confirmation prompt accepts exactly the answers "y" and "Y". */
  lemma ConfirmsExactly(answer: string)
    ensures Lower(answer) == "y" <==> answer == "y" || answer == "Y"
  {
    if Lower(answer) == "y" {
      assert |answer| == |Lower(answer)| == 1;
      assert LowerChar(answer[0]) == Lower(answer)[0] == 'y';
      assert answer == [answer[0]];
    }
  }

  /**
   * Whether the set at position i of the list is deleted: always under
   * force, otherwise when the i-th answer read from the prompt lower-cases
   * to "y" (one answer is read per set, and only when force is off).
   */
  predicate Confirmed(force: bool, answers: seq<string>, i: nat)
    requires force || i < |answers|
    ensures Confirmed(force, answers, i) <==> force || answers[i] == "y" || answers[i] == "Y"
  {
    if force then true
    else
      ConfirmsExactly(answers[i]);
      Lower(answers[i]) == "y"
  }

  /** The inner deletion loop: each path that exists is removed, when os.remove succeeds. */
  function RemoveEach(fs: Fs, paths: seq<Path>): (r: Fs)
    ensures forall q :: q in r ==> q in fs && r[q] == fs[q]
  {
    if paths == [] then fs
    else RemoveOne(RemoveEach(fs, paths[..|paths| - 1]), paths[|paths| - 1])
  }

  /**
   * The filesystem after delete_duplicate_files has gone through sets: every
   * confirmed set has its files after the first removed in turn.
   */
  function AfterDeletion(fs: Fs, sets: seq<seq<Path>>, force: bool, answers: seq<string>): (after: Fs)
    requires forall i :: 0 <= i < |sets| ==> |sets[i]| >= 1
    requires force || |answers| >= |sets|
    ensures forall q :: q in after ==> q in fs && after[q] == fs[q]
  {
    if sets == [] then fs
    else
      var n := |sets| - 1;
      var prev := AfterDeletion(fs, sets[..n], force, answers);
      if Confirmed(force, answers, n) then RemoveEach(prev, sets[n][1..]) else prev
  }

  /**
   * delete_duplicate_files: for each set, unless force is on one answer is
   * read and a refusal skips the whole set; otherwise each file after the
   * first that still exists is removed, and a failing os.remove leaves it in
   * place while the loop goes on. Nothing is returned. An empty set makes
   * files[0] raise, and running out of answers makes input() raise, so both
   * are excluded.
   */
  method DeleteDuplicateFiles(disk: Disk, duplicateFilesList: seq<seq<Path>>, force: bool, answers: seq<string>)
    requires forall i :: 0 <= i < |duplicateFilesList| ==> |duplicateFilesList[i]| >= 1
    requires force || |answers| >= |duplicateFilesList|
    modifies disk
    ensures disk.files == AfterDeletion(old(disk.files), duplicateFilesList, force, answers)
  {
    ghost var fs := disk.files;
    for idx := 0 to |duplicateFilesList|
      invariant disk.files == AfterDeletion(fs, duplicateFilesList[..idx], force, answers)
    {
      AfterDeletionSnoc(fs, duplicateFilesList, force, answers, idx);
      var files := duplicateFilesList[idx];
      var deleteFiles := files[1..];
      if !force {
        var confirm := answers[idx];
        if Lower(confirm) != "y" {
          continue;
        }
      }
      ghost var before := disk.files;
      for k := 0 to |deleteFiles|
        invariant disk.files == RemoveEach(before, deleteFiles[..k])
      {
        var file := deleteFiles[k];
        RemoveEachSnoc(before, deleteFiles, k);
        var present := disk.Exists(file);
        if present {
          var removed := disk.Remove(file);
        }
      }
      assert deleteFiles[..|deleteFiles|] == deleteFiles;
    }
    assert duplicateFilesList[..|duplicateFilesList|] == duplicateFilesList;
  }

  lemma AfterDeletionSnoc(fs: Fs, sets: seq<seq<Path>>, force: bool, answers: seq<string>, n: nat)
    requires n < |sets|
    requires forall i :: 0 <= i < |sets| ==> |sets[i]| >= 1
    requires force || |answers| >= |sets|
    ensures AfterDeletion(fs, sets[..n + 1], force, answers) ==
              if Confirmed(force, answers, n) then RemoveEach(AfterDeletion(fs, sets[..n], force, answers), sets[n][1..])
              else AfterDeletion(fs, sets[..n], force, answers)
  {
    assert sets[..n + 1][..n] == sets[..n];
  }

  lemma RemoveEachSnoc(fs: Fs, paths: seq<Path>, k: nat)
    requires k < |paths|
    ensures RemoveEach(fs, paths[..k + 1]) == RemoveOne(RemoveEach(fs, paths[..k]), paths[k])
  {
    assert paths[..k + 1][..k] == paths[..k];
  }

  // ---------------------------------------------------------------------
  // Properties of the deletion

  /**
   * After the inner loop a path is gone exactly when it was present,
   * removable and listed; what is left keeps its record.
   */
  lemma {:induction false} RemoveEachSpec(fs: Fs, paths: seq<Path>, r: Fs)
    requires r == RemoveEach(fs, paths)
    ensures forall q :: q in r <==> q in fs && !(q in paths && fs[q].removable)
    ensures forall q :: q in r ==> r[q] == fs[q]
  {
    if paths != [] {
      var init := paths[..|paths| - 1];
      var last := paths[|paths| - 1];
      SplitLast(paths, init, last);
      var prev := RemoveEach(fs, init);
      RemoveEachSpec(fs, init, prev);
      assert r == RemoveOne(prev, last);
    }
  }

  /** Path q is listed after the first file of some set the user confirmed. */
  ghost predicate Doomed(sets: seq<seq<Path>>, force: bool, answers: seq<string>, q: Path)
    requires forall i :: 0 <= i < |sets| ==> |sets[i]| >= 1
    requires force || |answers| >= |sets|
  {
    exists i :: 0 <= i < |sets| && Confirmed(force, answers, i) && q in sets[i][1..]
  }

  lemma DoomedSnoc(sets: seq<seq<Path>>, force: bool, answers: seq<string>, init: seq<seq<Path>>, last: seq<Path>, q: Path)
    requires forall i :: 0 <= i < |sets| ==> |sets[i]| >= 1
    requires force || |answers| >= |sets|
    requires sets == init + [last]
    ensures forall i :: 0 <= i < |init| ==> |init[i]| >= 1
    ensures |last| >= 1
    ensures Doomed(sets, force, answers, q) <==>
              Doomed(init, force, answers, q) || (Confirmed(force, answers, |init|) && q in last[1..])
  {
    assert forall i :: 0 <= i < |init| ==> init[i] == sets[i];
    assert sets[|init|] == last;
    if Doomed(sets, force, answers, q) {
      var i :| 0 <= i < |sets| && Confirmed(force, answers, i) && q in sets[i][1..];
      if i < |init| {
        assert init[i] == sets[i];
      }
    }
    if Doomed(init, force, answers, q) {
      var i :| 0 <= i < |init| && Confirmed(force, answers, i) && q in init[i][1..];
      assert sets[i] == init[i];
    }
    if Confirmed(force, answers, |init|) && q in last[1..] {
      assert sets[|init|] == last;
    }
  }

  /**
   * A path is gone after the deletion exactly when it existed, os.remove
   * succeeds on it, and it is listed after the first file of a set that was
   * confirmed (always, under force); every other path keeps its record. In
   * particular a refused set loses nothing and no path outside the sets'
   * tails is touched.
   */
  lemma {:induction false} AfterDeletionSpec(fs: Fs, sets: seq<seq<Path>>, force: bool, answers: seq<string>, after: Fs)
    requires forall i :: 0 <= i < |sets| ==> |sets[i]| >= 1
    requires force || |answers| >= |sets|
    requires after == AfterDeletion(fs, sets, force, answers)
    ensures forall q :: q in after <==> q in fs && !(fs[q].removable && Doomed(sets, force, answers, q))
    ensures forall q :: q in after ==> after[q] == fs[q]
  {
    if sets != [] {
      var n := |sets| - 1;
      var init := sets[..n];
      var last := sets[n];
      SplitLast(sets, init, last);
      var prev := AfterDeletion(fs, init, force, answers);
      AfterDeletionSpec(fs, init, force, answers, prev);
      forall q ensures Doomed(sets, force, answers, q) <==>
                 Doomed(init, force, answers, q) || (Confirmed(force, answers, n) && q in last[1..]) {
        DoomedSnoc(sets, force, answers, init, last, q);
      }
      if Confirmed(force, answers, n) {
        RemoveEachSpec(prev, last[1..], after);
      }
    }
  }

  /**
   * With force on, a two-file set loses its second file and keeps the
   * first; answering "n" keeps both, and answering "Y" deletes as force does.
   * A pair that names one file twice loses that file: nothing stops the
   * cross-tree matcher from pairing a file with itself when the two trees
   * overlap.
   */
  lemma DeletePairExamples(fs: Fs, keep: Path, other: Path)
    requires other in fs && fs[other].removable && keep != other
    ensures AfterDeletion(fs, [[keep, other]], true, []) == fs - {other}
    ensures AfterDeletion(fs, [[keep, other]], false, ["n"]) == fs
    ensures AfterDeletion(fs, [[keep, other]], false, ["Y"]) == fs - {other}
    ensures AfterDeletion(fs, [[other, other]], true, []) == fs - {other}
  {
    var sets := [[keep, other]];
    assert sets[..0] == [];
    assert sets[0][1..] == [other];
    assert [other][..0] == [];
    assert RemoveEach(fs, [other]) == RemoveOne(fs, other) == fs - {other};
    assert AfterDeletion(fs, sets[..0], true, []) == fs;
    assert Lower("n") == "n";
    assert Lower("Y") == "y";
    var self := [[other, other]];
    assert self[..0] == [] && self[0][1..] == [other];
    assert AfterDeletion(fs, self[..0], true, []) == fs;
  }

  // ---------------------------------------------------------------------
  // Deleting what the single-tree resolver found

  lemma {:induction false} DistinctCount<T>(s: seq<T>, x: T)
    requires Finder.Distinct(s)
    ensures multiset(s)[x] <= 1
  {
    if s != [] {
      var tail := s[1..];
      assert s == [s[0]] + tail;
      assert Finder.Distinct(tail) by {
        forall i, j | 0 <= i < j < |tail| ensures tail[i] != tail[j] {
          assert tail[i] == s[i + 1] && tail[j] == s[j + 1];
        }
      }
      DistinctCount(tail, x);
    }
  }

  lemma RepeatCount<T>(s: seq<T>, i: nat, j: nat)
    requires i < j < |s| && s[i] == s[j]
    ensures multiset(s)[s[i]] >= 2
  {
    assert s == s[..j] + [s[j]] + s[j + 1..];
    assert s[..j][i] == s[i];
    assert s[i] in multiset(s[..j]);
  }

  /** Rearranging a list that holds no path twice gives one that holds no path twice. */
  lemma PermutationDistinct<T>(a: seq<T>, b: seq<T>)
    requires multiset(a) == multiset(b) && Finder.Distinct(a)
    ensures Finder.Distinct(b)
  {
    forall i, j | 0 <= i < j < |b| ensures b[i] != b[j] {
      if b[i] == b[j] {
        RepeatCount(b, i, j);
        DistinctCount(a, b[i]);
        assert false;
      }
    }
  }

  lemma {:induction false} KeepMatchesDistinct(fs: Fs, keep: Path, rest: seq<Path>, m: seq<Path>)
    requires Finder.Distinct(rest)
    requires m == KeepMatches(fs, keep, rest)
    ensures Finder.Distinct(m)
  {
    if rest != [] {
      var init := rest[..|rest| - 1];
      var last := rest[|rest| - 1];
      SplitLast(rest, init, last);
      DistinctSplit(rest, init, last);
      var m0 := KeepMatches(fs, keep, init);
      KeepMatchesDistinct(fs, keep, init, m0);
      if ContentEqual(fs, keep, last) == Some(true) {
        assert m == m0 + [last];
        forall i, j | 0 <= i < j < |m| ensures m[i] != m[j] {
          assert m[i] == m0[i];
          if j < |m0| {
            assert m[j] == m0[j];
          } else {
            assert m0[i] in m0;
          }
        }
      } else {
        assert m == m0;
      }
    }
  }

  /** A bucket that holds no path twice yields a set that holds no path twice. */
  lemma BucketDuplicatesDistinct(fs: Fs, files: seq<Path>, s: seq<Path>)
    requires Utils.AllPresent(fs, files) && Finder.Distinct(files)
    requires BucketDuplicates(fs, files) == Some(s)
    ensures Finder.Distinct(s)
  {
    var sortedFiles := Utils.SortFilesByCreationTime(fs, files);
    Utils.SortFilesByCreationTimeMembers(fs, files, sortedFiles);
    PermutationDistinct(files, sortedFiles);
    KeepAndMatchesDistinct(fs, sortedFiles, s);
  }

  /** The head of a list without repeats, followed by its matches among the tail, repeats nothing. */
  lemma KeepAndMatchesDistinct(fs: Fs, sortedFiles: seq<Path>, s: seq<Path>)
    requires |sortedFiles| > 0 && Finder.Distinct(sortedFiles)
    requires s == [sortedFiles[0]] + KeepMatches(fs, sortedFiles[0], sortedFiles[1..])
    ensures Finder.Distinct(s)
  {
    var rest := sortedFiles[1..];
    assert Finder.Distinct(rest) by {
      forall i, j | 0 <= i < j < |rest| ensures rest[i] != rest[j] {
        assert rest[i] == sortedFiles[i + 1] && rest[j] == sortedFiles[j + 1];
      }
    }
    assert sortedFiles[0] !in rest by {
      forall i | 0 <= i < |rest| ensures rest[i] != sortedFiles[0] {
        assert rest[i] == sortedFiles[i + 1];
      }
    }
    var m := KeepMatches(fs, sortedFiles[0], rest);
    KeepMatchesDistinct(fs, sortedFiles[0], rest, m);
    forall i, j | 0 <= i < j < |s| ensures s[i] != s[j] {
      assert s[j] == m[j - 1];
      if i > 0 {
        assert s[i] == m[i - 1];
      } else {
        assert m[j - 1] in m;
      }
    }
  }

  /**
   * A set holds no path twice, its files all have the size of its first
   * file, and every file after the first has the first file's bytes.
   */
  ghost predicate Homogeneous(fs: Fs, s: seq<Path>)
  {
    && |s| >= 2 && Finder.Distinct(s) && s[0] in fs
    && (forall p :: p in s ==> p in fs && Size(fs[p]) == Size(fs[s[0]]))
    && (forall j :: 1 <= j < |s| ==> Readable(fs, s[j]) && fs[s[j]].bytes == fs[s[0]].bytes)
  }

  /** When the traversal yields each path once, every set found is homogeneous. */
  lemma DuplicateSetsHomogeneous(entries: seq<Finder.Entry>, fs: Fs, sets: seq<seq<Path>>)
    requires Finder.DistinctPaths(entries)
    requires sets == FindDuplicates(entries, fs)
    ensures forall i :: 0 <= i < |sets| ==> Homogeneous(fs, sets[i])
  {
    forall i | 0 <= i < |sets| ensures Homogeneous(fs, sets[i]) {
      FoundSetFromBucket(entries, fs, sets, i);
      SetHomogeneous(entries, fs, Size(fs[sets[i][0]]), sets[i]);
    }
  }

  lemma FoundSetFromBucket(entries: seq<Finder.Entry>, fs: Fs, sets: seq<seq<Path>>, i: nat)
    requires sets == FindDuplicates(entries, fs) && i < |sets|
    ensures |sets[i]| >= 2 && sets[i][0] in fs
    ensures BucketDuplicates(fs, Finder.Selected(entries, fs, Size(fs[sets[i][0]]))) == Some(sets[i])
  {
    DuplicateFilesSpec(entries, fs, sets);
  }

  lemma SetHomogeneous(entries: seq<Finder.Entry>, fs: Fs, k: nat, s: seq<Path>)
    requires Finder.DistinctPaths(entries)
    requires BucketDuplicates(fs, Finder.Selected(entries, fs, k)) == Some(s)
    ensures Homogeneous(fs, s)
  {
    var files := Finder.Selected(entries, fs, k);
    Finder.SelectedDistinct(entries, fs, k);
    BucketDuplicatesSound(fs, files, s);
    BucketDuplicatesDistinct(fs, files, s);
    assert s[0] in files;
  }

  /** A keep file found by the resolver is listed after the first file of no set. */
  lemma KeepNeverListed(entries: seq<Finder.Entry>, fs: Fs, sets: seq<seq<Path>>, i: nat, j: nat)
    requires Finder.DistinctPaths(entries)
    requires sets == FindDuplicates(entries, fs)
    requires i < |sets| && j < |sets|
    ensures sets[i][0] !in sets[j][1..]
  {
    DuplicateFilesSpec(entries, fs, sets);
    DuplicateSetsHomogeneous(entries, fs, sets);
    if sets[i][0] in sets[j][1..] {
      assert false;
    }
  }

  /**
   * Deleting what duplicate_files_in_directory found never loses the last
   * copy of a content, provided no two paths name one file: every keep file
   * survives with its record, and every file that disappears was listed in a
   * set whose keep file survives with the same bytes. The snapshot gives
   * each path its own record, so symbolic links and second spellings of a
   * path are outside this claim.
   */
  lemma DeletionKeepsOneCopy(entries: seq<Finder.Entry>, fs: Fs, force: bool, answers: seq<string>,
                             sets: seq<seq<Path>>, after: Fs)
    requires Finder.DistinctPaths(entries)
    requires sets == FindDuplicates(entries, fs)
    requires force || |answers| >= |sets|
    requires after == AfterDeletion(fs, sets, force, answers)
    ensures forall i :: 0 <= i < |sets| ==> sets[i][0] in fs && sets[i][0] in after && after[sets[i][0]] == fs[sets[i][0]]
    ensures forall q :: q in fs && q !in after ==>
              exists i :: 0 <= i < |sets| && q in sets[i][1..] && sets[i][0] in after
                       && after[sets[i][0]].bytes == fs[q].bytes
  {
    DuplicateSetsHomogeneous(entries, fs, sets);
    AfterDeletionSpec(fs, sets, force, answers, after);
    forall i | 0 <= i < |sets| ensures sets[i][0] in fs && sets[i][0] in after && after[sets[i][0]] == fs[sets[i][0]] {
      assert sets[i][0] in sets[i];
      forall j | 0 <= j < |sets| ensures sets[i][0] !in sets[j][1..] {
        KeepNeverListed(entries, fs, sets, i, j);
      }
    }
    forall q | q in fs && q !in after
      ensures exists i :: 0 <= i < |sets| && q in sets[i][1..] && sets[i][0] in after
                       && after[sets[i][0]].bytes == fs[q].bytes
    {
      var i :| 0 <= i < |sets| && Confirmed(force, answers, i) && q in sets[i][1..];
      var k :| 0 <= k < |sets[i]| - 1 && sets[i][1..][k] == q;
      assert sets[i][k + 1] == q;
    }
  }
}
