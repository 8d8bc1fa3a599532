/** The helper of modules/utils.py that the duplicate finder relies on. */
module Utils {

  import opened FileSystem
  import StableSort

  predicate AllPresent(fs: Fs, files: seq<Path>)
  {
    forall p :: p in files ==> p in fs
  }

  /** os.path.getctime as a sort key; it is applied to present paths only. */
  function CtimeKey(fs: Fs): Path -> int
  {
    p => if p in fs then fs[p].ctime else 0
  }

  /**
   * sorted(file_list, key=os.path.getctime): a new list holding the same
   * paths; the lemmas below state how they are ordered. The key is
   * unguarded, so every path must exist.
   */
  function SortFilesByCreationTime(fs: Fs, fileList: seq<Path>): (sortedFiles: seq<Path>)
    requires AllPresent(fs, fileList)
    ensures |sortedFiles| == |fileList| && AllPresent(fs, sortedFiles)
  {
    var r := StableSort.Sort(fileList, CtimeKey(fs));
    assert forall p :: p in r ==> p in fileList by {
      forall p | p in r ensures p in fileList {
        assert p in multiset(r);
      }
    }
    r
  }

  /** The sorted list is a permutation of the input: the same paths, each as often. */
  lemma SortFilesByCreationTimeMembers(fs: Fs, fileList: seq<Path>, sortedFiles: seq<Path>)
    requires AllPresent(fs, fileList)
    requires sortedFiles == SortFilesByCreationTime(fs, fileList)
    ensures multiset(sortedFiles) == multiset(fileList)
    ensures forall p :: p in sortedFiles <==> p in fileList
  {
    forall p ensures p in sortedFiles <==> p in fileList {
      assert p in sortedFiles <==> p in multiset(sortedFiles);
      assert p in fileList <==> p in multiset(fileList);
    }
  }

  /** The sorted list puts the oldest creation time first. */
  lemma SortFilesByCreationTimeOrdered(fs: Fs, fileList: seq<Path>, sortedFiles: seq<Path>)
    requires AllPresent(fs, fileList)
    requires sortedFiles == SortFilesByCreationTime(fs, fileList)
    ensures StableSort.SortedBy(sortedFiles, CtimeKey(fs))
  {
    StableSort.SortSorted(fileList, CtimeKey(fs));
  }

  /** Paths with equal creation times keep their input order. */
  lemma SortFilesByCreationTimeStable(fs: Fs, fileList: seq<Path>, sortedFiles: seq<Path>)
    requires AllPresent(fs, fileList)
    requires sortedFiles == SortFilesByCreationTime(fs, fileList)
    ensures StableSort.SameKeyOrder(sortedFiles, fileList, CtimeKey(fs))
  {
    StableSort.SortStable(fileList, CtimeKey(fs));
  }

  /**
   * The first path of the sorted list is the earliest-created one and, among
   * paths created at that same time, the one that came first in the input.
   */
  lemma SortedHeadIsEarliest(fs: Fs, fileList: seq<Path>)
    requires AllPresent(fs, fileList) && |fileList| > 0
    ensures SortFilesByCreationTime(fs, fileList)[0] == fileList[StableSort.FirstMinIndex(fileList, CtimeKey(fs))]
    ensures forall j :: 0 <= j < |fileList| ==>
              fs[SortFilesByCreationTime(fs, fileList)[0]].ctime <= fs[fileList[j]].ctime
    ensures forall j :: 0 <= j < StableSort.FirstMinIndex(fileList, CtimeKey(fs)) ==>
              fs[SortFilesByCreationTime(fs, fileList)[0]].ctime < fs[fileList[j]].ctime
  {
    var key := CtimeKey(fs);
    StableSort.SortHead(fileList, key);
    var i := StableSort.FirstMinIndex(fileList, key);
    var head := fileList[i];
    forall j | 0 <= j < |fileList| ensures fs[head].ctime <= fs[fileList[j]].ctime {
      assert key(head) <= key(fileList[j]);
    }
    forall j | 0 <= j < i ensures fs[head].ctime < fs[fileList[j]].ctime {
      assert key(head) < key(fileList[j]);
    }
  }
}
