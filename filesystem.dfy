/**
 * The filesystem as the duplicate finder observes it: a snapshot mapping each
 * present path to what stat, open and remove would report for it. A path that
 * is not a key of the map does not exist (stat and open raise on it).
 */
module FileSystem {

  type Byte = bv8

  type Path = string

  datatype Option<T> = None | Some(value: T)

  /**
   * One regular file: its contents (whose length is the size stat reports),
   * its creation timestamp, whether opening it for reading succeeds and
   * whether os.remove on it succeeds.
   */
  datatype FileRecord = FileRecord(bytes: seq<Byte>, ctime: int, readable: bool, removable: bool)

  type Fs = map<Path, FileRecord>

  /** The size stat reports: the number of bytes in the file. */
  function Size(r: FileRecord): nat
  {
    |r.bytes|
  }

  predicate Readable(fs: Fs, p: Path)
  {
    p in fs && fs[p].readable
  }

  /** Both files exist, both open, and they hold the same bytes. */
  predicate SameContent(fs: Fs, a: Path, b: Path)
  {
    Readable(fs, a) && Readable(fs, b) && fs[a].bytes == fs[b].bytes
  }

  /**
   * filecmp.cmp(a, b, shallow=False) as an abstract content comparison. Both
   * files are stat'ed first: None stands for the exception raised when one is
   * missing. Files of different sizes compare False without being opened.
   * Otherwise both are opened and read, which raises (None) when one cannot
   * be read, and the result is whether the byte sequences are identical.
   */
  function ContentEqual(fs: Fs, a: Path, b: Path): (r: Option<bool>)
    ensures r == Some(true) <==> SameContent(fs, a, b)
    ensures r == None <==> a !in fs || b !in fs || (Size(fs[a]) == Size(fs[b]) && !(fs[a].readable && fs[b].readable))
  {
    if a !in fs || b !in fs then None
    else if Size(fs[a]) != Size(fs[b]) then Some(false)
    else if fs[a].readable && fs[b].readable then Some(fs[a].bytes == fs[b].bytes)
    else None
  }

  /**
   * os.path.join(root, name) on POSIX: an absolute name replaces the root;
   * otherwise name follows root, with one separator between them unless root
   * is empty or already ends with one.
   */
  function Join(root: Path, name: string): (joined: Path)
    ensures |name| > 0 && name[0] == '/' ==> joined == name
    ensures !(|name| > 0 && name[0] == '/') ==>
              && |root| + |name| <= |joined| <= |root| + |name| + 1
              && joined[..|root|] == root && joined[|joined| - |name|..] == name
              && (|joined| > |root| + |name| ==> joined[|root|] == '/')
  {
    if |name| > 0 && name[0] == '/' then name
    else if root == [] || root[|root| - 1] == '/' then root + name
    else root + "/" + name
  }

  /**
   * os.remove(p) on the snapshot: a present, removable file disappears;
   * otherwise it raises OSError and nothing changes.
   */
  function RemoveOne(fs: Fs, p: Path): (r: Fs)
    ensures forall q :: q in r <==> q in fs && !(q == p && fs[q].removable)
    ensures forall q :: q in r ==> r[q] == fs[q]
  {
    if p in fs && fs[p].removable then fs - {p} else fs
  }

  /** The filesystem as a mutable object, for the code that deletes files. */
  class Disk {
    var files: Fs

    constructor (files0: Fs)
      ensures files == files0
    {
      files := files0;
    }

    /** os.path.exists(p). */
    method Exists(p: Path) returns (present: bool)
      ensures present <==> p in files
    {
      present := p in files;
    }

    /** os.remove(p); false stands for the OSError it raises. */
    method Remove(p: Path) returns (removed: bool)
      modifies this
      ensures removed <==> old(p in files && files[p].removable)
      ensures files == RemoveOne(old(files), p)
    {
      removed := p in files && files[p].removable;
      files := RemoveOne(files, p);
    }
  }
}
