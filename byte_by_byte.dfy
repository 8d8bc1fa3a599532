/** modules/byte_by_byte.py: comparing two files one byte at a time. */
module ByteByByte {

  import opened FileSystem

  /** f.read(1) on a binary stream at offset pos: one byte, or b'' at end of file. */
  function ReadOne(content: seq<Byte>, pos: nat): (chunk: seq<Byte>)
    ensures chunk == [] <==> pos >= |content|
    ensures chunk != [] ==> chunk == [content[pos]]
  {
    if pos < |content| then [content[pos]] else []
  }

  function Min(a: nat, b: nat): nat
  {
    if a <= b then a else b
  }

  /**
   * compare_files_byte_by_byte: True exactly when both files can be opened
   * and hold the same bytes, so it agrees with filecmp.cmp where that returns
   * True. Files of different lengths differ once the shorter one is
   * exhausted, since b'' differs from any byte. An exception (a missing or
   * unreadable file) yields False. The loop makes at most
   * min(len1, len2) + 1 steps.
   */
  method CompareFilesByteByByte(fs: Fs, file1: Path, file2: Path) returns (identical: bool, ghost steps: nat)
    ensures identical <==> SameContent(fs, file1, file2)
    ensures identical <==> ContentEqual(fs, file1, file2) == Some(true)
    ensures Readable(fs, file1) && Readable(fs, file2) ==> steps <= Min(|fs[file1].bytes|, |fs[file2].bytes|) + 1
  {
    if !Readable(fs, file1) || !Readable(fs, file2) {
      // open() raised: the error is reported and False returned
      return false, 0;
    }
    var f1, f2 := fs[file1].bytes, fs[file2].bytes;
    var bytePosition: nat := 0;
    steps := 0;
    while true
      invariant bytePosition <= |f1| && bytePosition <= |f2|
      invariant f1[..bytePosition] == f2[..bytePosition]
      invariant steps == bytePosition
      decreases |f1| - bytePosition
    {
      steps := steps + 1;
      var b1 := ReadOne(f1, bytePosition);
      var b2 := ReadOne(f2, bytePosition);
      if b1 == [] && b2 == [] {
        assert f1 == f1[..bytePosition] && f2 == f2[..bytePosition];
        return true, steps;
      }
      if b1 != b2 {
        return false, steps;
      }
      assert f1[..bytePosition + 1] == f1[..bytePosition] + [f1[bytePosition]];
      assert f2[..bytePosition + 1] == f2[..bytePosition] + [f2[bytePosition]];
      bytePosition := bytePosition + 1;
    }
  }

  /** The comparison is reflexive on readable files. */
  lemma ContentEqualReflexive(fs: Fs, file: Path)
    requires Readable(fs, file)
    ensures ContentEqual(fs, file, file) == Some(true)
  {
  }

  /** The comparison is symmetric in its two arguments. */
  lemma ContentEqualSymmetric(fs: Fs, file1: Path, file2: Path)
    ensures ContentEqual(fs, file1, file2) == ContentEqual(fs, file2, file1)
  {
  }
}
