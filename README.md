# DuplicateSweep core in Dafny

DuplicateSweep finds duplicate files. This project models its core:

- **Finding duplicates in one tree.** Files are grouped by size. Within each group, the oldest file (by creation time) is compared byte for byte with the others. Every group that yields at least one match becomes a duplicate set: the oldest file first, then its matches.
- **Matching a source tree against a target tree.** Each source file is paired with the first target file of the same size that compares equal.
- **Deleting.** Every file of a set except the first is deleted, after a `y` or `Y` answer, or unconditionally when forced.
- **Helpers.** Listing the files of a tree, sorting by creation time, and the byte-by-byte comparison.

The filesystem is a snapshot, `FileSystem.Fs`. It maps each present path to a record with four fields:

- the file's bytes (their count is the size `stat` reports);
- its creation time;
- whether opening it for reading succeeds;
- whether `os.remove` on it succeeds.

`filecmp.cmp(a, b, shallow=False)` is `FileSystem.ContentEqual`. Like filecmp, it looks at the sizes first: files of different sizes compare unequal without being opened. `None` stands for the exception raised on a missing file, or on an unreadable file when the sizes agree. Otherwise the result says whether the bytes are identical.

The directory traversals are inputs:

- `os.walk` is a sequence of `(root, files)` steps;
- `Path.rglob('*')` is a sequence of entries, each a path with its kind.

Python's dictionary keeps insertion order. `Finder.SizeIndex` models this with the list of sizes in first-insertion order next to the buckets.

Python's `sorted` and `list.sort` are stable sorts. The model uses one stable insertion sort, `StableSort.Sort`. `StableSort.SortedStableUnique` proves that any two sequences that are both sorted and stable permutations of the same input are equal, so the choice of algorithm does not change any result.

Modules follow the source files:

- `FileSystem` (`filesystem.dfy`): the snapshot, and the `Disk` class that deletion mutates.
- `StableSort` (`stable_sort.dfy`).
- `Utils` (`utils.dfy`): `modules/utils.py`.
- `Finder` (`finder.dfy`): `modules/finder.py`.
- `ByteByByte` (`byte_by_byte.dfy`): `modules/byte_by_byte.py`.
- `DuplicateFiles` (`duplicate_files.dfy`): `modules/duplicate_files.py`.

Each loop of the source is a Dafny `method` with loop invariants. The loops that build lists are proved equal to a recursive specification function, and the lemmas state what that function guarantees. The byte-by-byte loop is proved against byte equality and `FileSystem.ContentEqual` directly.

## Model

| member | source | states |
|---|---|---|
| FileSystem.ContentEqual | modules/duplicate_files.py:38 | filecmp reports equality exactly when both files exist, open and hold identical bytes; it raises exactly when a file is missing, or when the sizes agree and a file cannot be opened; a size mismatch is a plain inequality |
| FileSystem.Join | modules/finder.py:25 | os.path.join: an absolute name replaces the root; otherwise the joined path starts with the root, ends with the name, and anything added between them is a single '/' |
| FileSystem.RemoveOne | modules/duplicate_files.py:179-187 | os.remove takes away exactly the named path when it is present and removable; every other file keeps its record |
| FileSystem.Disk.Exists | modules/duplicate_files.py:179 | os.path.exists is true exactly for present paths |
| FileSystem.Disk.Remove | modules/duplicate_files.py:180-187 | the removal succeeds exactly when the file is present and removable; the new state is the snapshot after that one removal, and a failure changes nothing |
| ByteByByte.ReadOne | modules/byte_by_byte.py:11-12 | read(1) gives b'' exactly at end of file, and otherwise the single byte at the current position |
| ByteByByte.CompareFilesByteByByte | modules/byte_by_byte.py:1-25 | the result is True exactly when both files open and hold identical bytes, which is exactly when filecmp reports equality; files of different lengths compare unequal; open errors give False; at most min(len1, len2) + 1 steps |
| ByteByByte.ContentEqualSymmetric | modules/duplicate_files.py:38 | the content comparison gives the same answer in either argument order |
| ByteByByte.ContentEqualReflexive | modules/duplicate_files.py:38 | a readable file compares equal to itself |
| StableSort.Sort | modules/utils.py:46 | the sort returns a permutation of its input (same length, same multiset) |
| StableSort.SortSorted | modules/utils.py:46 | the sorted output is non-decreasing in the key |
| StableSort.SortStable | modules/finder.py:61 | items with equal keys keep their input order, as in Python's stable sort |
| StableSort.SortedStableUnique | modules/utils.py:46 | two sorted, stable permutations of one input are equal, so the insertion sort computes what Timsort computes |
| StableSort.SortHead | modules/utils.py:46 | the first item of the sorted output is the earliest item of minimal key in the input |
| StableSort.FirstMinIndex | modules/utils.py:46 | the index of the first item of minimal key: no later item has a smaller key, and every earlier item has a larger key |
| StableSort.InsertSorted | modules/utils.py:46 | inserting into a sorted sequence keeps it sorted |
| StableSort.KeyFilterMember | modules/utils.py:46 | the items of a given key are exactly the input items with that key |
| Utils.SortFilesByCreationTime | modules/utils.py:38-48 | the sorted list has the same length as the input, and every path in it exists |
| Utils.SortFilesByCreationTimeMembers | modules/utils.py:46 | the sorted list is a permutation of the input (same multiset, same members) |
| Utils.SortFilesByCreationTimeOrdered | modules/utils.py:46 | creation times are non-decreasing along the sorted list |
| Utils.SortFilesByCreationTimeStable | modules/utils.py:46 | paths with equal creation times keep their input order |
| Utils.SortedHeadIsEarliest | modules/utils.py:46 | the first sorted path has the minimal creation time; every input path before it was created strictly later |
| Finder.WalkPaths | modules/finder.py:22-26 | get_all_files lists one path per file entry of the walk |
| Finder.WithSizes | modules/finder.py:52-58 | each walked path is paired, in walk order, with the size stat reports for it |
| Finder.WithSizesSnoc | modules/finder.py:52-58 | appending one more walked file appends its (path, size) pair |
| Finder.WalkPathsAt | modules/finder.py:22-26 | the path at the position of file j of walk step i is os.path.join(root, name) of that entry |
| Finder.GetAllFiles | modules/finder.py:8-32 | the nested loop returns exactly the joined paths of the walk, in walk order |
| Finder.GetFilesWithSize | modules/finder.py:35-67 | the result is a permutation of the (path, size) pairs of the walk, sorted by size, with equal sizes in walk order |
| Finder.GroupFilesBySize | modules/finder.py:70-101 | the loop over the rglob entries builds the dictionary that the recursive definition describes |
| Finder.AddEntry | modules/finder.py:88-94 | one rglob entry adds the key of its size exactly when it is an existing regular file, whose path then ends that bucket; other keys are kept, and the key order only grows, by at most one key |
| Finder.SizeGroups | modules/finder.py:82-96 | the defaultdict never holds an empty list, and has at most one key per traversal entry |
| Finder.Selected | modules/finder.py:88-94 | the files selected for a size exist and have that size |
| Finder.SelectedMember | modules/finder.py:88-94 | a path is selected for size k exactly when it is a regular-file entry that exists and has size k |
| Finder.StatSizesMember | modules/finder.py:88-94 | a size occurs among the stat results exactly when some file is selected for it |
| Finder.FirstOccurrencesSpec | modules/finder.py:94 | the dictionary's key order holds every size once, and only sizes that occur |
| Finder.SizeGroupsSpec | modules/finder.py:82-96 | the dictionary has a bucket for exactly the sizes of existing regular files; each bucket lists the files of that size in traversal order; the keys are in first-insertion order |
| Finder.SelectedSnoc | modules/finder.py:88-94 | one more traversal entry adds its path to the bucket of its size, and to no other bucket |
| Finder.AddFileSpec | modules/finder.py:92-94 | appending a regular file to the bucket of its size preserves the dictionary's description |
| Finder.SizeGroupsOrder | modules/finder.py:82-96 | every key occurs once in the iteration order, and the keys iterated are exactly the dictionary's keys |
| Finder.BucketMembers | modules/finder.py:88-94 | a path is in bucket k exactly when it is a traversed regular file that exists with size k |
| Finder.SelectedDistinct | modules/finder.py:88-94 | when the traversal yields each path once, no bucket lists a path twice |
| Finder.BucketsDistinct | modules/finder.py:88-94 | when the traversal yields each path once, every bucket of the dictionary is free of repeats |
| DuplicateFiles.BucketDuplicates | modules/duplicate_files.py:27-45 | a bucket yields a set only when the set holds at least two paths, and no more paths than the bucket |
| DuplicateFiles.KeepMatches | modules/duplicate_files.py:35-42 | the files kept are exactly the remaining files that filecmp finds equal to the keep file; comparison errors drop the file |
| DuplicateFiles.KeepFile | modules/duplicate_files.py:29-31 | the keep file is a member of the bucket with the earliest creation time, the first such in bucket order |
| DuplicateFiles.CollectMatches | modules/duplicate_files.py:33-42 | the inner loop builds the keep file followed by its matches |
| DuplicateFiles.BucketDuplicatesUnfold | modules/duplicate_files.py:27-45 | a bucket of more than one file contributes its list exactly when that list holds at least two paths |
| DuplicateFiles.BucketDuplicatesShape | modules/duplicate_files.py:29-45 | the first sorted file is the keep file, and a bucket contributes exactly when some other file matches it |
| DuplicateFiles.BucketDuplicatesSound | modules/duplicate_files.py:27-45 | a contributed set has at least two paths, starts with the keep file, holds only bucket files, each equal in content to the keep file, and no file whose comparison fails |
| DuplicateFiles.BucketDuplicatesOrdered | modules/duplicate_files.py:29-39 | the files of a set are in creation-time order |
| DuplicateFiles.BucketDuplicatesComplete | modules/duplicate_files.py:35-45 | every bucket file equal in content to the keep file is in the bucket's set |
| DuplicateFiles.BucketDuplicatesDistinct | modules/duplicate_files.py:29-45 | a bucket without repeats yields a set without repeats |
| DuplicateFiles.KeepMatchesSorted | modules/duplicate_files.py:35-39 | filtering keeps the creation-time order of the sorted files |
| DuplicateFiles.KeepMatchesDistinct | modules/duplicate_files.py:35-39 | filtering a list without repeats gives a list without repeats |
| DuplicateFiles.BucketSetSized | modules/duplicate_files.py:26-45 | the set of bucket k starts with an existing file of size k |
| DuplicateFiles.DuplicateSetsStep | modules/duplicate_files.py:26-53 | one loop iteration appends the set of the current bucket, when there is one |
| DuplicateFiles.DuplicateSetsSnoc | modules/duplicate_files.py:26-53 | the sets for one more size are the previous sets, plus the new bucket's set when it has one |
| DuplicateFiles.DuplicateSetsFrom | modules/duplicate_files.py:26-45 | every emitted set is the set of the bucket of its first file's size, and that size was iterated |
| DuplicateFiles.DuplicateSetsApart | modules/duplicate_files.py:26-45 | no two emitted sets come from buckets of the same size |
| DuplicateFiles.DuplicateSetsComplete | modules/duplicate_files.py:26-45 | the set of every iterated bucket that has one is emitted |
| DuplicateFiles.DuplicateSetsSpec | modules/duplicate_files.py:26-45 | the emitted list holds exactly the buckets' sets, one per size |
| DuplicateFiles.SizeGroupsWellFormed | modules/duplicate_files.py:18 | the dictionary's buckets hold existing files of their own size, and its keys are iterated once each |
| DuplicateFiles.FindDuplicates | modules/duplicate_files.py:10-64 | every returned set has at least two paths |
| DuplicateFiles.FindDuplicatesIs | modules/duplicate_files.py:18-26 | the result is the sets of the dictionary's buckets in its iteration order |
| DuplicateFiles.DuplicateFilesInDirectory | modules/duplicate_files.py:10-64 | the loop over the dictionary returns exactly the sets the specification function describes |
| DuplicateFiles.DuplicateFilesSpec | modules/duplicate_files.py:10-64 | each returned set is the set of the traversed files of its size; sizes are never repeated; every size whose files yield a set contributes it |
| DuplicateFiles.NoDuplicatesIffNoBucketQualifies | modules/duplicate_files.py:55-58 | the empty list is returned exactly when no size group yields a set |
| DuplicateFiles.DuplicateSetsHomogeneous | modules/duplicate_files.py:26-45 | when the traversal yields each path once, every set is free of repeats, has one size, and all members equal the first in content |
| DuplicateFiles.FoundSetFromBucket | modules/duplicate_files.py:26-45 | each returned set is the set of the traversed files of its first file's size |
| DuplicateFiles.SetHomogeneous | modules/duplicate_files.py:27-45 | a bucket's set is free of repeats, has one size, and all members equal the first in content |
| DuplicateFiles.KeepNeverListed | modules/duplicate_files.py:31-45 | no keep file of any set is listed for deletion in any set |
| DuplicateFiles.CompareTwoFiles | modules/duplicate_files.py:67-91 | the target path is returned exactly when both files open and hold identical bytes; size mismatches and errors give None |
| DuplicateFiles.Truthy | modules/duplicate_files.py:124 | only a returned path can be truthy: None and the empty string are falsy |
| DuplicateFiles.FirstMatchIndex | modules/duplicate_files.py:122-126 | the position of the first truthy comparison result, or the end of the list when no result is truthy |
| DuplicateFiles.FirstMatchIndexIs | modules/duplicate_files.py:122-126 | any position before which every result is falsy, and at which the result is truthy, is the first match |
| DuplicateFiles.FirstTruthyResult | modules/duplicate_files.py:117-126 | reading the futures in submission order returns the result of the first truthy comparison, or nothing when none is truthy |
| DuplicateFiles.PairFor | modules/duplicate_files.py:111-126 | a source file's pair is [target, source], with the target taken from the bucket of the source's size |
| DuplicateFiles.PairForResult | modules/duplicate_files.py:113-126 | the pair the loop appends for a source file is the one the specification function gives |
| DuplicateFiles.PairForSound | modules/duplicate_files.py:111-126 | a source file's pair is [target, source]: the target is the first truthy match in the bucket of the source's size, and equal in content |
| DuplicateFiles.PairForComplete | modules/duplicate_files.py:111-126 | a source file with an equal-content, non-empty target path of its size is paired |
| DuplicateFiles.CrossPairsStep | modules/duplicate_files.py:110-128 | one loop iteration appends the current source file's pair, when there is one |
| DuplicateFiles.CrossPairsSnoc | modules/duplicate_files.py:110-128 | the pairs for one more source file are the previous pairs, plus that file's pair |
| DuplicateFiles.PairedSources | modules/duplicate_files.py:110-126 | the paired source files are exactly the source files that have a pair |
| DuplicateFiles.CrossPairsSpec | modules/duplicate_files.py:110-126 | the list holds one pair per paired source file, in source order |
| DuplicateFiles.CrossMatchesIs | modules/duplicate_files.py:104-110 | the loop's inputs, the source walk and the target dictionary, give the pairs of the specification function |
| DuplicateFiles.DuplicateFilesFromSourceWithTarget | modules/duplicate_files.py:94-148 | the loop returns exactly the pairs the specification function describes |
| DuplicateFiles.PairInTarget | modules/duplicate_files.py:113-125 | a pair's target is the first truthy match among the traversed target files of the source's size |
| DuplicateFiles.TargetPaired | modules/duplicate_files.py:113-125 | a source file with an equal-content target file of its size is paired |
| DuplicateFiles.PairsSound | modules/duplicate_files.py:110-126 | every pair is [target, source] with a source file, and a target that is the first equal-content file of the source's size |
| DuplicateFiles.PairsComplete | modules/duplicate_files.py:110-126 | every source file with an equal-content target file of its size appears in some pair |
| DuplicateFiles.PairsFollowSources | modules/duplicate_files.py:110-126 | pair i has two paths and its source is paired source i |
| DuplicateFiles.PairedSourcesDistinct | modules/duplicate_files.py:110-126 | when the walk lists each source path once, no source file is paired twice |
| DuplicateFiles.CrossMatchesSpec | modules/duplicate_files.py:94-148 | each pair is [first equal-content target of the source's size, source]; the pairs follow the order of the paired source files, one pair each, so a walk listing each path once gives at most one pair per source file; every source file that has such a target is paired |
| DuplicateFiles.SameTreeExample | modules/duplicate_files.py:104-125 | matching a tree against itself pairs a file with itself |
| DuplicateFiles.LowerChar | modules/duplicate_files.py:175 | str.lower on one character, for ASCII: leaves no ASCII capital and keeps every character that is not an ASCII capital |
| DuplicateFiles.Lower | modules/duplicate_files.py:175 | str.lower, for ASCII: keeps the length, leaves no ASCII capital, and keeps every character that is not an ASCII capital |
| DuplicateFiles.ConfirmsExactly | modules/duplicate_files.py:175 | confirm.lower() == "y" holds exactly for the answers "y" and "Y" |
| DuplicateFiles.Confirmed | modules/duplicate_files.py:169-176 | a set is deleted exactly when force is set or the answer read for it is "y" or "Y" |
| DuplicateFiles.RemoveEach | modules/duplicate_files.py:178-187 | the removals only take files away: every surviving file keeps its record |
| DuplicateFiles.AfterDeletion | modules/duplicate_files.py:161-187 | deletion only takes files away: every surviving file keeps its record |
| DuplicateFiles.DeleteDuplicateFiles | modules/duplicate_files.py:151-187 | the files left on the disk are exactly those the specification function describes |
| DuplicateFiles.AfterDeletionSnoc | modules/duplicate_files.py:161-187 | handling one more set removes its non-first files exactly when that set is confirmed |
| DuplicateFiles.RemoveEachSnoc | modules/duplicate_files.py:178-187 | removing one more path acts on the snapshot left by the earlier removals |
| DuplicateFiles.RemoveEachSpec | modules/duplicate_files.py:178-187 | after the removals, a file is gone exactly when it was listed and removable; the survivors keep their records |
| DuplicateFiles.DoomedSnoc | modules/duplicate_files.py:161-187 | a file is condemned by the sets exactly when it is condemned by the earlier sets, or listed after the first position of a confirmed last set |
| DuplicateFiles.AfterDeletionSpec | modules/duplicate_files.py:160-187 | a file disappears exactly when it is removable and listed after the first position of a confirmed set; nothing else changes |
| DuplicateFiles.DeletePairExamples | modules/duplicate_files.py:169-187 | forced and "Y" runs delete the second file, an "n" answer deletes nothing, and a pair naming one file twice deletes that file |
| DuplicateFiles.DeletionKeepsOneCopy | modules/duplicate_files.py:151-187 | when no two paths name one file, deleting the sets found in one tree leaves every keep file untouched, and every deleted file has a surviving keep file with identical bytes |
| DuplicateFiles.PermutationDistinct | modules/duplicate_files.py:29 | re-ordering a list without repeats leaves no repeats |

## Left out

- Printing is not modelled: colours, progress bars, verbose output and error messages. Exceptions that the source catches and only reports are modelled by the value the code goes on with.
- `convert_size` and `get_human_readable_time` in `modules/utils.py` are display helpers and are not modelled.
- `modules/cli.py` and `modules/hashing.py` are not part of this model.
- `ThreadPoolExecutor` is modelled sequentially. Its results are read in submission order, as the source reads them, so the outcome does not depend on scheduling. `max_workers` is dropped.
- The filesystem is a static snapshot: no concurrent changes, and no races between `stat` and `open`. `os.walk` and `rglob` are given as sequences. That rglob lists each path once is a precondition of the lemmas that need it (`Finder.DistinctPaths`).
- Creation times are integers, not floats.
- DuplicateFiles.Lower, DuplicateFiles.LowerChar: `str.lower` is modelled on ASCII letters only. Python also lowers other letters (`'É'` to `'é'`), and `'İ'` becomes two characters. This does not change the comparison with `"y"`: only `"y"` and `"Y"` lower to `"y"` in Python as well, so `DuplicateFiles.Confirmed` is exact.
- `input()` is a sequence of answers, one per set. End of input, which raises `EOFError`, is excluded by a precondition.
- The `count` variable of `group_files_by_size` only feeds a message and is not modelled.
- Timsort is replaced by a stable insertion sort. `StableSort.SortedStableUnique` shows that the results are the same.
- Utils.SortFilesByCreationTime: `os.path.getctime` is unguarded, so a missing file raises. The model requires every path to exist instead of modelling the exception.
- Finder.GetFilesWithSize: `os.path.getsize` is unguarded, so a missing file raises. The model requires every walked path to exist.
- DuplicateFiles.DuplicateFilesFromSourceWithTarget: `os.path.getsize(source_file)` on line 111 is unguarded. The model requires every source path to exist.
- DuplicateFiles.DeleteDuplicateFiles: an empty inner list, where `files[0]` raises `IndexError`, is excluded by a precondition.
- DuplicateFiles.DeleteDuplicateFiles: the docstring says the function returns the deleted files, but the code returns nothing. The model follows the code.
- DuplicateFiles.CollectMatches is the inner loop of `duplicate_files_in_directory`, extracted as its own method.
- DuplicateFiles.FirstTruthyResult is the loop over the futures in `duplicate_files_from_source_directory_with_target_directory`, extracted as its own method.
- FileSystem.ContentEqual: filecmp's stat-signature cache and buffer sizes are not modelled. filecmp also reports two non-regular files (FIFOs, sockets, devices) unequal without opening them. `os.walk` lists such files, but the model has no kind of file but the regular file: every walked path is a record with bytes, so filecmp's regular-file check is not modelled.
- DuplicateFiles.DeletionKeepsOneCopy assumes that no two paths name one file: the snapshot is keyed by the path string, so there are no symbolic links, hard links or second spellings of a path. The program itself can lose the only copy through a link. Say the tree holds a symbolic link L to a regular file F. rglob yields L, and `is_file()`, `stat()` and `getctime` follow the link, so L joins F's bucket with F's creation time, and filecmp finds them equal. If L comes first, the set is [L, F] and F is removed, which leaves L dangling. `FileSystem.RemoveOne` and `DuplicateFiles.AfterDeletionSpec` still say correctly which directory entries are removed.
- DuplicateFiles.DeletionKeepsOneCopy covers only the sets found in one tree. Cross-tree pairs can name one file twice when the trees overlap (`DuplicateFiles.SameTreeExample`), and then deleting the pair removes the only copy (`DuplicateFiles.DeletePairExamples`). With overlapping trees the two walks can also spell one file differently, such as `./d/a` from `os.walk` and `d/a` from `str(Path)`. The model treats those as two files.
- In the cross-tree report, line 140 reads the size of the source file where the target file was evidently meant. The value is only printed, so the model has nothing to correct.
