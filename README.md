# FileSpacer engine, modelled in Dafny

This project models the engine of FileSpacer, the `FileSpacer` class in
`filespacer/filespacer.py`. It covers:

- compressing one file with zstd, with an optional SHA-256 sidecar;
- compressing a folder into a zstd-compressed PAX tar stream;
- extracting a `.zst` file, after sniffing whether the decompressed data is a tar archive;
- extracting ZIP archives with exclusion patterns and a path guard;
- the `CompressionStats` record and the `get_stats` last-result field.

The model follows the class's own branches, error conditions and constants. The libraries it calls stay abstract.

| file | module | what it holds |
|---|---|---|
| `base.dfy` | `Base` | bytes, `Option`/`Result`, the substring test, `Flatten` and `Filter` with their lemmas |
| `sniffer.dfy` | `Sniffer` | `_is_tar_format`: the `strip`, `find` and octal tests, the classifier, and its complete characterisation |
| `streams.dfy` | `Streams` | a `Reader` class with Python's `read(n)`, and the chunked read loop shared by hashing, compression and single-file decompression |
| `paths.dfy` | `Paths` | path joining, the textual traversal guard, `Path.name`, the sidecar's name and text, and `str.split()[0]` |
| `stats.dfy` | `Stats` | `CompressionStats` and the zero-guarded ratio |
| `archives.dfy` | `Archives` | folder file selection and packing, the ZIP and tar member loops, and the capped ZIP failure report |
| `filespacer.dfy` | `Engine` | the abstract `Library` and `Config`, a `Disk` of files, the `FileSpacer` class, and properties that span operations |

Modelling choices:

- **Libraries.** zstd, SHA-256, `tarfile`, `zipfile` and text encoding are the function-valued fields of a `Library` value. Each operation's outcome is a function of the files before it, such as `CompressFilePlan`. Each state-changing method is proved to produce that outcome.
- **Chunk size.** `chunk_size` is an unbounded integer taken from the configuration, as in the source. With chunk size 0 the first `read(0)` is empty, so nothing is hashed, compressed or written. With chunk size -1 the first read takes everything. Both an opened file and the zstd stream reader raise `ValueError` for a size below -1, so `compress_file` then fails and removes its output, and the single-file branch of `extract_zst` fails and cleans up (`Engine.RejectedReadSizeFails`).
- **Behaviour as coded.** Four behaviours of the code that a reader might not expect:
  - The traversal guard is the plain prefix test `str(root / member).startswith(str(root))`. It does not canonicalise. `Paths.TraversalPassesGuard` shows that a member named `../evil.txt` passes it. `Paths.SiblingPassesGuard` shows the same for an absolute sibling path that extends the root's text.
  - The octal test strips NUL and space from each end of a field. It then needs the rest to be non-empty and all octal digits. So an all-padding field or one with interior padding fails it.
  - The fallback needs the first NUL of the whole sample strictly between index 0 and index 100, and also a non-blank mode field.
  - `extract_zip` collects only `BadZipFile`, `LargeZipFile` and `zlib.error` per member. Any other member exception ends the extraction with `ExtractionError`. The method returns False, not a partial-success value, when failures were collected.

## Model

| member | source | states |
|---|---|---|
| `Base.Contains` | filespacer/filespacer.py:163 | Python's `pat in hay`: true exactly when the pattern occurs at some index of the haystack |
| `Sniffer.Strip` | filespacer/filespacer.py:489-492 | `strip(b"\x00 ")`: the result is a contiguous window of the field, empty exactly when the field is all padding, with non-padding bytes at both ends |
| `Sniffer.StripOctalIff` | filespacer/filespacer.py:489-498 | a field passes "stripped, non-empty, all octal digits" exactly when it is padding, then a non-empty run of octal digits, then padding |
| `Sniffer.Find` | filespacer/filespacer.py:502 | `bytes.find`: -1 when the byte is absent, otherwise the index of its first occurrence |
| `Sniffer.IsTarFormat` | filespacer/filespacer.py:479-509 | `_is_tar_format`: the magic in the first 512 bytes means tar; without it, tar needs a full 512-byte sample and a mode field that is not blank |
| `Sniffer.SampleMagic` | filespacer/filespacer.py:482 | `b"ustar" in data[:512]` holds exactly when the magic lies entirely within the first 512 bytes |
| `Sniffer.FindFirstNul` | filespacer/filespacer.py:502-503 | `0 < data.find(b"\x00") < 100` exactly when the first NUL byte lies strictly between 0 and 100 |
| `Sniffer.IsTarFormatIff` | filespacer/filespacer.py:479-509 | the full classifier: tar exactly when the magic is in the first block, or a full block has padded-octal mode, uid and gid, or a full block has a non-blank mode and its first NUL strictly inside (0, 100) |
| `Sniffer.MagicMeansTar` | filespacer/filespacer.py:482-483 | any sample with "ustar" in its first 512 bytes is tar, whatever its length |
| `Sniffer.UstarHeaderMeansTar` | filespacer/filespacer.py:482-483 | a sample that starts with a ustar/pax header (magic at offset 257) is tar |
| `Sniffer.OctalHeaderMeansTar` | filespacer/filespacer.py:487-498 | a full block with padded-octal mode, uid and gid fields is tar |
| `Sniffer.SingleFileCases` | filespacer/filespacer.py:482-509 | without the magic, a sample shorter than 512 bytes, or one with an all-padding mode field, is not tar |
| `Sniffer.FallbackDecides` | filespacer/filespacer.py:500-506 | without the magic and with the octal test failing, the first-NUL fallback alone decides |
| `Sniffer.NulBlocksNotTar` | filespacer/filespacer.py:482-509 | a sample of NUL bytes only, such as a tar writer's end-of-archive blocks, is not tar |
| `Streams.Reader.Read` | filespacer/filespacer.py:244 | `read(n)`: returns the next bytes, in order; for n > 0 a non-empty piece of at most n bytes while data remains; for n == -1 all of the rest; for n == 0 nothing; a size below -1 raises and reads nothing; a corrupt decompressing stream raises at the end instead of returning empty |
| `Streams.StreamChunks` | filespacer/filespacer.py:239-249 | the chunked loop, also used for hashing (lines 109-115) and decompression (lines 444-452): every chunk is non-empty and at most the chunk size; the chunks concatenate to exactly what `Fed` says the loop hands on; `bytes_processed` equals what was handed on; chunk size 0 or a size below -1 hands on nothing; the loop fails exactly when the size is below -1, or the stream is corrupt and the size is non-zero |
| `Streams.Fed` | filespacer/filespacer.py:113 | what a chunked loop hands on is either nothing or the whole input; the whole input exactly when it is empty or the chunk size is non-zero and at least -1 |
| `Paths.PathGuardIff` | filespacer/filespacer.py:169-172 | on the root's text as given, with no pathlib normalisation: the guard passes every relative member, and an absolute member exactly when its text starts with the root's (an output of "." is not covered, see "## Left out") |
| `Paths.Join` | filespacer/filespacer.py:169 | `root / member` without normalisation: an absolute member replaces the root; a relative one follows the root's text and one separator (so `Join(".", m)` is `./m`, where pathlib gives `m`) |
| `Paths.PathGuard` | filespacer/filespacer.py:169-170 | for a root kept as written (not ".", "" or "./"), the guard passes every relative member, whatever ".." segments it holds |
| `Paths.TraversalPassesGuard` | filespacer/filespacer.py:169-172 | a member `../evil.txt` is not rejected by the guard |
| `Paths.SiblingPassesGuard` | filespacer/filespacer.py:426-429 | an absolute member in a sibling directory whose name extends the root's is not rejected |
| `Paths.RelativeTargetUnderRoot` | filespacer/filespacer.py:169 | a relative member is written at the root, a separator, then the member |
| `Paths.Name` | filespacer/filespacer.py:258 | `Path.name`: the part of the path after its last separator, containing no separator |
| `Paths.SidecarPath` | filespacer/filespacer.py:257 | the sidecar's path extends the archive's path, so it sits next to it under a longer name |
| `Paths.SidecarText` | filespacer/filespacer.py:258 | the sidecar text starts with the digest and ends with a newline, with two spaces and the name in between |
| `Paths.FirstToken` | filespacer/filespacer.py:394 | `split()[0]`: none exactly when the text is all whitespace, otherwise the first maximal whitespace-free word |
| `Paths.SidecarRoundTrip` | filespacer/filespacer.py:256-258 | the first token of `"<digest>  <name>\n"` is the digest, for every whitespace-free digest and every file name |
| `Stats.Ratio` | filespacer/filespacer.py:265 | ratio times compressed size equals original size when compressed size > 0; otherwise 0; never negative |
| `Stats.RatioAboveOne` | filespacer/filespacer.py:354 | the ratio exceeds 1 exactly when the output is smaller than the input |
| `Stats.MakeStats` | filespacer/filespacer.py:260-266 | the record carries the given sizes, duration and count, and a ratio consistent with its sizes |
| `Archives.SelectFiles` | filespacer/filespacer.py:314-322 | collects, in walk order, the files whose relative path contains no exclude pattern, and `total_size` is the sum of their sizes |
| `Archives.SelectionIff` | filespacer/filespacer.py:316-320 | a walked path is selected exactly when it is a file and no exclude pattern is a substring of its path relative to the folder |
| `Archives.TotalSize` | filespacer/filespacer.py:322 | `total_size` is at least the size of every collected file |
| `Archives.EmptyPatternExcludesAll` | filespacer/filespacer.py:318 | an empty exclude pattern excludes every file |
| `Archives.ArcNameUnderFolder` | filespacer/filespacer.py:338 | the archive name is the folder's own name, a separator, then the file's path inside the folder |
| `Archives.Packed` | filespacer/filespacer.py:336-344 | the packed records are no more than the selected files |
| `Archives.AddFiles` | filespacer/filespacer.py:336-344 | the packing loop writes one record per file that `tar.add` accepts, and `files_processed` counts exactly those, at most the number selected |
| `Archives.PackedIff` | filespacer/filespacer.py:336-342 | a record is packed exactly when some selected, addable file produced it, under its folder-prefixed name and with its bytes |
| `Archives.ZipVerdict` | filespacer/filespacer.py:161-180 | a member that fails with a collected failure failed with one of the three caught exception kinds |
| `Archives.ZipPlan` | filespacer/filespacer.py:161-180 | the member loop, one member at a time; a completed loop extracts and fails no more members than the archive holds |
| `Archives.AbortPersists` | filespacer/filespacer.py:166-180 | once an uncollected exception escapes, later members change nothing |
| `Archives.ZipPlanFilters` | filespacer/filespacer.py:161-180 | the loop aborts exactly when some member raises an uncollected exception, naming the first; otherwise the extracted names and the failures are, in order, the members judged written and failed |
| `Archives.ZipPlanAborts` | filespacer/filespacer.py:166-180 | the loop aborts exactly when some member raises an exception outside the three collected kinds, and then names the first such member |
| `Archives.ZipPlanCompletes` | filespacer/filespacer.py:161-180 | a completed loop extracted, in order, the members judged written and collected, in order, the members judged failed |
| `Archives.ZipPlanSafe` | filespacer/filespacer.py:161-193 | after a completed loop, no extracted or failed name contains an exclude pattern, all pass the guard, failures are of the three kinds, and extracted plus failed is at most the member count |
| `Archives.TarWrittenIff` | filespacer/filespacer.py:423-436 | a tar member is written exactly when its joined path passes the guard and its extraction raises nothing; a relative member's joined path text begins with the root and a separator, whatever ".." segments follow |
| `Archives.Report` | filespacer/filespacer.py:183-190 | no failures: one success line with the count; otherwise the error count, the first five failures in order, and an "N-5 more" line when there are more than five |
| `Engine.Cleanup` | filespacer/filespacer.py:468-476 | after cleanup nothing at or under the output path remains, and every other file is untouched |
| `Engine.WriteMembers` | filespacer/filespacer.py:423-431 | after writing members, a path string holds a file exactly when it held one before or is some member's joined path; path strings no member names keep their contents |
| `Engine.ChunkSizeOf` | filespacer/filespacer.py:74 | the configured chunk size, or without one the 1 MiB default, which `read` accepts |
| `Engine.LevelFor` | filespacer/filespacer.py:213 | a non-zero argument level is used as given; a zero or absent one falls back to the configured level or 3, so the level is 0 only when the configuration says 0 (also line 294) |
| `Engine.ReadDigest` | filespacer/filespacer.py:390-397 | the expected digest is a non-empty word without whitespace; none exactly when the sidecar cannot be decoded or is blank |
| `Engine.WithSidecar` | filespacer/filespacer.py:255-258 | the sidecar, holding the digest and the input's name, is written exactly when a non-empty digest was computed; no other path changes |
| `Engine.CompressFilePlan` | filespacer/filespacer.py:203-281 | `compress_file` succeeds exactly when the input exists and `read` accepts the chunk size; a missing input raises `CompressionError` and changes nothing |
| `Engine.CompressFileEffects` | filespacer/filespacer.py:235-273 | a successful compression writes the compression of exactly the input's bytes, writes a sidecar with the digest and the file name exactly when hashing is on and the digest is non-empty, changes no other file, and reports one file with a consistent ratio |
| `Engine.RejectedReadSizeFails` | filespacer/filespacer.py:109-115 | with a chunk size below -1, `compress_file` raises `CompressionError` and removes its output (lines 240-281), and the single-file branch of `extract_zst` raises `ExtractionError` and leaves nothing at or under the output (lines 444-477) |
| `Engine.CompressFolderPlan` | filespacer/filespacer.py:299-302 | `compress_folder` succeeds exactly when the input is a directory; otherwise it raises `CompressionError` and changes nothing |
| `Engine.CompressFolderEffects` | filespacer/filespacer.py:304-364 | a successful folder compression writes the compressed tar of the packed records and changes no other file; `original_size` is the selected total, `files_processed` the number of packed records, at most the number selected, and the ratio is consistent |
| `Engine.LooksLikeTar` | filespacer/filespacer.py:399-411 | a stream that raises within its first 512 decoded bytes is not taken for tar; one taken for tar passes `_is_tar_format` on its first 512 bytes |
| `Engine.ExtractZstPlan` | filespacer/filespacer.py:379-382 | a missing input raises `ExtractionError` and changes nothing; every failure is an `ExtractionError` |
| `Engine.ExtractZstFailureCleansUp` | filespacer/filespacer.py:468-477 | a failed extraction of an existing archive fails for a corrupt stream or a rejected chunk size, and leaves nothing at or under the output path |
| `Engine.HashMismatchOnlyWarns` | filespacer/filespacer.py:440-466 | on the single-file branch a readable stream read with a chunk size `read` accepts always succeeds and writes the decoded bytes; integrity is unchecked exactly when there is no digest or checking is off, and a mismatch is reported, never raised |
| `Engine.TarBranchWrites` | filespacer/filespacer.py:414-438 | on the tar branch, when the stream does not break off, exactly the members passing the guard and raising nothing are written, and their number is reported |
| `Engine.ExtractTarMembers` | filespacer/filespacer.py:423-436 | the tar member loop writes exactly the guarded, non-failing members in order and counts them |
| `Engine.ZipWritesFrame` | filespacer/filespacer.py:161-180 | a ZIP extraction adds or changes only the places of members judged written; every other file keeps its contents; a completed loop writes every such member |
| `Engine.ZipWritesPersist` | filespacer/filespacer.py:166-180 | once an uncollected exception escapes, later members write nothing |
| `Engine.ZipWritesStayUnder` | filespacer/filespacer.py:174 | if the ZIP library places every member at or under the output directory, no file outside it changes |
| `Engine.ExtractZipMembers` | filespacer/filespacer.py:161-180 | the member loop, proved equal to the one-member-at-a-time plan and to its writes, stopping at the first uncollected exception |
| `Engine.FileSpacer.constructor` | filespacer/filespacer.py:75 | a new engine has no statistics, and its chunk size is the configured one or 1 MiB |
| `Engine.FileSpacer.GetStats` | filespacer/filespacer.py:511-513 | returns the last statistics, whose ratio agrees with their sizes |
| `Engine.FileSpacer.CalculateHash` | filespacer/filespacer.py:109-115 | the digest covers exactly the file's bytes (none for chunk size 0); the call raises exactly when `read` rejects the chunk size |
| `Engine.FileSpacer.CompressFile` | filespacer/filespacer.py:203-281 | produces the `compress_file` outcome; on success the engine's last statistics are the result, on failure they are unchanged |
| `Engine.FileSpacer.CompressFolder` | filespacer/filespacer.py:283-370 | produces the `compress_folder` outcome; on success the last statistics are the result, on failure they are unchanged |
| `Engine.FileSpacer.ExtractZst` | filespacer/filespacer.py:372-477 | produces the `extract_zst` outcome, including the sniff, both branches, cleanup and the digest check |
| `Engine.FileSpacer.ExtractZip` | filespacer/filespacer.py:117-201 | a missing input or an unreadable archive raises `ExtractionError` and writes nothing; an uncollected member exception raises `ExtractionError` (the model records which member raised); the disk ends with the loop's writes up to that point; otherwise success exactly when no failures were collected, with the report lines and extracted plus failed at most the member count |
| `Engine.SidecarReadsBack` | filespacer/filespacer.py:390-397 | the sidecar written by compression reads back, by its first token, as the digest written |
| `Engine.FileRoundTrip` | filespacer/filespacer.py:372-466 | compressing a file and extracting the result restores its bytes and verifies them, when the codec round-trips, the chunk size is non-zero and accepted by `read`, and the bytes do not look like tar |
| `Engine.UstarFileTakenForArchive` | filespacer/filespacer.py:399-414 | a compressed single file with "ustar" in its first 512 bytes is taken for a tar archive on extraction and never restored as one file |
| `Engine.FolderRoundTrip` | filespacer/filespacer.py:414-436 | when at least one file was packed, compressing a named folder and extracting the result reports every packed record and writes each packed file at destination/folder/path |
| `Engine.EmptyFolderExtractsAsFile` | filespacer/filespacer.py:334-339 | when nothing was packed, the all-NUL tar stream is not sniffed as tar (lines 399-411), so extraction writes one file of NUL bytes at the destination instead of a folder |
| `Engine.PackedAllWritten` | filespacer/filespacer.py:336-338 | every record packed for a named folder passes the tar extraction guard |
| `Engine.ExtractedAt` | filespacer/filespacer.py:336-338 | a packed file lands at destination, separator, folder name, separator, its path inside the folder |
| `Engine.PackedNamesRelative` | filespacer/filespacer.py:338 | every record packed for a named folder has a relative name |
| `Engine.PasswordSet` | filespacer/filespacer.py:141-142 | a password is set exactly when one is given and it is not empty |

## Left out

- Logging, the progress callback and `tqdm` bars are left out. The ZIP report is kept as a list of line values, not as text.
- Configuration loading is left out: `_load_default_config`, `config or default`, and the `parallel_threads`/`threads` settings. The configuration is a value with the two keys the engine reads.
- The ZIP integrity pre-check `testzip` is left out. It only logs, and so does the `verify_integrity` setting that gates it.
- The wall clock is a parameter: `duration` is passed in. Sizes and ratios use exact integers and reals, not IEEE floats.
- Directory creation (`mkdir`) and `is_dir` are left out.
  - The disk holds files only.
  - What `rglob("*")` yields is a parameter of `CompressFolder`, with no directory meaning "not a directory". Its order, and its link to the disk's files, are not modelled. This includes an output placed inside the input folder.
- I/O failures other than a missing input and a rejected chunk size are left out: permissions, a full disk, a path naming a directory, and codec errors during compression. A refused `tar.add` is modelled as writing nothing to the archive, though the streaming tar writer may already have emitted part of that record. As a result, the cleanup branch of `compress_folder` (lines 366-370) cannot be reached in the model, and `compress_file` reaches its cleanup (lines 276-281) only through a rejected chunk size.
- Path normalisation by pathlib is left out: ".", "..", and doubled or trailing separators. The folder "." and paths with ".." segments are therefore outside the model's archive-name rule.
- Paths.PathGuardIff: the join keeps the root's text, so an output directory of ".", "" or "./" is not modelled as pathlib treats it. There `Path(".") / "d/f"` is `d/f` and `str(Path("."))` is `"."`, so the guards at lines 169-172 and 426-429 skip every member whose name does not start with ".". The call still succeeds, reporting 0 extracted files. In the model the joined path is `./d/f` and it passes the guard. `Paths.PathGuard`, `Engine.TarBranchWrites`, `Engine.FolderRoundTrip`, `Engine.PackedAllWritten` and `Engine.FileSpacer.ExtractZip` therefore do not describe an output of ".".
- How the tar and ZIP libraries treat member names and types is left out:
  - non-regular tar members;
  - the extraction filters of newer tar libraries.
- Engine.FileSpacer.ExtractZip: where the ZIP library writes a member is the abstract `zipPlace`. Its removal of "..", drive and leading "/" parts is not modelled, nor are directory members. `Engine.ZipWritesStayUnder` states what follows if it keeps members under the output directory.
- A ZIP or tar member whose extraction raises writes nothing in the model. The libraries may leave a partial file behind.
- Disk keys are path strings as joined, not resolved files: `out/../victim` and `victim` are different keys. So `Engine.WriteMembers`, `Engine.Cleanup` and the frame clauses of the extraction methods hold per string. The model does not capture that a tar member such as `../victim` overwrites the file `victim` outside the output directory. `Paths.TraversalPassesGuard` shows only that the guard lets such a member through.
- Engine.ExtractZstPlan: the format sniff takes exactly the first min(512, n) decoded bytes. A zstd stream reader's `read(512)` may return fewer bytes before the end.
- Engine.FolderRoundTrip: states where each file lands, not the bytes it holds there. Two records with the same name overwrite each other.
- Aliasing is left out: an input that is also the output, or a sidecar path that is also the input.
- Exception chaining and the exact exception messages are left out. Errors are `CompressionError` or `ExtractionError` values with a reason.
- Password encoding for ZIP archives is left out. The password is passed to the library as given, and an empty password counts as none.
- `filespacer/cli.py`, the GUI modules, `main.py` and the packaging files are not part of this model.
