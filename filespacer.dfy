/** The `FileSpacer` engine: single-file and folder compression, `.zst` and
    ZIP extraction, the integrity sidecar and the last-result statistics. The
    zstd codec, SHA-256, the tar and ZIP libraries and text encoding are the
    fields of a `Library` value and stay uninterpreted; the file system is a
    map from path strings to contents. */
module Engine {
  import opened Base
  import opened Sniffer
  import opened Streams
  import opened Paths
  import opened Stats
  import opened Archives

  const DEFAULT_CHUNK_SIZE: int := 1024 * 1024
  const DEFAULT_COMPRESSION_LEVEL: int := 3

  // ---------------------------------------------------------------------------
  // The libraries the engine calls
  // ---------------------------------------------------------------------------

  /** What a zstd stream reader yields: the bytes it can decode, and whether it
      raises after them instead of reporting the end. */
  datatype Decoded = Decoded(data: seq<Byte>, corrupt: bool)

  /** What iterating `tarfile.open(fileobj=reader, mode="r|")` yields: its
      members, and whether the iteration raises after them. */
  datatype TarStream = TarStream(members: seq<ArchiveMember>, truncated: bool)

  datatype Library = Library(
    sha256Hex: seq<Byte> -> string,
    compress: (int, seq<Byte>) -> seq<Byte>,
    decompress: seq<Byte> -> Decoded,
    tarPack: seq<TarEntry> -> seq<Byte>,
    tarRead: Decoded -> TarStream,
    zipOpen: (seq<Byte>, Option<string>) -> Option<seq<ArchiveMember>>,
    zipPlace: (string, string) -> string,
    encodeText: string -> seq<Byte>,
    decodeText: seq<Byte> -> Option<string>)

  /** The keys of the configuration dictionary the engine reads; an absent key
      takes the class default. */
  datatype Config = Config(chunkSize: Option<int>, compressionLevel: Option<int>)

  /** `config.get("chunk_size", DEFAULT_CHUNK_SIZE)`: without the key, a
      size `read` accepts and that reads something. */
  function ChunkSizeOf(config: Config): (r: int)
    ensures config.chunkSize.Some? ==> r == config.chunkSize.value
    ensures config.chunkSize.None? ==> r == DEFAULT_CHUNK_SIZE && r > 0 && ReadSizeOk(r)
  {
    if config.chunkSize.Some? then config.chunkSize.value else DEFAULT_CHUNK_SIZE
  }

  /** `compression_level or config.get("compression_level", 3)`: an absent or
      zero argument falls back to the configuration. */
  function LevelFor(level: Option<int>, config: Config): (r: int)
    ensures level.Some? && level.value != 0 ==> r == level.value
    ensures r == 0 ==> config.compressionLevel == Some(0)
  {
    if level.Some? && level.value != 0 then level.value
    else if config.compressionLevel.Some? then config.compressionLevel.value
    else DEFAULT_COMPRESSION_LEVEL
  }

  // ---------------------------------------------------------------------------
  // Files
  // ---------------------------------------------------------------------------

  /** A file as last written: raw bytes, or text written with `write_text`. */
  datatype Content = Bytes(bytes: seq<Byte>) | Text(text: string)

  function BytesOf(lib: Library, c: Content): seq<Byte>
  {
    match c
    case Bytes(b) => b
    case Text(t) => lib.encodeText(t)
  }

  /** `read_text()`, or None where decoding raises. */
  function TextOf(lib: Library, c: Content): Option<string>
  {
    match c
    case Bytes(b) => lib.decodeText(b)
    case Text(t) => Some(t)
  }

  /** `q` is the path `p` itself or lies inside it. */
  predicate Under(q: string, p: string)
  {
    q == p || StartsWith(q, p + [SEP])
  }

  /** The cleanup after a failed operation: `unlink` on a file, `rmtree` on a
      directory; either way nothing at or under `p` is left. */
  function Cleanup(files: map<string, Content>, p: string): (r: map<string, Content>)
    ensures forall q :: q in r <==> q in files && !Under(q, p)
    ensures forall q :: q in r ==> r[q] == files[q]
  {
    map q | q in files && !Under(q, p) :: files[q]
  }

  /** The tar members written, in order, each at its joined path. */
  function WriteMembers(files: map<string, Content>, root: string, ms: seq<ArchiveMember>): (r: map<string, Content>)
    ensures forall q :: q in r <==> q in files || exists m :: m in ms && q == Join(root, m.name)
    ensures forall q :: q in files && q in r && (forall m :: m in ms ==> q != Join(root, m.name)) ==> r[q] == files[q]
  {
    if ms == [] then files
    else
      var m := ms[|ms| - 1];
      var r := WriteMembers(files, root, ms[..|ms| - 1]);
      assert forall x :: x in ms <==> x in ms[..|ms| - 1] || x == m by {
        assert ms == ms[..|ms| - 1] + [m];
      }
      r[Join(root, m.name) := Bytes(m.content)]
  }

  lemma WriteMembersSnoc(files: map<string, Content>, root: string, ms: seq<ArchiveMember>, m: ArchiveMember)
    ensures WriteMembers(files, root, ms + [m]) == WriteMembers(files, root, ms)[Join(root, m.name) := Bytes(m.content)]
  {
    assert (ms + [m])[..|ms|] == ms;
  }

  /** The sidecar's digest as `extract_zst` reads it: `read_text().split()[0]`,
      with a decoding error or an empty file giving none. */
  function ReadDigest(lib: Library, c: Content): (r: Option<string>)
    ensures r.Some? ==> r.value != [] && NoSpace(r.value)
    ensures r.None? <==> TextOf(lib, c).None? || AllSpace(TextOf(lib, c).value)
  {
    match TextOf(lib, c)
    case None => None
    case Some(t) => FirstToken(t)
  }

  /** The files after `compress_file` writes its sidecar: only for a digest that
      was computed and is non-empty. */
  function WithSidecar(files: map<string, Content>, output: string, input: string, hex: Option<string>): (r: map<string, Content>)
    ensures forall q :: q != SidecarPath(output) ==> (q in r <==> q in files) && (q in files ==> r[q] == files[q])
    ensures hex.Some? && hex.value != [] ==>
      SidecarPath(output) in r && r[SidecarPath(output)] == Text(SidecarText(hex.value, Name(input)))
    ensures hex.None? || hex.value == [] ==> r == files
  {
    if hex.Some? && hex.value != [] then files[SidecarPath(output) := Text(SidecarText(hex.value, Name(input)))]
    else files
  }

  // ---------------------------------------------------------------------------
  // Outcomes of the operations, as functions of the files before them
  // ---------------------------------------------------------------------------

  /** Why an operation raised: the input is missing or not a directory, the
      archive is not a ZIP file, a member's extraction raised an exception the
      loop does not collect, the zstd or tar stream is corrupt, or `read`
      rejected the configured chunk size. */
  datatype Reason = Missing | NotADirectory | NotAZip | MemberRaised(member: string) | CorruptStream | ReadSizeRejected

  /** `CompressionError` and `ExtractionError`. */
  datatype Fail = CompressionError(reason: Reason) | ExtractionError(reason: Reason)

  /** The result and the files left behind. */
  datatype Outcome<T> = Outcome(result: Result<T, Fail>, files: map<string, Content>)

  /** `compress_file`. */
  function CompressFilePlan(lib: Library, chunkSize: int, config: Config, files: map<string, Content>,
                            input: string, output: string, level: Option<int>, calculateHash: bool,
                            elapsed: real): (p: Outcome<CompressionStats>)
    ensures p.result.Ok? <==> input in files && ReadSizeOk(chunkSize)
    ensures input !in files ==> p == Outcome(Err(CompressionError(Missing)), files)
  {
    if input !in files then Outcome(Err(CompressionError(Missing)), files)
    else if !ReadSizeOk(chunkSize) then Outcome(Err(CompressionError(ReadSizeRejected)), files - {output})
    else
      var data := BytesOf(lib, files[input]);
      var fed := Fed(chunkSize, data);
      var packed := lib.compress(LevelFor(level, config), fed);
      var hex := if calculateHash then Some(lib.sha256Hex(fed)) else None;
      Outcome(Ok(MakeStats(|data|, |packed|, elapsed, 1)), WithSidecar(files[output := Bytes(packed)], output, input, hex))
  }

  /** What a successful `compress_file` leaves behind: the archive holds the
      compression of exactly the file's bytes (none for chunk size 0), the
      sidecar holds the digest of those bytes and the file's name when hashing
      is on and the digest is non-empty, no other file changes, and the
      statistics describe one file with a consistent ratio. */
  lemma CompressFileEffects(lib: Library, chunkSize: int, config: Config, files: map<string, Content>,
                            input: string, output: string, level: Option<int>, calculateHash: bool, elapsed: real)
    requires input in files && ReadSizeOk(chunkSize)
    ensures var p := CompressFilePlan(lib, chunkSize, config, files, input, output, level, calculateHash, elapsed);
      var data := BytesOf(lib, files[input]);
      var hex := lib.sha256Hex(Fed(chunkSize, data));
      var sidecar := calculateHash && hex != [];
      && p.result.Ok?
      && output in p.files
      && p.files[output] == Bytes(lib.compress(LevelFor(level, config), Fed(chunkSize, data)))
      && p.result.value.originalSize == |data|
      && p.result.value.compressedSize == |p.files[output].bytes|
      && p.result.value.filesProcessed == 1
      && p.result.value.duration == elapsed
      && WellFormed(p.result.value)
      && (sidecar ==> SidecarPath(output) in p.files
                      && p.files[SidecarPath(output)] == Text(SidecarText(hex, Name(input))))
      && (forall q :: q != output && (q == SidecarPath(output) ==> !sidecar) ==>
            (q in p.files <==> q in files) && (q in files ==> p.files[q] == files[q]))
  {
    assert |SidecarPath(output)| > |output|;
  }

  /** `compress_folder`, given what `rglob("*")` yields for the input, or None
      when the input is not a directory. */
  function CompressFolderPlan(lib: Library, config: Config, files: map<string, Content>,
                              input: string, listing: Option<seq<WalkEntry>>, output: string,
                              level: Option<int>, excludes: seq<string>, elapsed: real): (p: Outcome<CompressionStats>)
    ensures p.result.Ok? <==> listing.Some?
    ensures listing.None? ==> p == Outcome(Err(CompressionError(NotADirectory)), files)
  {
    if listing.None? then Outcome(Err(CompressionError(NotADirectory)), files)
    else
      var selected := SelectedFiles(listing.value, excludes);
      var entries := Packed(Name(input), selected);
      var packed := lib.compress(LevelFor(level, config), lib.tarPack(entries));
      Outcome(Ok(MakeStats(TotalSize(selected), |packed|, elapsed, |entries|)), files[output := Bytes(packed)])
  }

  /** What a successful `compress_folder` leaves behind: the archive holds the
      compressed tar of the packed records and no other file changes;
      `original_size` is the total of the selected files, `files_processed`
      the number of records packed, at most the number selected, and the ratio
      is consistent. */
  lemma CompressFolderEffects(lib: Library, config: Config, files: map<string, Content>,
                              input: string, walk: seq<WalkEntry>, output: string,
                              level: Option<int>, excludes: seq<string>, elapsed: real)
    ensures var p := CompressFolderPlan(lib, config, files, input, Some(walk), output, level, excludes, elapsed);
      var selected := SelectedFiles(walk, excludes);
      && p.result.Ok?
      && p.files == files[output := Bytes(lib.compress(LevelFor(level, config), lib.tarPack(Packed(Name(input), selected))))]
      && p.result.value.originalSize == TotalSize(selected)
      && p.result.value.compressedSize == |p.files[output].bytes|
      && p.result.value.filesProcessed == |Packed(Name(input), selected)| <= |selected|
      && p.result.value.duration == elapsed
      && WellFormed(p.result.value)
  {
  }

  /** The format test of `extract_zst`: `reader.read(512)` on the stream, which
      raises (and so means "not tar") when the stream is corrupt within its
      first 512 decodable bytes. */
  predicate LooksLikeTar(dec: Decoded)
    ensures dec.corrupt && |dec.data| < BLOCK ==> !LooksLikeTar(dec)
    ensures LooksLikeTar(dec) ==> IsTarFormat(Sample(dec.data))
  {
    !(dec.corrupt && |dec.data| < BLOCK) && IsTarFormat(Sample(dec.data))
  }

  /** What a single-file extraction reports about the sidecar digest; a
      mismatch is only a warning. */
  datatype Integrity = NotChecked | Verified | Mismatch

  /** `extract_zst` returns True on both branches; the model also says which
      branch ran, and what it found. */
  datatype Extracted = SingleFile(integrity: Integrity) | Archive(extractedFiles: nat)

  /** `extract_zst`. */
  function ExtractZstPlan(lib: Library, chunkSize: int, files: map<string, Content>,
                          input: string, output: string, verifyHash: bool): (p: Outcome<Extracted>)
    ensures input !in files ==> p == Outcome(Err(ExtractionError(Missing)), files)
    ensures p.result.Err? ==> p.result.error.ExtractionError?
  {
    if input !in files then Outcome(Err(ExtractionError(Missing)), files)
    else
      var expected := if verifyHash && SidecarPath(input) in files then ReadDigest(lib, files[SidecarPath(input)]) else None;
      var dec := lib.decompress(BytesOf(lib, files[input]));
      if LooksLikeTar(dec) then
        var ts := lib.tarRead(dec);
        var written := Filter(ts.members, KeepTarWritten(output));
        var after := WriteMembers(files, output, written);
        if ts.truncated then Outcome(Err(ExtractionError(CorruptStream)), Cleanup(after, output))
        else Outcome(Ok(Archive(|written|)), after)
      else
        var out := Fed(chunkSize, dec.data);
        var after := files[output := Bytes(out)];
        if !ReadSizeOk(chunkSize) then Outcome(Err(ExtractionError(ReadSizeRejected)), Cleanup(after, output))
        else if chunkSize != 0 && dec.corrupt then Outcome(Err(ExtractionError(CorruptStream)), Cleanup(after, output))
        else
          var integrity :=
            if expected.Some? && expected.value != [] && verifyHash then
              (if lib.sha256Hex(Fed(chunkSize, out)) == expected.value then Verified else Mismatch)
            else NotChecked;
          Outcome(Ok(SingleFile(integrity)), after)
  }

  /** A failed extraction of an existing archive (a corrupt zstd stream, a tar
      stream that breaks off, or a chunk size `read` rejects) leaves nothing at
      or under the output path, on either branch. */
  lemma ExtractZstFailureCleansUp(lib: Library, chunkSize: int, files: map<string, Content>,
                                  input: string, output: string, verifyHash: bool)
    requires input in files
    ensures var p := ExtractZstPlan(lib, chunkSize, files, input, output, verifyHash);
      p.result.Err? ==>
        (p.result == Err(ExtractionError(CorruptStream)) || p.result == Err(ExtractionError(ReadSizeRejected)))
        && forall q :: q in p.files ==> !Under(q, output)
  {
  }

  /** On the single-file branch a readable stream read with an accepted chunk
      size always succeeds, writing exactly the decoded bytes (none for chunk
      size 0); a sidecar digest that disagrees with them is reported as a
      mismatch, never raised. */
  lemma HashMismatchOnlyWarns(lib: Library, chunkSize: int, files: map<string, Content>,
                              input: string, output: string, verifyHash: bool)
    requires input in files
    requires var dec := lib.decompress(BytesOf(lib, files[input]));
      !LooksLikeTar(dec) && ReadSizeOk(chunkSize) && (chunkSize == 0 || !dec.corrupt)
    ensures var p := ExtractZstPlan(lib, chunkSize, files, input, output, verifyHash);
      var dec := lib.decompress(BytesOf(lib, files[input]));
      var expected := if SidecarPath(input) in files then ReadDigest(lib, files[SidecarPath(input)]) else None;
      && p.result.Ok? && p.result.value.SingleFile?
      && p.files == files[output := Bytes(Fed(chunkSize, dec.data))]
      && (p.result.value.integrity == NotChecked <==> !verifyHash || expected.None?)
      && (p.result.value.integrity == Mismatch <==>
            verifyHash && expected.Some? && expected.value != lib.sha256Hex(Fed(chunkSize, dec.data)))
  {
    if SidecarPath(input) in files {
      match TextOf(lib, files[SidecarPath(input)])
      case None =>
      case Some(t) =>
    }
  }

  /** A chunk size below -1 makes every chunked `read` raise: `compress_file`
      fails and removes its output, and `extract_zst` fails and cleans up on
      the single-file branch. The tar branch never reads by chunk size. */
  lemma RejectedReadSizeFails(lib: Library, chunkSize: int, config: Config, files: map<string, Content>,
                              input: string, output: string, level: Option<int>, calculateHash: bool,
                              elapsed: real, verifyHash: bool)
    requires input in files && !ReadSizeOk(chunkSize)
    ensures CompressFilePlan(lib, chunkSize, config, files, input, output, level, calculateHash, elapsed)
      == Outcome(Err(CompressionError(ReadSizeRejected)), files - {output})
    ensures var x := ExtractZstPlan(lib, chunkSize, files, input, output, verifyHash);
      !LooksLikeTar(lib.decompress(BytesOf(lib, files[input]))) ==>
        x.result == Err(ExtractionError(ReadSizeRejected)) && forall q :: q in x.files <==> q in files && !Under(q, output)
  {
  }

  /** On the tar branch, when the tar stream does not break off, the members
      written are exactly those whose joined path passes the guard and whose
      extraction raised nothing, and the count reported is their number. */
  lemma TarBranchWrites(lib: Library, chunkSize: int, files: map<string, Content>,
                        input: string, output: string, verifyHash: bool)
    requires input in files
    requires var dec := lib.decompress(BytesOf(lib, files[input]));
      LooksLikeTar(dec) && !lib.tarRead(dec).truncated
    ensures var p := ExtractZstPlan(lib, chunkSize, files, input, output, verifyHash);
      var ms := lib.tarRead(lib.decompress(BytesOf(lib, files[input]))).members;
      var written := Filter(ms, KeepTarWritten(output));
      && p.result == Ok(Archive(|written|))
      && p.files == WriteMembers(files, output, written)
      && |written| <= |ms|
      && forall m :: m in written <==> m in ms && PathGuard(output, m.name) && m.fault == NoFault
  {
    var ms := lib.tarRead(lib.decompress(BytesOf(lib, files[input]))).members;
    forall m | true
      ensures m in Filter(ms, KeepTarWritten(output)) <==> m in ms && PathGuard(output, m.name) && m.fault == NoFault
    {
      TarWrittenIff(ms, output, m);
    }
  }

  /** The files the member loop of `extract_zip` leaves: each member judged
      written is extracted, in order, to the path `place(root, name)` the ZIP
      library chooses for it, up to the member whose exception escapes the
      loop. */
  function ZipWrites(files: map<string, Content>, root: string, place: (string, string) -> string,
                     ms: seq<ArchiveMember>, excludes: seq<string>): map<string, Content>
  {
    if ms == [] then files
    else
      var init, m := ms[..|ms| - 1], ms[|ms| - 1];
      var prev := ZipWrites(files, root, place, init, excludes);
      if ZipPlan(init, root, excludes).Completed? && ZipVerdict(m, root, excludes) == Written
      then prev[place(root, m.name) := Bytes(m.content)]
      else prev
  }

  /** A ZIP extraction adds or changes only the places of members judged
      written, and a completed loop writes every such member. */
  lemma {:induction false} ZipWritesFrame(files: map<string, Content>, root: string, place: (string, string) -> string,
                                          ms: seq<ArchiveMember>, excludes: seq<string>)
    ensures var r := ZipWrites(files, root, place, ms, excludes);
      && (forall q :: q in r && q !in files ==>
            exists m :: m in ms && ZipVerdict(m, root, excludes) == Written && q == place(root, m.name))
      && (forall q :: q in files && (forall m :: m in ms && ZipVerdict(m, root, excludes) == Written ==> q != place(root, m.name)) ==>
            q in r && r[q] == files[q])
      && (ZipPlan(ms, root, excludes).Completed? ==>
            forall m :: m in ms && ZipVerdict(m, root, excludes) == Written ==> place(root, m.name) in r)
    decreases |ms|
  {
    if ms != [] {
      var init, m := ms[..|ms| - 1], ms[|ms| - 1];
      ZipWritesFrame(files, root, place, init, excludes);
      assert forall x :: x in ms <==> x in init || x == m by {
        assert ms == init + [m];
      }
    }
  }

  /** One more member, after a loop that has not aborted: what the plan
      and the writes become, by the member's verdict. */
  lemma ZipStep(files: map<string, Content>, root: string, place: (string, string) -> string,
                ms: seq<ArchiveMember>, i: nat, excludes: seq<string>)
    requires i < |ms| && ZipPlan(ms[..i], root, excludes).Completed?
    ensures var p, m := ZipPlan(ms[..i], root, excludes), ms[i];
      var v := ZipVerdict(m, root, excludes);
      var w, w' := ZipWrites(files, root, place, ms[..i], excludes), ZipWrites(files, root, place, ms[..i + 1], excludes);
      && (v == Written ==> ZipPlan(ms[..i + 1], root, excludes) == Completed(p.extracted + [m.name], p.failures)
                           && w' == w[place(root, m.name) := Bytes(m.content)])
      && (v.Failed? ==> ZipPlan(ms[..i + 1], root, excludes) == Completed(p.extracted, p.failures + [Failure(m.name, m.fault)])
                        && w' == w)
      && (v == Excluded || v == Unsafe ==> ZipPlan(ms[..i + 1], root, excludes) == p && w' == w)
      && (v == Raises ==> ZipPlan(ms[..i + 1], root, excludes) == Aborted(m.name) && w' == w)
  {
    ZipPlanStep(ms, i, root, excludes);
    ZipWritesStep(files, root, place, ms, i, excludes);
  }

  lemma ZipPlanStep(ms: seq<ArchiveMember>, i: nat, root: string, excludes: seq<string>)
    requires i < |ms|
    ensures ZipPlan(ms[..i + 1], root, excludes) ==
      match ZipPlan(ms[..i], root, excludes)
      case Aborted(n) => Aborted(n)
      case Completed(ex, fs) =>
        match ZipVerdict(ms[i], root, excludes)
        case Written => Completed(ex + [ms[i].name], fs)
        case Failed(f) => Completed(ex, fs + [Failure(ms[i].name, f)])
        case Raises => Aborted(ms[i].name)
        case _ => Completed(ex, fs)
  {
    assert ms[..i + 1][..i] == ms[..i];
  }

  lemma ZipWritesStep(files: map<string, Content>, root: string, place: (string, string) -> string,
                      ms: seq<ArchiveMember>, i: nat, excludes: seq<string>)
    requires i < |ms|
    ensures ZipWrites(files, root, place, ms[..i + 1], excludes) ==
      if ZipPlan(ms[..i], root, excludes).Completed? && ZipVerdict(ms[i], root, excludes) == Written
      then ZipWrites(files, root, place, ms[..i], excludes)[place(root, ms[i].name) := Bytes(ms[i].content)]
      else ZipWrites(files, root, place, ms[..i], excludes)
  {
    assert ms[..i + 1][..i] == ms[..i];
  }

  /** Once an exception escapes the member loop, later members write nothing. */
  lemma {:induction false} ZipWritesPersist(files: map<string, Content>, root: string, place: (string, string) -> string,
                                            ms: seq<ArchiveMember>, i: nat, excludes: seq<string>)
    requires i <= |ms| && ZipPlan(ms[..i], root, excludes).Aborted?
    ensures ZipWrites(files, root, place, ms, excludes) == ZipWrites(files, root, place, ms[..i], excludes)
    decreases |ms| - i
  {
    if i < |ms| {
      assert ms[..i + 1][..i] == ms[..i];
      AbortPersists(ms[..i + 1], i, root, excludes);
      ZipWritesPersist(files, root, place, ms, i + 1, excludes);
    } else {
      assert ms[..i] == ms;
    }
  }

  /** Where the ZIP library keeps every member at or under the root, a ZIP
      extraction changes no file outside the output directory, unlike the
      textual guard of the tar branch (see `Paths.TraversalPassesGuard`). */
  lemma ZipWritesStayUnder(files: map<string, Content>, root: string, place: (string, string) -> string,
                           ms: seq<ArchiveMember>, excludes: seq<string>)
    requires forall n :: Under(place(root, n), root)
    ensures var r := ZipWrites(files, root, place, ms, excludes);
      forall q :: !Under(q, root) ==> (q in r <==> q in files) && (q in r ==> r[q] == files[q])
  {
    ZipWritesFrame(files, root, place, ms, excludes);
  }

  /** What `extract_zip` reports when its member loop completes. */
  datatype ZipReport = ZipReport(success: bool, extracted: seq<string>, failures: seq<Failure>,
                                 total: nat, lines: seq<ReportLine>)

  // ---------------------------------------------------------------------------
  // The disk and the engine
  // ---------------------------------------------------------------------------

  /** The file system the engine reads and writes. */
  class Disk {
    var files: map<string, Content>

    constructor (files: map<string, Content>)
      ensures this.files == files
    {
      this.files := files;
    }
  }

  /** The member loop of the tar branch of `extract_zst`: each member whose
      joined path passes the guard is extracted; a member whose extraction
      raises is logged and skipped. `extracted_files` counts the members
      written. */
  method ExtractTarMembers(disk: Disk, ms: seq<ArchiveMember>, root: string) returns (extractedFiles: nat)
    modifies disk
    ensures extractedFiles == |Filter(ms, KeepTarWritten(root))| <= |ms|
    ensures disk.files == WriteMembers(old(disk.files), root, Filter(ms, KeepTarWritten(root)))
  {
    extractedFiles := 0;
    ghost var written: seq<ArchiveMember> := [];
    for i := 0 to |ms|
      invariant written == Filter(ms[..i], KeepTarWritten(root))
      invariant extractedFiles == |written|
      invariant disk.files == WriteMembers(old(disk.files), root, written)
    {
      var m := ms[i];
      FilterSnoc(ms[..i], m, KeepTarWritten(root));
      assert ms[..i + 1] == ms[..i] + [m];
      if !StartsWith(Join(root, m.name), root) {
        continue;
      }
      if m.fault == NoFault {
        WriteMembersSnoc(old(disk.files), root, written, m);
        disk.files := disk.files[Join(root, m.name) := Bytes(m.content)];
        written := written + [m];
        extractedFiles := extractedFiles + 1;
      }
    }
    assert ms[..|ms|] == ms;
  }

  /** The member loop of `extract_zip`: excluded names and names that fail the
      guard are skipped, each other member is extracted where the ZIP library
      places it, the three collected exceptions are recorded, and any other
      exception ends the loop. */
  method ExtractZipMembers(disk: Disk, place: (string, string) -> string, ms: seq<ArchiveMember>,
                           root: string, excludes: seq<string>)
    returns (outcome: ZipOutcome)
    modifies disk
    ensures outcome == ZipPlan(ms, root, excludes)
    ensures disk.files == ZipWrites(old(disk.files), root, place, ms, excludes)
  {
    ghost var before := disk.files;
    var extracted: seq<string> := [];
    var failed: seq<Failure> := [];
    for i := 0 to |ms|
      invariant ZipPlan(ms[..i], root, excludes) == Completed(extracted, failed)
      invariant disk.files == ZipWrites(before, root, place, ms[..i], excludes)
    {
      var m := ms[i];
      ZipStep(before, root, place, ms, i, excludes);
      if AnyContains(excludes, m.name) {
        continue;
      }
      if !StartsWith(Join(root, m.name), root) {
        continue;
      }
      match m.fault {
        case NoFault =>
          disk.files := disk.files[place(root, m.name) := Bytes(m.content)];
          extracted := extracted + [m.name];
        case OtherError =>
          AbortPersists(ms, i + 1, root, excludes);
          ZipWritesPersist(before, root, place, ms, i + 1, excludes);
          return Aborted(m.name);
        case _ =>
          failed := failed + [Failure(m.name, m.fault)];
      }
    }
    assert ms[..|ms|] == ms;
    outcome := Completed(extracted, failed);
  }

  class FileSpacer {
    const lib: Library
    const config: Config
    const chunkSize: int
    /** `_stats`: the statistics of the last successful compression. */
    var stats: Option<CompressionStats>

    ghost predicate Valid()
      reads this
    {
      stats.Some? ==> WellFormed(stats.value)
    }

    constructor (lib: Library, config: Config)
      ensures Valid()
      ensures this.lib == lib && this.config == config && chunkSize == ChunkSizeOf(config)
      ensures stats == None
    {
      this.lib := lib;
      this.config := config;
      chunkSize := ChunkSizeOf(config);
      stats := None;
    }

    /** `get_stats`. */
    function GetStats(): (r: Option<CompressionStats>)
      reads this
      requires Valid()
      ensures r.Some? ==> WellFormed(r.value)
    {
      stats
    }

    /** `_calculate_hash`: the digest of exactly the bytes the chunked loop
        read, which are the whole file unless the chunk size is 0; none when
        `read` rejects the chunk size and the call raises. */
    method CalculateHash(disk: Disk, path: string) returns (hex: Option<string>)
      requires path in disk.files
      ensures hex.None? <==> !ReadSizeOk(chunkSize)
      ensures hex.Some? ==> hex.value == lib.sha256Hex(Fed(chunkSize, BytesOf(lib, disk.files[path])))
    {
      var data := BytesOf(lib, disk.files[path]);
      var chunks, _, failed := StreamChunks(data, false, chunkSize);
      if failed {
        return None;
      }
      hex := Some(lib.sha256Hex(Flatten(chunks)));
    }

    /** `compress_file`; `elapsed` is the duration the clock measured. */
    method CompressFile(disk: Disk, input: string, output: string, level: Option<int>,
                        calculateHash: bool, elapsed: real)
      returns (r: Result<CompressionStats, Fail>)
      requires Valid()
      modifies this, disk
      ensures Valid()
      ensures var p := CompressFilePlan(lib, chunkSize, config, old(disk.files), input, output, level, calculateHash, elapsed);
        r == p.result && disk.files == p.files
      ensures r.Ok? ==> stats == Some(r.value)
      ensures r.Err? ==> stats == old(stats)
    {
      ghost var p := CompressFilePlan(lib, chunkSize, config, disk.files, input, output, level, calculateHash, elapsed);
      if input !in disk.files {
        return Err(CompressionError(Missing));
      }
      var data := BytesOf(lib, disk.files[input]);
      var hex: Option<string> := None;
      if calculateHash {
        hex := CalculateHash(disk, input);
        if hex.None? {
          disk.files := disk.files - {output};
          return Err(CompressionError(ReadSizeRejected));
        }
      }
      var chunks, _, failed := StreamChunks(data, false, chunkSize);
      if failed {
        disk.files := disk.files - {output};
        return Err(CompressionError(ReadSizeRejected));
      }
      var packed := lib.compress(LevelFor(level, config), Flatten(chunks));
      disk.files := disk.files[output := Bytes(packed)];
      if hex.Some? && hex.value != [] {
        disk.files := disk.files[SidecarPath(output) := Text(SidecarText(hex.value, Name(input)))];
      }
      var s := MakeStats(|data|, |packed|, elapsed, 1);
      assert p.result == Ok(s) && disk.files == p.files;
      stats := Some(s);
      r := Ok(s);
    }

    /** `compress_folder`; `listing` is what `rglob("*")` yields for the input,
        or None when the input is not a directory. */
    method CompressFolder(disk: Disk, input: string, listing: Option<seq<WalkEntry>>, output: string,
                          level: Option<int>, excludes: seq<string>, elapsed: real)
      returns (r: Result<CompressionStats, Fail>)
      requires Valid()
      modifies this, disk
      ensures Valid()
      ensures var p := CompressFolderPlan(lib, config, old(disk.files), input, listing, output, level, excludes, elapsed);
        r == p.result && disk.files == p.files
      ensures r.Ok? ==> stats == Some(r.value)
      ensures r.Err? ==> stats == old(stats)
    {
      if listing.None? {
        return Err(CompressionError(NotADirectory));
      }
      var selected, totalSize := SelectFiles(listing.value, excludes);
      var entries, filesProcessed := AddFiles(Name(input), selected);
      var packed := lib.compress(LevelFor(level, config), lib.tarPack(entries));
      disk.files := disk.files[output := Bytes(packed)];
      var s := MakeStats(totalSize, |packed|, elapsed, filesProcessed);
      assert CompressFolderPlan(lib, config, old(disk.files), input, listing, output, level, excludes, elapsed)
        == Outcome(Ok(s), disk.files);
      stats := Some(s);
      r := Ok(s);
    }

    /** `extract_zst`. */
    method ExtractZst(disk: Disk, input: string, output: string, verifyHash: bool)
      returns (r: Result<Extracted, Fail>)
      modifies disk
      ensures var p := ExtractZstPlan(lib, chunkSize, old(disk.files), input, output, verifyHash);
        r == p.result && disk.files == p.files
    {
      if input !in disk.files {
        return Err(ExtractionError(Missing));
      }
      var expected: Option<string> := None;
      if verifyHash && SidecarPath(input) in disk.files {
        expected := ReadDigest(lib, disk.files[SidecarPath(input)]);
      }
      var dec := lib.decompress(BytesOf(lib, disk.files[input]));
      if LooksLikeTar(dec) {
        var ts := lib.tarRead(dec);
        var count := ExtractTarMembers(disk, ts.members, output);
        if ts.truncated {
          disk.files := Cleanup(disk.files, output);
          return Err(ExtractionError(CorruptStream));
        }
        return Ok(Archive(count));
      }
      var chunks, _, failed := StreamChunks(dec.data, dec.corrupt, chunkSize);
      disk.files := disk.files[output := Bytes(Flatten(chunks))];
      if failed {
        disk.files := Cleanup(disk.files, output);
        return Err(ExtractionError(if ReadSizeOk(chunkSize) then CorruptStream else ReadSizeRejected));
      }
      var integrity := NotChecked;
      if expected.Some? && expected.value != [] && verifyHash {
        var actual := CalculateHash(disk, output);
        integrity := if actual == Some(expected.value) then Verified else Mismatch;
      }
      r := Ok(SingleFile(integrity));
    }

    /** `extract_zip`. Each member is written where the ZIP library places it;
        the report records the names it was asked to extract. */
    method ExtractZip(disk: Disk, input: string, output: string, excludes: seq<string>, password: Option<string>)
      returns (r: Result<ZipReport, Fail>)
      modifies disk
      ensures input !in old(disk.files) ==> r == Err(ExtractionError(Missing)) && disk.files == old(disk.files)
      ensures input in old(disk.files) ==>
        match lib.zipOpen(BytesOf(lib, old(disk.files)[input]), PasswordSet(password))
        case None => r == Err(ExtractionError(NotAZip)) && disk.files == old(disk.files)
        case Some(ms) =>
          disk.files == ZipWrites(old(disk.files), output, lib.zipPlace, ms, excludes) &&
          match ZipPlan(ms, output, excludes)
          case Aborted(m) => r == Err(ExtractionError(MemberRaised(m)))
          case Completed(ex, fs) => r.Ok? && r.value.extracted == ex && r.value.failures == fs
                                    && r.value.total == |ms| && r.value.lines == Report(fs, |ex|)
      ensures r.Ok? ==> (r.value.success <==> r.value.failures == [])
      ensures r.Ok? ==> |r.value.extracted| + |r.value.failures| <= r.value.total
    {
      if input !in disk.files {
        return Err(ExtractionError(Missing));
      }
      var archive := lib.zipOpen(BytesOf(lib, disk.files[input]), PasswordSet(password));
      if archive.None? {
        return Err(ExtractionError(NotAZip));
      }
      var ms := archive.value;
      var outcome := ExtractZipMembers(disk, lib.zipPlace, ms, output, excludes);
      match outcome {
        case Aborted(m) =>
          r := Err(ExtractionError(MemberRaised(m)));
        case Completed(ex, fs) =>
          ZipPlanSafe(ms, output, excludes);
          r := Ok(ZipReport(|fs| == 0, ex, fs, |ms|, Report(fs, |ex|)));
      }
    }
  }

  /** `if password: zip_ref.setpassword(...)`: an empty password sets none. */
  function PasswordSet(password: Option<string>): (r: Option<string>)
    ensures r.Some? ==> r == password && r.value != []
    ensures password.Some? && password.value != [] ==> r == password
  {
    if password.Some? && password.value != [] then password else None
  }

  // ---------------------------------------------------------------------------
  // Properties across operations
  // ---------------------------------------------------------------------------

  /** A SHA-256 hex digest: 64 lower-case hexadecimal characters. */
  predicate HexDigest(s: string)
  {
    |s| == 64 && forall k :: 0 <= k < |s| ==> s[k] in "0123456789abcdef"
  }

  lemma HexDigestWord(s: string)
    requires HexDigest(s)
    ensures s != [] && NoSpace(s)
  {
    assert forall k :: 0 <= k < |s| ==> !IsSpace(s[k]) by {
      forall k | 0 <= k < |s| ensures !IsSpace(s[k]) {
        assert s[k] in "0123456789abcdef";
      }
    }
  }

  /** The sidecar `compress_file` writes is read back by `extract_zst` (which
      looks next to the archive it is given) as the very digest written. */
  lemma SidecarReadsBack(lib: Library, chunkSize: int, config: Config, files: map<string, Content>,
                         input: string, output: string, level: Option<int>, elapsed: real)
    requires input in files && ReadSizeOk(chunkSize)
    requires HexDigest(lib.sha256Hex(Fed(chunkSize, BytesOf(lib, files[input]))))
    ensures var c := CompressFilePlan(lib, chunkSize, config, files, input, output, level, true, elapsed);
      SidecarPath(output) in c.files
      && ReadDigest(lib, c.files[SidecarPath(output)]) == Some(lib.sha256Hex(Fed(chunkSize, BytesOf(lib, files[input]))))
  {
    var hex := lib.sha256Hex(Fed(chunkSize, BytesOf(lib, files[input])));
    var text := SidecarText(hex, Name(input));
    HexDigestWord(hex);
    CompressFileEffects(lib, chunkSize, config, files, input, output, level, true, elapsed);
    var c := CompressFilePlan(lib, chunkSize, config, files, input, output, level, true, elapsed);
    assert c.files[SidecarPath(output)] == Text(text);
    SidecarRoundTrip(hex, Name(input));
    assert ReadDigest(lib, Text(text)) == FirstToken(text);
  }

  /** Compressing a file and extracting the result restores the file's bytes
      and verifies them against the sidecar, provided the codec round-trips
      these bytes, `read` accepts the chunk size and it is not 0, and the bytes
      do not look like a tar archive to the sniffer. */
  lemma FileRoundTrip(lib: Library, chunkSize: int, config: Config, files: map<string, Content>,
                      input: string, output: string, dest: string, level: Option<int>, elapsed: real)
    requires chunkSize != 0 && ReadSizeOk(chunkSize) && input in files
    requires var data := BytesOf(lib, files[input]);
      && lib.decompress(lib.compress(LevelFor(level, config), data)) == Decoded(data, false)
      && !IsTarFormat(Sample(data))
      && HexDigest(lib.sha256Hex(data))
    ensures var c := CompressFilePlan(lib, chunkSize, config, files, input, output, level, true, elapsed);
      var x := ExtractZstPlan(lib, chunkSize, c.files, output, dest, true);
      && x.result == Ok(SingleFile(Verified))
      && x.files == c.files[dest := Bytes(BytesOf(lib, files[input]))]
  {
    var data := BytesOf(lib, files[input]);
    CompressFileEffects(lib, chunkSize, config, files, input, output, level, true, elapsed);
    SidecarReadsBack(lib, chunkSize, config, files, input, output, level, elapsed);
    var c := CompressFilePlan(lib, chunkSize, config, files, input, output, level, true, elapsed);
    assert BytesOf(lib, c.files[output]) == lib.compress(LevelFor(level, config), data);
    assert Sample(Sample(data)) == Sample(data);
    HashMismatchOnlyWarns(lib, chunkSize, c.files, output, dest, true);
  }

  /** A compressed single file whose first 512 bytes contain "ustar" is taken
      for a tar archive on extraction: it is never restored as one file. */
  lemma UstarFileTakenForArchive(lib: Library, chunkSize: int, config: Config, files: map<string, Content>,
                                 input: string, output: string, dest: string, level: Option<int>,
                                 calculateHash: bool, elapsed: real, i: int)
    requires input in files
    requires var data := BytesOf(lib, files[input]);
      && lib.decompress(lib.compress(LevelFor(level, config), Fed(chunkSize, data))) == Decoded(Fed(chunkSize, data), false)
      && MatchAt(Fed(chunkSize, data), USTAR, i) && i + |USTAR| <= BLOCK
    ensures var c := CompressFilePlan(lib, chunkSize, config, files, input, output, level, calculateHash, elapsed);
      var x := ExtractZstPlan(lib, chunkSize, c.files, output, dest, true);
      x.result.Err? || x.result.value.Archive?
  {
    var fed := Fed(chunkSize, BytesOf(lib, files[input]));
    assert Sample(fed)[i..i + |USTAR|] == fed[i..i + |USTAR|];
    MagicMeansTar(Sample(fed), i);
  }

  /** The tar stream a reader yields for records written by the packer:
      every record, unchanged, with nothing raised. */
  function MembersOf(es: seq<TarEntry>): (r: seq<ArchiveMember>)
    ensures |r| == |es| && forall k :: 0 <= k < |es| ==> r[k] == ArchiveMember(es[k].name, es[k].content, NoFault)
  {
    seq(|es|, k requires 0 <= k < |es| => ArchiveMember(es[k].name, es[k].content, NoFault))
  }

  /** Compressing a folder and extracting the result writes every packed file
      under the destination, at the destination, a separator, the folder's
      name and the file's path inside the folder, provided at least one file
      was packed, the codec and the tar library round-trip the stream, and the
      tar writer puts the ustar magic at offset 257 of its first header. */
  lemma FolderRoundTrip(lib: Library, chunkSize: int, config: Config, files: map<string, Content>,
                        input: string, walk: seq<WalkEntry>, output: string, dest: string,
                        level: Option<int>, excludes: seq<string>, elapsed: real)
    requires Name(input) != ""
    requires var es := Packed(Name(input), SelectedFiles(walk, excludes));
      var tar := lib.tarPack(es);
      && es != []
      && lib.decompress(lib.compress(LevelFor(level, config), tar)) == Decoded(tar, false)
      && lib.tarRead(Decoded(tar, false)) == TarStream(MembersOf(es), false)
      && MatchAt(tar, USTAR, MAGIC_OFFSET)
    ensures var es := Packed(Name(input), SelectedFiles(walk, excludes));
      var c := CompressFolderPlan(lib, config, files, input, Some(walk), output, level, excludes, elapsed);
      var x := ExtractZstPlan(lib, chunkSize, c.files, output, dest, true);
      && x.result == Ok(Archive(|es|))
      && forall w :: w in SelectedFiles(walk, excludes) && w.addable && w.rel != [] ==>
           dest + [SEP] + Name(input) + [SEP] + Render(w.rel) in x.files
  {
    var name := Name(input);
    var selected := SelectedFiles(walk, excludes);
    var es := Packed(name, selected);
    var tar := lib.tarPack(es);
    assert Sample(tar)[MAGIC_OFFSET..MAGIC_OFFSET + |USTAR|] == tar[MAGIC_OFFSET..MAGIC_OFFSET + |USTAR|];
    MagicMeansTar(Sample(tar), MAGIC_OFFSET);
    PackedAllWritten(name, selected, dest);
    CompressFolderEffects(lib, config, files, input, walk, output, level, excludes, elapsed);
    var c := CompressFolderPlan(lib, config, files, input, Some(walk), output, level, excludes, elapsed);
    assert c.files[output] == Bytes(lib.compress(LevelFor(level, config), tar));
    assert LooksLikeTar(lib.decompress(BytesOf(lib, c.files[output])));
    var after := WriteMembers(c.files, dest, MembersOf(es));
    assert ExtractZstPlan(lib, chunkSize, c.files, output, dest, true) == Outcome(Ok(Archive(|es|)), after);
    forall w | w in selected && w.addable && w.rel != []
      ensures dest + [SEP] + name + [SEP] + Render(w.rel) in after
    {
      ExtractedAt(name, selected, dest, c.files, w);
    }
  }

  /** When nothing was packed (an empty folder, or every file excluded or
      refused by `tar.add`), the tar writer emits only NUL blocks. The sniffer
      does not take them for a tar archive, so extracting the result writes a
      single file of NUL bytes at the destination instead of recreating the
      folder. */
  lemma EmptyFolderExtractsAsFile(lib: Library, chunkSize: int, config: Config, files: map<string, Content>,
                                  input: string, walk: seq<WalkEntry>, output: string, dest: string,
                                  level: Option<int>, excludes: seq<string>, elapsed: real)
    requires chunkSize != 0 && ReadSizeOk(chunkSize)
    requires var tar := lib.tarPack([]);
      && Packed(Name(input), SelectedFiles(walk, excludes)) == []
      && (forall k :: 0 <= k < |tar| ==> tar[k] == 0)
      && lib.decompress(lib.compress(LevelFor(level, config), tar)) == Decoded(tar, false)
    ensures var c := CompressFolderPlan(lib, config, files, input, Some(walk), output, level, excludes, elapsed);
      var x := ExtractZstPlan(lib, chunkSize, c.files, output, dest, true);
      && c.result.Ok? && c.result.value.filesProcessed == 0
      && x.result.Ok? && x.result.value.SingleFile?
      && x.files == c.files[dest := Bytes(lib.tarPack([]))]
  {
    var tar := lib.tarPack([]);
    NulBlocksNotTar(tar);
    CompressFolderEffects(lib, config, files, input, walk, output, level, excludes, elapsed);
    var c := CompressFolderPlan(lib, config, files, input, Some(walk), output, level, excludes, elapsed);
    assert c.files[output] == Bytes(lib.compress(LevelFor(level, config), tar));
    assert !LooksLikeTar(lib.decompress(BytesOf(lib, c.files[output])));
  }

  /** Every record the packer writes for a named folder passes the guard of
      the tar extraction loop. */
  lemma PackedAllWritten(folderName: string, files: seq<WalkEntry>, dest: string)
    requires folderName != "" && SEP !in folderName
    ensures Filter(MembersOf(Packed(folderName, files)), KeepTarWritten(dest)) == MembersOf(Packed(folderName, files))
  {
    var es := Packed(folderName, files);
    var ms := MembersOf(es);
    forall k | 0 <= k < |ms| ensures KeepTarWritten(dest)(ms[k]) {
      assert es[k] in es;
      PackedNamesRelative(folderName, files, es[k]);
      PathGuardIff(dest, ms[k].name);
    }
    FilterAll(ms, KeepTarWritten(dest));
  }

  /** A packed file lands at the destination, a separator, the folder's name,
      a separator and its path inside the folder. */
  lemma ExtractedAt(folderName: string, files: seq<WalkEntry>, dest: string,
                    before: map<string, Content>, w: WalkEntry)
    requires folderName != "" && SEP !in folderName
    requires w in files && w.addable && w.rel != []
    ensures dest + [SEP] + folderName + [SEP] + Render(w.rel) in
      WriteMembers(before, dest, MembersOf(Packed(folderName, files)))
  {
    var es := Packed(folderName, files);
    var e := EntryOf(folderName, w);
    PackedIff(folderName, files, e);
    var k :| 0 <= k < |es| && es[k] == e;
    var m := MembersOf(es)[k];
    assert m in MembersOf(es);
    ArcNameUnderFolder(folderName, w.rel);
    PackedNamesRelative(folderName, files, e);
    RelativeTargetUnderRoot(dest, e.name);
    assert Join(dest, m.name) == dest + [SEP] + folderName + [SEP] + Render(w.rel);
  }

  /** Every record the packer writes for a named folder has a relative name. */
  lemma PackedNamesRelative(folderName: string, files: seq<WalkEntry>, e: TarEntry)
    requires folderName != "" && SEP !in folderName && e in Packed(folderName, files)
    ensures !IsAbsolute(e.name)
  {
    PackedIff(folderName, files, e);
    var w :| w in files && w.addable && e == EntryOf(folderName, w);
    assert FolderTail(folderName) + w.rel == [folderName] + w.rel;
    if w.rel != [] {
      RenderCons(folderName, w.rel);
      assert e.name == folderName + [SEP] + Render(w.rel);
    }
    assert e.name[0] == folderName[0];
  }
}
