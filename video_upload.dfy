/**
 * VideoUploadService: whole-file upload to local storage, and chunked upload
 * in which the chunks of a video are staged in a directory named after the
 * video as entries `chunk-<i>`, then merged in ascending index order into
 * `<name>.mp4` and removed.
 *
 * The storage location is a `Disk`: staging directories (name to entries)
 * and regular files (name to bytes), both relative to the storage root.
 */
module VideoUpload {
  import opened Wrappers
  import opened JavaText
  import opened Tiling

  const MAX_FILE_SIZE: nat := 50 * 1024 * 1024
  const MAX_CHUNK_SIZE: nat := 20 * 1024 * 1024
  const ALLOWED_CONTENT_TYPES: seq<string> := ["video/mp4", "video/mkv", "video/x-matroska", "application/octet-stream"]
  const ALLOWED_EXTENSIONS: seq<string> := [".mp4", ".mkv", ".avi", ".mov", ".flv", ".wmv", ".webm", ""]

  /** A multipart request part: its bytes, its declared content type and original file name (None is null). */
  datatype Upload = Upload(bytes: seq<bv8>, contentType: Option<string>, originalFilename: Option<string>)

  /** The exceptions that leave the service. */
  datatype UploadError =
    | IllegalArgument(message: string)
    | Runtime(message: string)
    | NumberFormat(input: string)

  /** String concatenation of a possibly-null string. */
  function Show(s: Option<string>): string
  {
    match s
    case Some(v) => v
    case None => "null"
  }

  // ---------------------------------------------------------------- validation

  predicate AllowedContentType(t: Option<string>)
  {
    t.Some? && t.value in ALLOWED_CONTENT_TYPES
  }

  /** `validateFile(file)`: empty, then content type, then size above 50 MiB. */
  function ValidateFile(file: Upload): (r: Option<UploadError>)
    ensures r.None? <==> 0 < |file.bytes| <= MAX_FILE_SIZE && AllowedContentType(file.contentType)
    ensures |file.bytes| == 0 ==> r == Some(IllegalArgument("File is empty."))
    ensures r.Some? ==> r.value.IllegalArgument?
  {
    if |file.bytes| == 0 then Some(IllegalArgument("File is empty."))
    else if !AllowedContentType(file.contentType) then
      Some(IllegalArgument("Unsupported file type: " + Show(file.contentType)))
    else if |file.bytes| > MAX_FILE_SIZE then Some(IllegalArgument("File size exceeds the limit of 50 MB."))
    else None
  }

  /** `ALLOWED_EXTENSIONS.stream().anyMatch(name.toLowerCase()::endsWith)`. */
  predicate HasAllowedExtension(name: string)
  {
    exists i :: 0 <= i < |ALLOWED_EXTENSIONS| && EndsWith(ToLower(name), ALLOWED_EXTENSIONS[i])
  }

  /** Since "" is an allowed extension, every name passes the extension check. */
  lemma EveryNameHasAllowedExtension(name: string)
    ensures HasAllowedExtension(name)
  {
    var lower := ToLower(name);
    assert ALLOWED_EXTENSIONS[7] == "";
    assert lower[|lower| - 0..] == "";
    assert EndsWith(lower, ALLOWED_EXTENSIONS[7]);
  }

  /**
   * `validateFile(file, chunkIndex)`: empty, then content type, then a null
   * file name or a disallowed extension, then size above 20 MiB.
   */
  function ValidateChunk(file: Upload, chunkIndex: Int32): (r: Option<UploadError>)
    ensures r.Some? ==> r.value.IllegalArgument?
    ensures |file.bytes| == 0 ==> r == Some(IllegalArgument("Chunk " + IntToString(chunkIndex) + " is empty."))
  {
    if |file.bytes| == 0 then Some(IllegalArgument("Chunk " + IntToString(chunkIndex) + " is empty."))
    else if !AllowedContentType(file.contentType) then
      Some(IllegalArgument("Unsupported file type: " + Show(file.contentType)))
    else if file.originalFilename.None? || !HasAllowedExtension(file.originalFilename.value) then
      Some(IllegalArgument("Unsupported file extension: " + Show(file.originalFilename)))
    else if |file.bytes| > MAX_CHUNK_SIZE then Some(IllegalArgument("Chunk size exceeds the limit of 20 MB."))
    else None
  }

  /**
   * A chunk is accepted exactly when it is non-empty, at most 20 MiB, of an
   * allowed content type, and has a file name at all: the extension check
   * rejects only a null name.
   */
  lemma ValidateChunkAccepts(file: Upload, chunkIndex: Int32)
    ensures ValidateChunk(file, chunkIndex).None? <==>
      0 < |file.bytes| <= MAX_CHUNK_SIZE && AllowedContentType(file.contentType) && file.originalFilename.Some?
    ensures file.originalFilename.None? && 0 < |file.bytes| && AllowedContentType(file.contentType) ==>
      ValidateChunk(file, chunkIndex) == Some(IllegalArgument("Unsupported file extension: null"))
  {
    if file.originalFilename.Some? {
      EveryNameHasAllowedExtension(file.originalFilename.value);
    } else {
      assert "Unsupported file extension: " + "null" == "Unsupported file extension: null";
    }
  }

  /** The suffix of the original name from its last '.', or "" without a dot or without a name. */
  function FileExtension(originalFileName: Option<string>): (ext: string)
    ensures ext == "" || (originalFileName.Some? && ext[0] == '.' && '.' !in ext[1..] && EndsWith(originalFileName.value, ext))
    ensures originalFileName.Some? && '.' in originalFileName.value ==> ext != ""
  {
    if originalFileName.Some? && '.' in originalFileName.value then
      var dot := LastIndexOf(originalFileName.value, '.').value;
      var ext := originalFileName.value[dot..];
      assert ext[1..] == originalFileName.value[dot + 1..];
      ext
    else ""
  }

  lemma {:induction false} LastDotBeforeExtension(base: string, ext: string)
    requires '.' !in ext
    ensures LastIndexOf(base + "." + ext, '.') == Some(|base|)
    decreases |ext|
  {
    var name := base + "." + ext;
    if |ext| > 0 {
      assert ext[|ext| - 1] in ext;
      assert name[..|name| - 1] == base + "." + ext[..|ext| - 1];
      LastDotBeforeExtension(base, ext[..|ext| - 1]);
    }
  }

  /** A name `base.ext` whose `ext` has no dot keeps exactly `.ext`, whatever dots `base` has. */
  lemma FileExtensionOfDotted(base: string, ext: string)
    requires '.' !in ext
    ensures FileExtension(Some(base + "." + ext)) == "." + ext
  {
    var name := base + "." + ext;
    assert name[|base|] == '.';
    LastDotBeforeExtension(base, ext);
    assert name[|base|..] == "." + ext;
  }

  // ---------------------------------------------------------------- storage

  /** A staging directory: the entry `chunk-<i>` is kept under its index `i`. */
  type ChunkDir = map<int, seq<bv8>>

  /** The storage root: staging directories and regular files, each by name. */
  datatype Disk = Disk(staging: map<string, ChunkDir>, files: map<string, seq<bv8>>)

  /** The staging entry name of chunk `i`. */
  function ChunkEntryName(i: int): string
  {
    "chunk-" + IntToString(i)
  }

  /** Entry names are distinct for distinct indices, so keying entries by index loses nothing. */
  lemma ChunkEntryNameInjective(i: int, j: int)
    requires ChunkEntryName(i) == ChunkEntryName(j)
    ensures i == j
  {
    assert ChunkEntryName(i)[6..] == IntToString(i);
    assert ChunkEntryName(j)[6..] == IntToString(j);
    IntToStringInjective(i, j);
  }

  /** Every entry of a staging directory is named by an int. */
  predicate IndicesInRange(dir: ChunkDir)
  {
    forall i :: i in dir ==> INT_MIN <= i <= INT_MAX
  }

  /** No name is both a staging directory and a regular file; chunk indices are ints. */
  predicate DiskValid(d: Disk)
  {
    && d.staging.Keys !! d.files.Keys
    && forall name :: name in d.staging ==> IndicesInRange(d.staging[name])
  }

  /**
   * A write from offset `position` that does not truncate: the bytes are
   * replaced where they fall, a longer old tail survives.
   */
  function Overwrite(contents: seq<bv8>, position: nat, bytes: seq<bv8>): (r: seq<bv8>)
    requires position <= |contents|
    ensures |r| == if position + |bytes| < |contents| then |contents| else position + |bytes|
    ensures r[..position] == contents[..position] && r[position..position + |bytes|] == bytes
    ensures r[position + |bytes|..] == if position + |bytes| < |contents| then contents[position + |bytes|..] else []
  {
    contents[..position] + bytes + (if position + |bytes| < |contents| then contents[position + |bytes|..] else [])
  }

  /** `Files.write(path, bytes, CREATE)` or a channel opened with CREATE, WRITE: overwrite from offset 0. */
  function WriteFromStart(contents: seq<bv8>, bytes: seq<bv8>): seq<bv8>
  {
    Overwrite(contents, 0, bytes)
  }

  /** Two consecutive writes are one write of their concatenation. */
  lemma OverwriteTwice(contents: seq<bv8>, position: nat, a: seq<bv8>, b: seq<bv8>)
    requires position <= |contents|
    ensures Overwrite(Overwrite(contents, position, a), position + |a|, b) == Overwrite(contents, position, a + b)
  {
    var once := Overwrite(contents, position, a);
    var twice := Overwrite(once, position + |a|, b);
    var whole := Overwrite(contents, position, a + b);
    assert |twice| == |whole|;
    forall i | 0 <= i < |twice| ensures twice[i] == whole[i] {
      if i < position {
        assert twice[i] == twice[..position + |a|][i] == once[..position + |a|][i] == once[i];
        assert once[i] == once[..position][i] == contents[i];
        assert whole[i] == whole[..position][i];
      } else if i < position + |a| {
        assert twice[i] == twice[..position + |a|][i] == once[..position + |a|][i] == once[i];
        assert once[i] == once[position..position + |a|][i - position] == a[i - position];
        assert whole[i] == whole[position..position + |a| + |b|][i - position];
      } else if i < position + |a| + |b| {
        assert twice[i] == twice[position + |a|..position + |a| + |b|][i - position - |a|];
        assert whole[i] == whole[position..position + |a| + |b|][i - position];
      } else {
        assert twice[i] == twice[position + |a| + |b|..][i - position - |a| - |b|];
        assert whole[i] == whole[position + |a| + |b|..][i - position - |a| - |b|];
        assert once[position + |a|..][i - position - |a|] == once[i];
        assert contents[position + |a|..][i - position - |a|] == contents[i];
      }
    }
  }

  /** A shorter rewrite keeps the tail of the longer old contents. */
  lemma ShorterRewriteKeepsTail(old_: seq<bv8>, new_: seq<bv8>)
    requires |new_| < |old_|
    ensures WriteFromStart(old_, new_) == new_ + old_[|new_|..]
  {
  }

  // ---------------------------------------------------------------- save chunk

  /**
   * `saveVideoChunk`: validation; the staging directory is created if absent
   * (before the index check, so a rejected index still leaves it behind);
   * `chunkIndex > totalChunks` throws; a name taken by a regular file makes
   * the write fail; otherwise entry `chunk-<i>` is overwritten from offset 0.
   */
  function SaveChunkSpec(d: Disk, file: Upload, chunkIndex: Int32, totalChunks: Int32, fileName: string)
    : (Result<string, UploadError>, Disk)
  {
    match ValidateChunk(file, chunkIndex)
    case Some(e) => (Failure(e), d)
    case None => StoreChunk(d, file.bytes, chunkIndex, totalChunks, fileName)
  }

  /** The part of `saveVideoChunk` after validation. */
  function StoreChunk(d: Disk, bytes: seq<bv8>, chunkIndex: Int32, totalChunks: Int32, fileName: string)
    : (Result<string, UploadError>, Disk)
  {
    var d1 := if fileName !in d.staging && fileName !in d.files then d.(staging := d.staging[fileName := map[]]) else d;
    if chunkIndex > totalChunks then (Failure(Runtime("chunkIndex can not be more then total chunks")), d1)
    else if fileName in d.files then
      (Failure(Runtime("Failed to save chunk: " + fileName + "/" + ChunkEntryName(chunkIndex))), d1)
    else
      var dir := d1.staging[fileName];
      var previous := if chunkIndex in dir then dir[chunkIndex] else [];
      (Success("Chunk " + IntToString(chunkIndex) + " of " + IntToString(totalChunks) + " uploaded successfully."),
       d1.(staging := d1.staging[fileName := dir[chunkIndex := WriteFromStart(previous, bytes)]]))
  }

  /** The directory `fileName` before a save: its entries, or none when it does not exist yet. */
  function Existing(d: Disk, fileName: string): ChunkDir
  {
    if fileName in d.staging then d.staging[fileName] else map[]
  }

  /**
   * Storing leaves regular files alone and either changes nothing or sets
   * directory `fileName` to the existing one, possibly with entry
   * `chunkIndex` (over)written.
   */
  lemma StoreChunkFrame(d: Disk, bytes: seq<bv8>, chunkIndex: Int32, totalChunks: Int32, fileName: string)
    ensures var d' := StoreChunk(d, bytes, chunkIndex, totalChunks, fileName).1;
      d' == d || (fileName !in d.files && fileName in d'.staging && d' == Disk(d.staging[fileName := d'.staging[fileName]], d.files)
                  && forall i :: i in d'.staging[fileName] ==> i in Existing(d, fileName) || i == chunkIndex)
  {
    var d1 := if fileName !in d.staging && fileName !in d.files then d.(staging := d.staging[fileName := map[]]) else d;
    var r := StoreChunk(d, bytes, chunkIndex, totalChunks, fileName);
    if chunkIndex > totalChunks || fileName in d.files {
      assert r.1 == d1;
    } else {
      var dir := d1.staging[fileName];
      assert dir == Existing(d, fileName);
      var previous := if chunkIndex in dir then dir[chunkIndex] else [];
      assert r.1 == Disk(d.staging[fileName := dir[chunkIndex := WriteFromStart(previous, bytes)]], d.files);
    }
  }

  /** A save keeps the storage well formed. */
  lemma SaveChunkKeepsValid(d: Disk, file: Upload, chunkIndex: Int32, totalChunks: Int32, fileName: string)
    requires DiskValid(d)
    ensures DiskValid(SaveChunkSpec(d, file, chunkIndex, totalChunks, fileName).1)
  {
    StoreChunkFrame(d, file.bytes, chunkIndex, totalChunks, fileName);
    var d' := SaveChunkSpec(d, file, chunkIndex, totalChunks, fileName).1;
    if d' != d {
      assert IndicesInRange(Existing(d, fileName));
      assert IndicesInRange(d'.staging[fileName]);
    }
  }

  /** A save changes at most the staging directory `fileName`: no regular file and no other directory. */
  lemma SaveChunkFrame(d: Disk, file: Upload, chunkIndex: Int32, totalChunks: Int32, fileName: string)
    ensures var d' := SaveChunkSpec(d, file, chunkIndex, totalChunks, fileName).1;
      d' == d || (fileName in d'.staging && d' == Disk(d.staging[fileName := d'.staging[fileName]], d.files))
  {
    StoreChunkFrame(d, file.bytes, chunkIndex, totalChunks, fileName);
  }

  /**
   * A save succeeds exactly when the chunk is valid, the index is at most the
   * total and the name is not a regular file; a rejected chunk changes nothing.
   */
  lemma SaveChunkOutcome(d: Disk, file: Upload, chunkIndex: Int32, totalChunks: Int32, fileName: string)
    ensures var (r, d') := SaveChunkSpec(d, file, chunkIndex, totalChunks, fileName);
      && (r.Success? <==> ValidateChunk(file, chunkIndex).None? && chunkIndex <= totalChunks && fileName !in d.files)
      && (ValidateChunk(file, chunkIndex).Some? ==> d' == d)
      && (r.Success? ==> r.value == "Chunk " + IntToString(chunkIndex) + " of " + IntToString(totalChunks) + " uploaded successfully.")
  {
  }

  /**
   * Once a chunk passes validation, its directory exists afterwards, even
   * when the index check then throws; a rejected index writes no chunk (a
   * directory created by the failing call is empty, an existing one keeps
   * its entries), and other directories are untouched.
   */
  lemma SaveChunkCreatesDirectory(d: Disk, file: Upload, chunkIndex: Int32, totalChunks: Int32, fileName: string)
    requires ValidateChunk(file, chunkIndex).None? && fileName !in d.files
    ensures var (r, d') := SaveChunkSpec(d, file, chunkIndex, totalChunks, fileName);
      && d'.staging.Keys == d.staging.Keys + {fileName}
      && (forall other :: other in d.staging && other != fileName ==> d'.staging[other] == d.staging[other])
      && (chunkIndex > totalChunks && fileName !in d.staging ==> r.Failure? && d'.staging[fileName] == map[])
      && (chunkIndex > totalChunks ==> r.Failure? && Existing(d', fileName) == Existing(d, fileName))
  {
    StoreChunkFrame(d, file.bytes, chunkIndex, totalChunks, fileName);
    var d1 := if fileName !in d.staging then d.(staging := d.staging[fileName := map[]]) else d;
    var r := StoreChunk(d, file.bytes, chunkIndex, totalChunks, fileName);
    if chunkIndex > totalChunks {
      assert r.1 == d1;
    } else {
      assert fileName in r.1.staging;
    }
  }

  /** A successful save changes entry `chunk-<i>` alone, overwriting it from offset 0. */
  lemma SaveChunkWritesEntry(d: Disk, file: Upload, chunkIndex: Int32, totalChunks: Int32, fileName: string)
    requires SaveChunkSpec(d, file, chunkIndex, totalChunks, fileName).0.Success?
    ensures var d' := SaveChunkSpec(d, file, chunkIndex, totalChunks, fileName).1;
      var before := if fileName in d.staging then d.staging[fileName] else map[];
      && d'.staging[fileName].Keys == before.Keys + {chunkIndex}
      && d'.staging[fileName][chunkIndex] == WriteFromStart(if chunkIndex in before then before[chunkIndex] else [], file.bytes)
      && (forall i :: i in before && i != chunkIndex ==> d'.staging[fileName][i] == before[i])
  {
  }

  // ---------------------------------------------------------------- merge

  /** The sort key `Integer.parseInt(name.split("-")[1])` of the merge comparator. */
  function JavaSortKey(name: string): Result<int, UploadError>
  {
    var parts := Split(name, '-');
    if |parts| < 2 then Failure(Runtime("Index 1 out of bounds for length " + IntToString(|parts|)))
    else
      match ParseInt(parts[1])
      case Some(v) => Success(v)
      case None => Failure(NumberFormat(parts[1]))
  }

  lemma NoDashInDigits(s: string)
    requires AllDigits(s)
    ensures '-' !in s
  {
    forall i | 0 <= i < |s| ensures s[i] != '-' {
      assert IsDigit(s[i]);
    }
  }

  lemma NoDashInChunk()
    ensures '-' !in "chunk"
  {
    var c := "chunk";
    forall i | 0 <= i < |c| ensures c[i] != '-' {
    }
  }

  /** On the entry of a non-negative index the comparator's key is that index. */
  lemma SortKeyOfEntry(i: Int32)
    requires i >= 0
    ensures JavaSortKey(ChunkEntryName(i)) == Success(i)
  {
    var digits := NatToString(i);
    NoDashInDigits(digits);
    NoDashInChunk();
    assert ChunkEntryName(i) == "chunk" + ['-'] + digits;
    SplitAroundSeparator("chunk", '-', digits);
    ParseOfToString(i, INT_MIN, INT_MAX);
  }

  /** `chunk--5` splits into `["chunk", "", "5"]`: a negative index makes the comparator throw on "". */
  lemma SortKeyOfNegativeEntry(i: Int32)
    requires i < 0
    ensures JavaSortKey(ChunkEntryName(i)) == Failure(NumberFormat(""))
  {
    var digits := NatToString(-(i as int));
    NoDashInDigits(digits);
    NoDashInChunk();
    var n := ChunkEntryName(i);
    assert n == "chunk" + ['-'] + ("" + ['-'] + digits);
    SplitAllConcat("chunk", '-', "" + ['-'] + digits);
    SplitAllConcat("", '-', digits);
    SplitAllNoSeparator("chunk", '-');
    SplitAllNoSeparator(digits, '-');
    assert SplitAll(n, '-') == ["chunk", "", digits];
    assert Split(n, '-') == ["chunk", "", digits];
  }

  predicate StrictlyIncreasing(xs: seq<int>)
  {
    forall i, j :: 0 <= i < j < |xs| ==> xs[i] < xs[j]
  }

  /** The indices of `dir` from `lo` up to the largest int, in ascending order. */
  function KeysFrom(dir: ChunkDir, lo: int): seq<int>
    requires lo <= INT_MAX + 1
    decreases INT_MAX + 1 - lo
  {
    if lo > INT_MAX then []
    else
      var rest := KeysFrom(dir, lo + 1);
      if lo in dir then [lo] + rest else rest
  }

  /** `KeysFrom` lists, in strictly increasing order, exactly the indices of `dir` in `[lo, INT_MAX]`. */
  lemma {:induction false} KeysFromSorted(dir: ChunkDir, lo: int)
    requires lo <= INT_MAX + 1
    ensures var r := KeysFrom(dir, lo);
      && StrictlyIncreasing(r)
      && (forall k :: 0 <= k < |r| ==> r[k] in dir && lo <= r[k] <= INT_MAX)
      && (forall i :: i in dir && lo <= i <= INT_MAX ==> i in r)
    decreases INT_MAX + 1 - lo
  {
    if lo <= INT_MAX {
      KeysFromSorted(dir, lo + 1);
      var rest := KeysFrom(dir, lo + 1);
      if lo in dir {
        var r := [lo] + rest;
        assert forall k :: 0 < k < |r| ==> r[k] == rest[k - 1];
        forall i | i in dir && lo <= i <= INT_MAX ensures i in r {
          if i == lo { assert r[0] == i; } else { assert i in rest; var k :| 0 <= k < |rest| && rest[k] == i; assert r[k + 1] == i; }
        }
      }
    }
  }

  /**
   * `Arrays.sort` of the listed entries by the comparator's key: with two or
   * more entries every key is computed, so a negative index throws; the
   * result lists the indices in ascending order. One entry is never compared.
   */
  function SortChunks(dir: ChunkDir): (r: Result<seq<int>, UploadError>)
    ensures r.Failure? <==> |dir| >= 2 && exists i :: i in dir && i < 0
    ensures r.Success? ==> StrictlyIncreasing(r.value)
    ensures r.Success? ==> forall k :: 0 <= k < |r.value| ==> r.value[k] in dir
    ensures r.Success? ==> forall i :: i in dir && INT_MIN <= i <= INT_MAX ==> i in r.value
  {
    if |dir| >= 2 && exists i :: i in dir && i < 0 then Failure(NumberFormat(""))
    else
      KeysFromSorted(dir, INT_MIN);
      Success(KeysFrom(dir, INT_MIN))
  }

  /** The chunk contents, in the given order. */
  function ChunkBytes(dir: ChunkDir, order: seq<int>): (pieces: seq<seq<bv8>>)
    requires forall k :: 0 <= k < |order| ==> order[k] in dir
    ensures |pieces| == |order| && forall k :: 0 <= k < |order| ==> pieces[k] == dir[order[k]]
  {
    seq(|order|, k requires 0 <= k < |order| => dir[order[k]])
  }

  /**
   * `mergeChunks`: a missing directory fails before anything is created;
   * the output `<name>.mp4` is then opened (created empty if absent; a
   * directory of that name makes the open fail); an empty directory fails
   * and is kept; otherwise the chunks, in ascending index order, overwrite
   * the output from offset 0, and the chunks and their directory are deleted.
   */
  function MergeSpec(d: Disk, fileName: string): (Result<string, UploadError>, Disk)
  {
    var merged := fileName + ".mp4";
    if fileName !in d.staging then (Failure(Runtime("Directory not found for file: " + fileName)), d)
    else if merged in d.staging then (Failure(Runtime("Failed to merge chunks: " + merged)), d)
    else
      var out0 := if merged in d.files then d.files[merged] else [];
      var withOutput := d.(files := d.files[merged := out0]);
      var dir := d.staging[fileName];
      if |dir| == 0 then (Failure(Runtime("No chunks found for file: " + fileName)), withOutput)
      else
        match SortChunks(dir)
        case Failure(e) => (Failure(e), withOutput)
        case Success(order) =>
          (Success("File upload completed successfully: " + merged),
           Disk(d.staging - {fileName}, d.files[merged := WriteFromStart(out0, Flatten(ChunkBytes(dir, order)))]))
  }

  /** Indices missing from `[lo, hi)` contribute nothing to the merge order. */
  lemma {:induction false} KeysFromSkip(dir: ChunkDir, lo: int, hi: int)
    requires lo <= hi <= INT_MAX + 1
    requires forall i :: i in dir ==> i < lo || hi <= i
    ensures KeysFrom(dir, lo) == KeysFrom(dir, hi)
    decreases hi - lo
  {
    if lo < hi {
      KeysFromSkip(dir, lo + 1, hi);
    }
  }

  /** A run `m .. n` of present indices is merged in that order. */
  lemma {:induction false} KeysFromRun(dir: ChunkDir, m: int, n: int)
    requires m <= n + 1 <= INT_MAX + 1
    requires forall i :: m <= i <= n ==> i in dir
    ensures KeysFrom(dir, m) == Range(m, n + 1 - m) + KeysFrom(dir, n + 1)
    decreases n + 1 - m
  {
    if m <= n {
      KeysFromRun(dir, m + 1, n);
      assert Range(m, n + 1 - m) == [m] + Range(m + 1, n - m);
    }
  }

  /** A merge keeps the storage well formed. */
  lemma MergeKeepsValid(d: Disk, fileName: string)
    requires DiskValid(d)
    ensures DiskValid(MergeSpec(d, fileName).1)
  {
  }

  /** A merge of a missing directory fails and changes nothing. */
  lemma MergeMissingDirectory(d: Disk, fileName: string)
    requires fileName !in d.staging
    ensures MergeSpec(d, fileName) == (Failure(Runtime("Directory not found for file: " + fileName)), d)
  {
  }

  /** A merge of an empty directory fails, keeps the directory, and has already created the output. */
  lemma MergeEmptyDirectory(d: Disk, fileName: string)
    requires fileName in d.staging && fileName + ".mp4" !in d.staging && |d.staging[fileName]| == 0
    ensures var (r, d') := MergeSpec(d, fileName);
      && r == Failure(Runtime("No chunks found for file: " + fileName))
      && d'.staging == d.staging
      && fileName + ".mp4" in d'.files
  {
  }

  /**
   * A merge succeeds exactly when the directory exists, no directory is in
   * the way of the output, there is a chunk, and either there is only one
   * chunk or no index is negative.
   */
  lemma MergeSucceedsIff(d: Disk, fileName: string)
    ensures MergeSpec(d, fileName).0.Success? <==>
      && fileName in d.staging && fileName + ".mp4" !in d.staging
      && |d.staging[fileName]| != 0
      && (|d.staging[fileName]| < 2 || forall i :: i in d.staging[fileName] ==> i >= 0)
  {
  }

  /** After a successful merge the directory is gone, so merging the same name again fails. */
  lemma SecondMergeFails(d: Disk, fileName: string)
    requires MergeSpec(d, fileName).0.Success?
    ensures MergeSpec(MergeSpec(d, fileName).1, fileName) ==
      (Failure(Runtime("Directory not found for file: " + fileName)), MergeSpec(d, fileName).1)
  {
  }

  /**
   * A merge that gets past its checks writes every chunk, in ascending index
   * order, from offset 0 of the output, removes the directory and no other,
   * and leaves every other file alone.
   */
  lemma MergeSucceeded(d: Disk, fileName: string, order: seq<int>)
    requires fileName in d.staging && fileName + ".mp4" !in d.staging
    requires |d.staging[fileName]| != 0 && SortChunks(d.staging[fileName]) == Success(order)
    ensures var merged := fileName + ".mp4";
      var out0 := if merged in d.files then d.files[merged] else [];
      MergeSpec(d, fileName) == (Success("File upload completed successfully: " + merged),
        Disk(d.staging - {fileName}, d.files[merged := WriteFromStart(out0, Flatten(ChunkBytes(d.staging[fileName], order)))]))
    ensures StrictlyIncreasing(order)
    ensures DiskValid(d) ==> forall i :: i in d.staging[fileName] ==> i in order
  {
    var dir := d.staging[fileName];
    if DiskValid(d) {
      assert IndicesInRange(dir);
    }
  }

  lemma SortTwoAndTen(dir: ChunkDir, ten: seq<bv8>, two: seq<bv8>)
    requires dir == map[10 := ten, 2 := two]
    ensures |dir| != 0 && SortChunks(dir) == Success([2, 10])
    ensures ChunkBytes(dir, [2, 10]) == [two, ten]
  {
    assert forall i :: i in dir ==> i == 2 || i == 10;
    KeysFromSkip(dir, INT_MIN, 2);
    KeysFromSkip(dir, 3, 10);
    KeysFromSkip(dir, 11, INT_MAX + 1);
    assert KeysFrom(dir, 10) == [10];
    assert KeysFrom(dir, 2) == [2, 10];
    assert !exists i :: i in dir && i < 0;
  }

  /** Numeric, not lexicographic, order: `chunk-2` is merged before `chunk-10`. */
  lemma MergeOrdersNumerically(d: Disk, fileName: string, ten: seq<bv8>, two: seq<bv8>)
    requires fileName in d.staging && d.staging[fileName] == map[10 := ten, 2 := two]
    requires fileName + ".mp4" !in d.staging && fileName + ".mp4" !in d.files
    ensures MergeSpec(d, fileName).0.Success?
    ensures MergeSpec(d, fileName).1.files[fileName + ".mp4"] == two + ten
  {
    SortTwoAndTen(d.staging[fileName], ten, two);
    MergeSucceeded(d, fileName, [2, 10]);
    assert Flatten([two, ten]) == two + Flatten([ten]);
    assert Flatten([ten]) == ten + Flatten([]);
    assert WriteFromStart([], two + ten) == two + ten;
  }

  /** Saving `chunks` as indices `first`, `first + 1`, ... of one directory, in order. */
  function SaveAll(d: Disk, chunks: seq<Upload>, first: int, totalChunks: Int32, fileName: string): Disk
    requires INT_MIN <= first && first + |chunks| <= INT_MAX + 1
    decreases |chunks|
  {
    if |chunks| == 0 then d
    else SaveAll(SaveChunkSpec(d, chunks[0], first, totalChunks, fileName).1, chunks[1..], first + 1, totalChunks, fileName)
  }

  /** A valid chunk saved under a fresh index of a name that is no regular file, unfolded. */
  lemma SaveFreshChunk(d: Disk, file: Upload, chunkIndex: Int32, totalChunks: Int32, fileName: string)
    requires ValidateChunk(file, chunkIndex).None? && chunkIndex <= totalChunks && fileName !in d.files
    requires chunkIndex !in Existing(d, fileName)
    ensures var before := Existing(d, fileName);
      SaveChunkSpec(d, file, chunkIndex, totalChunks, fileName).1 ==
        Disk(d.staging[fileName := before[chunkIndex := file.bytes]], d.files)
  {
    assert WriteFromStart([], file.bytes) == file.bytes;
  }

  /** `after` differs from `before` at most in staging directory `fileName`. */
  ghost predicate SameOutside(before: Disk, after: Disk, fileName: string)
  {
    && after.files == before.files
    && (forall other :: other != fileName ==> (other in after.staging <==> other in before.staging))
    && (forall other :: other != fileName && other in before.staging ==> after.staging[other] == before.staging[other])
  }

  lemma SameOutsideTransitive(a: Disk, b: Disk, c: Disk, fileName: string)
    requires SameOutside(a, b, fileName) && SameOutside(b, c, fileName)
    ensures SameOutside(a, c, fileName)
  {
  }

  /** Saving chunks of one name touches no regular file and no other staging directory. */
  lemma {:induction false} SaveAllKeepsOthers(d: Disk, chunks: seq<Upload>, first: int, totalChunks: Int32, fileName: string)
    requires INT_MIN <= first && first + |chunks| <= INT_MAX + 1
    ensures SameOutside(d, SaveAll(d, chunks, first, totalChunks, fileName), fileName)
    decreases |chunks|
  {
    if |chunks| > 0 {
      var d1 := SaveChunkSpec(d, chunks[0], first, totalChunks, fileName).1;
      SaveChunkFrame(d, chunks[0], first, totalChunks, fileName);
      assert SameOutside(d, d1, fileName);
      SaveAllKeepsOthers(d1, chunks[1..], first + 1, totalChunks, fileName);
      assert SaveAll(d, chunks, first, totalChunks, fileName) == SaveAll(d1, chunks[1..], first + 1, totalChunks, fileName);
      SameOutsideTransitive(d, d1, SaveAll(d1, chunks[1..], first + 1, totalChunks, fileName), fileName);
    } else {
      assert SaveAll(d, chunks, first, totalChunks, fileName) == d;
    }
  }

  /** The directory facts `SaveAllStages` promises, for a directory `before` grown into `after`. */
  ghost predicate StagedAfter(before: ChunkDir, after: ChunkDir, chunks: seq<Upload>, first: int)
  {
    && (forall i :: i in after <==> i in before || first <= i < first + |chunks|)
    && (forall i :: i in before ==> after[i] == before[i])
    && (forall k :: 0 <= k < |chunks| ==> after[first + k] == chunks[k].bytes)
  }

  /** One fresh entry followed by the rest is the whole run of entries. */
  lemma StagedStep(before: ChunkDir, after: ChunkDir, chunks: seq<Upload>, first: int)
    requires |chunks| > 0 && first !in before
    requires StagedAfter(before[first := chunks[0].bytes], after, chunks[1..], first + 1)
    ensures StagedAfter(before, after, chunks, first)
  {
    var tail := chunks[1..];
    forall k | 0 <= k < |chunks| ensures after[first + k] == chunks[k].bytes {
      if k > 0 { assert tail[k - 1] == chunks[k]; }
    }
  }

  /** Chunk k of `chunks` passes validation as index `first + k`. */
  ghost predicate ChunksValid(chunks: seq<Upload>, first: int)
    requires INT_MIN <= first && first + |chunks| <= INT_MAX + 1
  {
    forall k :: 0 <= k < |chunks| ==> ValidateChunk(chunks[k], first + k).None?
  }

  /** Every index of `dir` lies below `bound`. */
  ghost predicate Below(dir: ChunkDir, bound: int)
  {
    forall i :: i in dir ==> i < bound
  }

  lemma ChunksValidTail(chunks: seq<Upload>, first: int)
    requires |chunks| > 0 && INT_MIN <= first && first + |chunks| <= INT_MAX + 1
    requires ChunksValid(chunks, first)
    ensures ValidateChunk(chunks[0], first).None? && ChunksValid(chunks[1..], first + 1)
  {
    assert ValidateChunk(chunks[0], first + 0).None?;
    forall k | 0 <= k < |chunks[1..]| ensures ValidateChunk(chunks[1..][k], first + 1 + k).None? {
      assert chunks[1..][k] == chunks[k + 1];
    }
  }

  /** After a fresh entry at `first`, all indices lie below `first + 1`. */
  lemma BelowStep(dir: ChunkDir, first: int, b: seq<bv8>)
    requires Below(dir, first)
    ensures Below(dir[first := b], first + 1) && first !in dir
  {
  }

  /**
   * Saving valid chunks under consecutive fresh indices adds exactly those
   * entries to the directory, with the chunks' bytes.
   */
  lemma {:induction false} SaveAllStages(d: Disk, chunks: seq<Upload>, first: int, totalChunks: Int32, fileName: string)
    requires INT_MIN <= first && first + |chunks| <= INT_MAX + 1 && first + |chunks| - 1 <= totalChunks
    requires ChunksValid(chunks, first)
    requires fileName !in d.files
    requires Below(Existing(d, fileName), first)
    ensures var d' := SaveAll(d, chunks, first, totalChunks, fileName);
      && (|chunks| > 0 ==> fileName in d'.staging)
      && (fileName in d'.staging ==> StagedAfter(Existing(d, fileName), d'.staging[fileName], chunks, first))
    decreases |chunks|
  {
    var before := Existing(d, fileName);
    if |chunks| > 0 {
      ChunksValidTail(chunks, first);
      BelowStep(before, first, chunks[0].bytes);
      SaveFreshChunk(d, chunks[0], first, totalChunks, fileName);
      var d1 := SaveChunkSpec(d, chunks[0], first, totalChunks, fileName).1;
      assert Existing(d1, fileName) == before[first := chunks[0].bytes];
      SaveAllStages(d1, chunks[1..], first + 1, totalChunks, fileName);
      var d' := SaveAll(d, chunks, first, totalChunks, fileName);
      assert d' == SaveAll(d1, chunks[1..], first + 1, totalChunks, fileName);
      StagedStep(before, d'.staging[fileName], chunks, first);
    } else {
      assert SaveAll(d, chunks, first, totalChunks, fileName) == d;
    }
  }

  function Range(lo: int, n: nat): (r: seq<int>)
    ensures |r| == n && forall k :: 0 <= k < n ==> r[k] == lo + k
  {
    seq(n, k requires 0 <= k < n => lo + k)
  }

  /** The bytes of each upload, in order. */
  function Payloads(chunks: seq<Upload>): (r: seq<seq<bv8>>)
    ensures |r| == |chunks| && forall k :: 0 <= k < |chunks| ==> r[k] == chunks[k].bytes
  {
    seq(|chunks|, k requires 0 <= k < |chunks| => chunks[k].bytes)
  }

  /** A directory holding exactly the indices 1..n sorts to 1..n. */
  lemma SortContiguous(dir: ChunkDir, n: nat)
    requires 0 < n <= INT_MAX
    requires forall i :: i in dir <==> 1 <= i < 1 + n
    ensures |dir| != 0 && SortChunks(dir) == Success(Range(1, n))
  {
    KeysFromSkip(dir, INT_MIN, 1);
    KeysFromRun(dir, 1, n);
    KeysFromSkip(dir, n + 1, INT_MAX + 1);
    assert Range(1, n) + [] == Range(1, n);
    assert 1 in dir;
  }

  /** Chunks staged under 1..n come out in upload order. */
  lemma ContiguousBytes(dir: ChunkDir, chunks: seq<Upload>)
    requires forall i :: i in dir <==> 1 <= i < 1 + |chunks|
    requires forall k :: 0 <= k < |chunks| ==> dir[1 + k] == chunks[k].bytes
    ensures ChunkBytes(dir, Range(1, |chunks|)) == Payloads(chunks)
  {
    var ks := Range(1, |chunks|);
    forall k | 0 <= k < |chunks| ensures ChunkBytes(dir, ks)[k] == Payloads(chunks)[k] {
      assert ks[k] == 1 + k;
    }
  }

  /** A directory grown from nothing by chunks 1..n sorts to 1..n and merges them in upload order. */
  lemma StagedFromEmpty(dir: ChunkDir, chunks: seq<Upload>)
    requires 0 < |chunks| <= INT_MAX && StagedAfter(map[], dir, chunks, 1)
    ensures |dir| != 0 && SortChunks(dir) == Success(Range(1, |chunks|))
    ensures ChunkBytes(dir, Range(1, |chunks|)) == Payloads(chunks)
  {
    SortContiguous(dir, |chunks|);
    ContiguousBytes(dir, chunks);
  }

  /** Saving the chunks of a fresh name stages exactly them and leaves the output name free. */
  lemma SaveAllFresh(d: Disk, chunks: seq<Upload>, fileName: string)
    requires fileName !in d.staging && fileName !in d.files
    requires fileName + ".mp4" !in d.staging && fileName + ".mp4" !in d.files
    requires 0 < |chunks| <= INT_MAX
    requires ChunksValid(chunks, 1)
    ensures var saved := SaveAll(d, chunks, 1, |chunks|, fileName);
      && fileName in saved.staging && StagedAfter(map[], saved.staging[fileName], chunks, 1)
      && fileName + ".mp4" !in saved.staging && fileName + ".mp4" !in saved.files
  {
    SaveAllStages(d, chunks, 1, |chunks|, fileName);
    SaveAllKeepsOthers(d, chunks, 1, |chunks|, fileName);
    assert fileName + ".mp4" != fileName by { assert |fileName + ".mp4"| != |fileName|; }
  }

  /**
   * The chunked-upload round trip: saving the pieces of a video as chunks
   * 1..n of a fresh name, then merging, stores exactly their concatenation
   * as `<name>.mp4` and leaves no staging directory behind.
   */
  lemma SaveThenMergeRoundTrip(d: Disk, chunks: seq<Upload>, fileName: string)
    requires fileName !in d.staging && fileName !in d.files
    requires fileName + ".mp4" !in d.staging && fileName + ".mp4" !in d.files
    requires 0 < |chunks| <= INT_MAX
    requires forall k :: 0 <= k < |chunks| ==> ValidateChunk(chunks[k], k + 1).None?
    ensures var saved := SaveAll(d, chunks, 1, |chunks|, fileName);
      var (r, merged) := MergeSpec(saved, fileName);
      && r.Success?
      && merged.files[fileName + ".mp4"] == Flatten(Payloads(chunks))
      && fileName !in merged.staging
  {
    assert ChunksValid(chunks, 1);
    SaveAllFresh(d, chunks, fileName);
    var saved := SaveAll(d, chunks, 1, |chunks|, fileName);
    StagedFromEmpty(saved.staging[fileName], chunks);
    MergeSucceeded(saved, fileName, Range(1, |chunks|));
    assert WriteFromStart([], Flatten(Payloads(chunks))) == Flatten(Payloads(chunks));
  }

  // ---------------------------------------------------------------- save whole file

  /**
   * `saveVideoToLocal`: validation, then the bytes are copied to
   * `<uuid><extension>` with REPLACE_EXISTING: a regular file or an empty
   * directory of that name is replaced outright (no old tail survives), a
   * non-empty directory makes the copy fail.
   */
  function SaveToLocalSpec(d: Disk, file: Upload, uuid: string): (Result<string, UploadError>, Disk)
  {
    match ValidateFile(file)
    case Some(e) => (Failure(e), d)
    case None =>
      var name := uuid + FileExtension(file.originalFilename);
      if name in d.staging && |d.staging[name]| != 0 then (Failure(Runtime("Failed to save file: " + name)), d)
      else (Success("File uploaded successfully to: " + name), Disk(d.staging - {name}, d.files[name := file.bytes]))
  }

  /**
   * A whole-file upload succeeds exactly when the file passes validation and
   * no non-empty directory holds its name; it then stores exactly the
   * uploaded bytes under `<uuid><extension>` and changes no other file.
   */
  lemma SaveToLocalOutcome(d: Disk, file: Upload, uuid: string)
    ensures var (r, d') := SaveToLocalSpec(d, file, uuid);
      var name := uuid + FileExtension(file.originalFilename);
      && (r.Success? <==> ValidateFile(file).None? && !(name in d.staging && |d.staging[name]| != 0))
      && (r.Failure? ==> d' == d)
      && (r.Success? ==>
            && d'.files[name] == file.bytes && d'.staging == d.staging - {name}
            && forall other :: other != name ==> (other in d'.files <==> other in d.files))
  {
  }

  /** A whole-file upload keeps the storage well formed. */
  lemma SaveToLocalKeepsValid(d: Disk, file: Upload, uuid: string)
    requires DiskValid(d)
    ensures DiskValid(SaveToLocalSpec(d, file, uuid).1)
  {
    var d' := SaveToLocalSpec(d, file, uuid).1;
    forall name | name in d'.staging ensures IndicesInRange(d'.staging[name]) {
      assert name in d.staging;
    }
  }

  /** The stored name keeps the original extension: "clip.final.MP4" is stored as `<uuid>.MP4`. */
  lemma SaveToLocalKeepsExtension(d: Disk, file: Upload, uuid: string, base: string, ext: string)
    requires file.originalFilename == Some(base + "." + ext) && '.' !in ext
    requires SaveToLocalSpec(d, file, uuid).0.Success?
    ensures uuid + "." + ext in SaveToLocalSpec(d, file, uuid).1.files
  {
    FileExtensionOfDotted(base, ext);
    assert uuid + FileExtension(file.originalFilename) == uuid + "." + ext;
    SaveToLocalOutcome(d, file, uuid);
  }

  // ---------------------------------------------------------------- the service

  /**
   * `FileChannel.transferTo(position, count, target)` as the merge loop sees
   * it: some bytes, at least one and at most `count`, are moved.
   */
  method TransferTo(source: seq<bv8>, position: nat, count: nat) returns (n: nat)
    requires 0 < count && position + count <= |source|
    ensures 0 < n <= count
  {
    n := count;
  }

  /** `a` and `b` agree on every key but `key`. */
  ghost predicate AgreeExcept<V>(a: map<string, V>, b: map<string, V>, key: string)
  {
    a - {key} == b - {key}
  }

  lemma AgreeExceptUpdate<V>(a: map<string, V>, b: map<string, V>, key: string, v: V)
    requires AgreeExcept(a, b, key)
    ensures AgreeExcept(a[key := v], b, key)
  {
    assert a[key := v] - {key} == a - {key};
  }

  lemma AgreeExceptTransitive<V>(a: map<string, V>, b: map<string, V>, c: map<string, V>, key: string)
    requires AgreeExcept(a, b, key) && AgreeExcept(b, c, key)
    ensures AgreeExcept(a, c, key)
  {
  }

  lemma AgreeExceptIsUpdate<V>(a: map<string, V>, b: map<string, V>, key: string)
    requires AgreeExcept(a, b, key) && key in a
    ensures a == b[key := a[key]]
  {
    forall k | k != key ensures (k in a <==> k in b) && (k in a ==> a[k] == b[k]) {
      assert k in a <==> k in a - {key};
      assert k in b <==> k in b - {key};
      if k in a { assert a[k] == (a - {key})[k] == (b - {key})[k] == b[k]; }
    }
  }

  /** The upload service over the storage root: staging directories and regular files. */
  class VideoUploadService {
    var staging: map<string, ChunkDir>
    var files: map<string, seq<bv8>>

    function State(): Disk
      reads this
    {
      Disk(staging, files)
    }

    constructor(d: Disk)
      ensures State() == d
    {
      staging := d.staging;
      files := d.files;
    }

    method SaveVideoChunk(file: Upload, chunkIndex: Int32, totalChunks: Int32, fileName: string)
      returns (r: Result<string, UploadError>)
      modifies this
      ensures (r, State()) == SaveChunkSpec(old(State()), file, chunkIndex, totalChunks, fileName)
    {
      var invalid := ValidateChunk(file, chunkIndex);
      if invalid.Some? {
        return Failure(invalid.value);
      }
      if fileName !in staging && fileName !in files {
        staging := staging[fileName := map[]];
      }
      if chunkIndex > totalChunks {
        return Failure(Runtime("chunkIndex can not be more then total chunks"));
      }
      if fileName in files {
        return Failure(Runtime("Failed to save chunk: " + fileName + "/" + ChunkEntryName(chunkIndex)));
      }
      var dir := staging[fileName];
      var previous := if chunkIndex in dir then dir[chunkIndex] else [];
      staging := staging[fileName := dir[chunkIndex := WriteFromStart(previous, file.bytes)]];
      r := Success("Chunk " + IntToString(chunkIndex) + " of " + IntToString(totalChunks) + " uploaded successfully.");
    }

    /**
     * Copies one chunk to the end of what has been merged so far, in as many
     * transfers as it takes.
     */
    method AppendChunk(merged: string, start: nat, chunk: seq<bv8>, ghost out0: seq<bv8>, ghost done: seq<bv8>)
      requires merged in files && files[merged] == WriteFromStart(out0, done) && start == |done|
      modifies this
      ensures staging == old(staging)
      ensures merged in files && files[merged] == WriteFromStart(out0, done + chunk)
      ensures AgreeExcept(files, old(files), merged)
    {
      var position := 0;
      assert done + chunk[..0] == done;
      while position < |chunk|
        invariant position <= |chunk|
        invariant staging == old(staging)
        invariant merged in files && files[merged] == WriteFromStart(out0, done + chunk[..position])
        invariant AgreeExcept(files, old(files), merged)
        decreases |chunk| - position
      {
        var n := TransferTo(chunk, position, |chunk| - position);
        var out := files[merged];
        ghost var written := done + chunk[..position];
        OverwriteTwice(out0, 0, written, chunk[position..position + n]);
        assert written + chunk[position..position + n] == done + chunk[..position + n];
        AgreeExceptUpdate(files, old(files), merged, Overwrite(out, start + position, chunk[position..position + n]));
        files := files[merged := Overwrite(out, start + position, chunk[position..position + n])];
        position := position + n;
      }
      assert chunk[..position] == chunk;
    }

    /** Deletes one chunk entry of a staging directory. */
    method DeleteChunk(fileName: string, index: int)
      requires fileName in staging
      modifies this
      ensures files == old(files)
      ensures fileName in staging && staging[fileName] == old(staging)[fileName] - {index}
      ensures AgreeExcept(staging, old(staging), fileName)
    {
      AgreeExceptUpdate(staging, staging, fileName, staging[fileName] - {index});
      staging := staging[fileName := staging[fileName] - {index}];
    }

    /**
     * The loop of `mergeChunks`: each chunk, in the sorted order, is appended
     * to the output and then deleted from its directory.
     */
    method CopyInOrder(fileName: string, merged: string, dir: ChunkDir, order: seq<int>, ghost out0: seq<bv8>)
      requires fileName in staging && merged in files && files[merged] == WriteFromStart(out0, [])
      requires forall k :: 0 <= k < |order| ==> order[k] in dir
      modifies this
      ensures fileName in staging && AgreeExcept(staging, old(staging), fileName)
      ensures merged in files && files[merged] == WriteFromStart(out0, Flatten(ChunkBytes(dir, order)))
      ensures AgreeExcept(files, old(files), merged)
    {
      var pieces := ChunkBytes(dir, order);
      assert pieces[..0] == [];
      var written := 0;
      for j := 0 to |order|
        invariant fileName in staging && AgreeExcept(staging, old(staging), fileName)
        invariant merged in files && files[merged] == WriteFromStart(out0, Flatten(pieces[..j]))
        invariant AgreeExcept(files, old(files), merged)
        invariant written == |Flatten(pieces[..j])|
      {
        ghost var filesBefore := files;
        ghost var stagingBefore := staging;
        var chunk := dir[order[j]];
        FlattenPrefixStep(pieces, j);
        AppendChunk(merged, written, chunk, out0, Flatten(pieces[..j]));
        written := written + |chunk|;
        AgreeExceptTransitive(files, filesBefore, old(files), merged);
        DeleteChunk(fileName, order[j]);
        AgreeExceptTransitive(staging, stagingBefore, old(staging), fileName);
      }
      assert pieces[..|order|] == pieces;
    }

    method MergeChunks(fileName: string) returns (r: Result<string, UploadError>)
      modifies this
      ensures (r, State()) == MergeSpec(old(State()), fileName)
    {
      ghost var d := State();
      if fileName !in staging {
        return Failure(Runtime("Directory not found for file: " + fileName));
      }
      var merged := fileName + ".mp4";
      if merged in staging {
        return Failure(Runtime("Failed to merge chunks: " + merged));
      }
      var out0 := if merged in files then files[merged] else [];
      files := files[merged := out0];
      var dir := staging[fileName];
      if |dir| == 0 {
        return Failure(Runtime("No chunks found for file: " + fileName));
      }
      var sorted := SortChunks(dir);
      if sorted.Failure? {
        return Failure(sorted.error);
      }
      assert WriteFromStart(out0, []) == out0;
      ghost var filesOpened := files;
      CopyInOrder(fileName, merged, dir, sorted.value, out0);
      staging := staging - {fileName};
      r := Success("File upload completed successfully: " + merged);
      MergeSucceeded(d, fileName, sorted.value);
      AgreeExceptTransitive(files, filesOpened, d.files, merged);
      AgreeExceptIsUpdate(files, d.files, merged);
    }

    method SaveVideoToLocal(file: Upload, uuid: string) returns (r: Result<string, UploadError>)
      modifies this
      ensures (r, State()) == SaveToLocalSpec(old(State()), file, uuid)
    {
      var invalid := ValidateFile(file);
      if invalid.Some? {
        return Failure(invalid.value);
      }
      var name := uuid + FileExtension(file.originalFilename);
      if name in staging && |staging[name]| != 0 {
        return Failure(Runtime("Failed to save file: " + name));
      }
      staging := staging - {name};
      files := files[name := file.bytes];
      r := Success("File uploaded successfully to: " + name);
    }
  }
}
