/**
 * FileChunkService: the server-side splitter. An uploaded file is stored as
 * `temp_<name>` in the chunk storage location, cut into 1 MiB pieces written
 * as `chunk1`, `chunk2`, ... in the same location, and the temporary file is
 * deleted whatever happens.
 *
 * The file system is a `Store`: the set of directories that exist and the
 * regular files of the chunk storage location, by name.
 */
module FileChunk {
  import opened Wrappers
  import opened JavaText
  import opened Tiling
  import VideoUpload

  const CHUNK_SIZE: nat := 1024 * 1024

  /** The exceptions that leave the service; an `IOException` carries the path it is about. */
  datatype ChunkError = IOError(message: string) | IllegalArgument(message: string)

  datatype Store = Store(dirs: set<string>, entries: map<string, seq<bv8>>)

  // ---------------------------------------------------------------- ensureDirectoryExists

  /**
   * `ensureDirectoryExists`: an existing directory is left as it is (mkdirs
   * is not called); otherwise mkdirs either creates it or reports false,
   * which is an IOException.
   */
  function EnsureSpec(dirs: set<string>, path: string, mkdirsSucceeds: bool): (Result<(), ChunkError>, set<string>)
  {
    if path in dirs then (Success(()), dirs)
    else if mkdirsSucceeds then (Success(()), dirs + {path})
    else (Failure(IOError("Failed to create directory: " + path)), dirs)
  }

  /** It fails exactly when the directory is missing and cannot be created; afterwards it exists. */
  lemma EnsureOutcome(dirs: set<string>, path: string, mkdirsSucceeds: bool)
    ensures var (r, dirs') := EnsureSpec(dirs, path, mkdirsSucceeds);
      && (r.Failure? <==> path !in dirs && !mkdirsSucceeds)
      && (r.Failure? ==> r.error == IOError("Failed to create directory: " + path) && dirs' == dirs)
      && (r.Success? ==> dirs' == dirs + {path})
  {
  }

  /** Idempotence: once it has succeeded, a second call succeeds and changes nothing, whatever mkdirs would do. */
  lemma EnsureIdempotent(dirs: set<string>, path: string, first: bool, second: bool)
    requires EnsureSpec(dirs, path, first).0.Success?
    ensures var dirs' := EnsureSpec(dirs, path, first).1;
      EnsureSpec(dirs', path, second) == (Success(()), dirs')
  {
  }

  // ---------------------------------------------------------------- chunk names

  /** The name of the k-th piece: "chunk" + k, with no separator. */
  function ChunkFileName(k: int): string
  {
    "chunk" + IntToString(k)
  }

  lemma ChunkFileNameInjective(a: int, b: int)
    requires ChunkFileName(a) == ChunkFileName(b)
    ensures a == b
  {
    assert ChunkFileName(a)[5..] == IntToString(a);
    assert ChunkFileName(b)[5..] == IntToString(b);
    IntToStringInjective(a, b);
  }

  /** A name that cannot be any piece's name. */
  predicate NotChunkName(name: string)
  {
    !StartsWith(name, "chunk")
  }

  lemma NotChunkNameDiffers(name: string, k: int)
    requires NotChunkName(name)
    ensures name != ChunkFileName(k)
  {
    assert ChunkFileName(k)[..5] == "chunk";
  }

  function TempName(fileName: string): string
  {
    "temp_" + fileName
  }

  lemma TempNameNotChunkName(fileName: string)
    ensures NotChunkName(TempName(fileName))
  {
    assert TempName(fileName)[0] == 't';
  }

  /**
   * The pieces' names cannot be merged by the chunked-upload service: it
   * takes the text after the first '-' as the index, and "chunk<k>" has no
   * '-', so its sort key fails with an index-out-of-bounds error.
   */
  lemma ChunkNamesNotMergeable(k: nat)
    ensures VideoUpload.JavaSortKey(ChunkFileName(k)) == Failure(VideoUpload.Runtime("Index 1 out of bounds for length 1"))
  {
    var digits := NatToString(k);
    VideoUpload.NoDashInDigits(digits);
    VideoUpload.NoDashInChunk();
    var name := ChunkFileName(k);
    assert name == "chunk" + digits;
    forall i | 0 <= i < |name| ensures name[i] != '-' {
      if i < 5 { assert name[i] == "chunk"[i]; } else { assert name[i] == digits[i - 5]; }
    }
    SplitNoSeparator(name, '-');
    assert |Split(name, '-')| == 1;
    assert VideoUpload.JavaSortKey(name) == Failure(VideoUpload.Runtime("Index 1 out of bounds for length " + IntToString(1)));
    assert IntToString(1) == "1";
    assert "Index 1 out of bounds for length " + IntToString(1) == "Index 1 out of bounds for length 1";
  }

  // ---------------------------------------------------------------- chunkFile

  /**
   * The files after writing pieces `ps` as chunk1..chunk|ps|. Each write
   * truncates: the file holds exactly the piece, whatever it held before.
   */
  function WrittenChunks(entries: map<string, seq<bv8>>, ps: seq<seq<bv8>>): map<string, seq<bv8>>
  {
    if |ps| == 0 then entries
    else WrittenChunks(entries, ps[..|ps| - 1])[ChunkFileName(|ps|) := ps[|ps| - 1]]
  }

  /** Writing piece i + 1 after the first i. */
  lemma WrittenChunksSnoc(entries: map<string, seq<bv8>>, ps: seq<seq<bv8>>, i: nat)
    requires i < |ps|
    ensures WrittenChunks(entries, ps[..i + 1]) == WrittenChunks(entries, ps[..i])[ChunkFileName(i + 1) := ps[i]]
  {
    assert ps[..i + 1][..i] == ps[..i];
  }

  /** chunk<k> holds piece k (counting from 1)... */
  lemma {:induction false} WrittenChunksAt(entries: map<string, seq<bv8>>, ps: seq<seq<bv8>>, k: int)
    requires 1 <= k <= |ps|
    ensures ChunkFileName(k) in WrittenChunks(entries, ps)
    ensures WrittenChunks(entries, ps)[ChunkFileName(k)] == ps[k - 1]
  {
    if k < |ps| {
      WrittenChunksAt(entries, ps[..|ps| - 1], k);
      if ChunkFileName(k) == ChunkFileName(|ps|) {
        ChunkFileNameInjective(k, |ps|);
      }
    }
  }

  /** ...and every other file is as it was: not created, not changed, not removed. */
  lemma {:induction false} WrittenChunksOther(entries: map<string, seq<bv8>>, ps: seq<seq<bv8>>, name: string)
    requires forall k :: 1 <= k <= |ps| ==> name != ChunkFileName(k)
    ensures name in WrittenChunks(entries, ps) <==> name in entries
    ensures name in entries ==> WrittenChunks(entries, ps)[name] == entries[name]
  {
    if |ps| > 0 {
      assert name != ChunkFileName(|ps|);
      WrittenChunksOther(entries, ps[..|ps| - 1], name);
    }
  }

  /** The files chunk1..chunkn read back in order. */
  function ReadChunks(entries: map<string, seq<bv8>>, n: nat): (r: seq<seq<bv8>>)
    requires forall k :: 1 <= k <= n ==> ChunkFileName(k) in entries
    ensures |r| == n
  {
    if n == 0 then [] else ReadChunks(entries, n - 1) + [entries[ChunkFileName(n)]]
  }

  /** Reading the written chunks back in order gives the pieces. */
  lemma {:induction false} ReadWrittenChunks(entries: map<string, seq<bv8>>, ps: seq<seq<bv8>>, n: nat)
    requires n <= |ps|
    requires forall k :: 1 <= k <= n ==> ChunkFileName(k) in WrittenChunks(entries, ps)
    ensures ReadChunks(WrittenChunks(entries, ps), n) == ps[..n]
  {
    if n > 0 {
      ReadWrittenChunks(entries, ps, n - 1);
      WrittenChunksAt(entries, ps, n);
      assert ps[..n] == ps[..n - 1] + [ps[n - 1]];
    }
  }

  /**
   * `chunkFile`: the target directory is ensured; a missing source cannot
   * be opened; otherwise its bytes are cut into 1 MiB pieces, written as
   * chunk1..chunkN.
   */
  function ChunkFileSpec(s: Store, target: string, source: string, mkdirsSucceeds: bool): (Result<(), ChunkError>, Store)
  {
    var (ensured, dirs) := EnsureSpec(s.dirs, target, mkdirsSucceeds);
    if ensured.Failure? then (Failure(ensured.error), s)
    else if source !in s.entries then (Failure(IOError(source)), Store(dirs, s.entries))
    else (Success(()), Store(dirs, WrittenChunks(s.entries, Pieces(s.entries[source], CHUNK_SIZE))))
  }

  /** There are N = ceil(|data| / 1 MiB) chunks, and none for empty data. */
  lemma ChunkCount(data: seq<bv8>)
    ensures var N := |Pieces(data, CHUNK_SIZE)|;
      && (|data| == 0 <==> N == 0)
      && (N > 0 ==> (N - 1) * CHUNK_SIZE < |data| <= N * CHUNK_SIZE)
  {
    PiecesCount(data, CHUNK_SIZE);
  }

  /**
   * chunk<k> holds bytes [(k-1) MiB, min(k MiB, |data|)), is non-empty, at
   * most 1 MiB, and exactly 1 MiB unless it is the last.
   */
  lemma ChunkContent(entries: map<string, seq<bv8>>, data: seq<bv8>, k: int)
    requires 1 <= k <= |Pieces(data, CHUNK_SIZE)|
    ensures var files := WrittenChunks(entries, Pieces(data, CHUNK_SIZE));
      && ChunkFileName(k) in files
      && (k - 1) * CHUNK_SIZE < |data|
      && files[ChunkFileName(k)] == data[(k - 1) * CHUNK_SIZE .. Min(k * CHUNK_SIZE, |data|)]
      && 0 < |files[ChunkFileName(k)]| <= CHUNK_SIZE
      && (k < |Pieces(data, CHUNK_SIZE)| ==> |files[ChunkFileName(k)]| == CHUNK_SIZE)
  {
    var ps := Pieces(data, CHUNK_SIZE);
    WrittenChunksAt(entries, ps, k);
    PieceAt(data, CHUNK_SIZE, k - 1);
    PiecesShape(data, CHUNK_SIZE, k - 1);
    assert (k - 1) * CHUNK_SIZE + CHUNK_SIZE == k * CHUNK_SIZE;
  }

  /** chunk1..chunkN concatenated are the source bytes exactly. */
  lemma ChunksReassemble(entries: map<string, seq<bv8>>, data: seq<bv8>)
    ensures var ps := Pieces(data, CHUNK_SIZE);
      var files := WrittenChunks(entries, ps);
      && (forall k :: 1 <= k <= |ps| ==> ChunkFileName(k) in files)
      && Flatten(ReadChunks(files, |ps|)) == data
  {
    var ps := Pieces(data, CHUNK_SIZE);
    forall k | 1 <= k <= |ps| ensures ChunkFileName(k) in WrittenChunks(entries, ps) {
      WrittenChunksAt(entries, ps, k);
    }
    ReadWrittenChunks(entries, ps, |ps|);
    assert ps[..|ps|] == ps;
    FlattenPieces(data, CHUNK_SIZE);
  }

  /** Chunk files from an earlier, longer run (index above N) are left as they were. */
  lemma StaleChunksKept(entries: map<string, seq<bv8>>, data: seq<bv8>, k: int)
    requires k > |Pieces(data, CHUNK_SIZE)|
    ensures var files := WrittenChunks(entries, Pieces(data, CHUNK_SIZE));
      && (ChunkFileName(k) in files <==> ChunkFileName(k) in entries)
      && (ChunkFileName(k) in entries ==> files[ChunkFileName(k)] == entries[ChunkFileName(k)])
  {
    var ps := Pieces(data, CHUNK_SIZE);
    forall j | 1 <= j <= |ps| ensures ChunkFileName(k) != ChunkFileName(j) {
      if ChunkFileName(k) == ChunkFileName(j) { ChunkFileNameInjective(k, j); }
    }
    WrittenChunksOther(entries, ps, ChunkFileName(k));
  }

  /** Files whose names are not chunk names (the source among them) are not touched. */
  lemma NonChunkFilesKept(entries: map<string, seq<bv8>>, data: seq<bv8>, name: string)
    requires NotChunkName(name)
    ensures var files := WrittenChunks(entries, Pieces(data, CHUNK_SIZE));
      && (name in files <==> name in entries)
      && (name in entries ==> files[name] == entries[name])
  {
    var ps := Pieces(data, CHUNK_SIZE);
    forall j | 1 <= j <= |ps| ensures name != ChunkFileName(j) {
      NotChunkNameDiffers(name, j);
    }
    WrittenChunksOther(entries, ps, name);
  }

  /** One turn of the `chunkFile` loop: from offset i MiB it copies piece i and lands on the next offset or the end. */
  lemma ChunkStep(data: seq<bv8>, i: nat, position: nat)
    requires i < |Pieces(data, CHUNK_SIZE)| && position == i * CHUNK_SIZE
    ensures position < |data|
    ensures var next := position + Min(|data| - position, CHUNK_SIZE);
      && data[position .. next] == Pieces(data, CHUNK_SIZE)[i]
      && (i + 1 < |Pieces(data, CHUNK_SIZE)| ==> next == (i + 1) * CHUNK_SIZE && next < |data|)
      && (i + 1 == |Pieces(data, CHUNK_SIZE)| ==> next == |data|)
  {
    PieceAt(data, CHUNK_SIZE, i);
    PieceAt(data, CHUNK_SIZE, i + 1);
  }

  // ---------------------------------------------------------------- processAndChunkFile

  /**
   * `processAndChunkFile`: the storage location is ensured first; a null or
   * empty original name is then rejected; otherwise the upload is stored as
   * `temp_<name>` and chunked, and `temp_<name>` is deleted in the end
   * whether the transfer or the chunking failed or not.
   */
  function ProcessSpec(s: Store, location: string, file: VideoUpload.Upload, mkdirsSucceeds: bool, transferSucceeds: bool)
    : (Result<(), ChunkError>, Store)
  {
    var (ensured, dirs) := EnsureSpec(s.dirs, location, mkdirsSucceeds);
    if ensured.Failure? then (Failure(ensured.error), s)
    else if file.originalFilename.None? || file.originalFilename.value == "" then
      (Failure(IllegalArgument("Invalid file name.")), Store(dirs, s.entries))
    else
      var temp := TempName(file.originalFilename.value);
      if !transferSucceeds then (Failure(IOError(temp)), Store(dirs, s.entries - {temp}))
      else
        var (chunked, s2) := ChunkFileSpec(Store(dirs, s.entries[temp := file.bytes]), location, temp, mkdirsSucceeds);
        (chunked, Store(s2.dirs, s2.entries - {temp}))
  }

  /**
   * It succeeds exactly when the location exists or can be created, the
   * name is neither null nor empty and the transfer works; a bad name is
   * reported after the location has been created.
   */
  lemma ProcessOutcome(s: Store, location: string, file: VideoUpload.Upload, mkdirsSucceeds: bool, transferSucceeds: bool)
    ensures var (r, s') := ProcessSpec(s, location, file, mkdirsSucceeds, transferSucceeds);
      var named := file.originalFilename.Some? && file.originalFilename.value != "";
      && (r.Success? <==> (location in s.dirs || mkdirsSucceeds) && named && transferSucceeds)
      && (location !in s.dirs && !mkdirsSucceeds ==>
            r == Failure(IOError("Failed to create directory: " + location)) && s' == s)
      && ((location in s.dirs || mkdirsSucceeds) && !named ==>
            r == Failure(IllegalArgument("Invalid file name.")) && s' == Store(s.dirs + {location}, s.entries))
  {
    var (ensured, dirs) := EnsureSpec(s.dirs, location, mkdirsSucceeds);
    if ensured.Success? {
      EnsureIdempotent(s.dirs, location, mkdirsSucceeds, mkdirsSucceeds);
    }
  }

  /** Once the name has been accepted, `temp_<name>` is gone afterwards, on success and on failure. */
  lemma ProcessDeletesTemp(s: Store, location: string, file: VideoUpload.Upload, mkdirsSucceeds: bool, transferSucceeds: bool)
    requires file.originalFilename.Some? && file.originalFilename.value != ""
    requires location in s.dirs || mkdirsSucceeds
    ensures TempName(file.originalFilename.value) !in ProcessSpec(s, location, file, mkdirsSucceeds, transferSucceeds).1.entries
  {
  }

  /**
   * A successful run leaves chunk1..chunkN holding the 1 MiB pieces of the
   * upload, which concatenate back to it; other names (stale higher chunks
   * included) are untouched except that `temp_<name>` is removed.
   */
  lemma ProcessWritesChunks(s: Store, location: string, file: VideoUpload.Upload, mkdirsSucceeds: bool)
    requires ProcessSpec(s, location, file, mkdirsSucceeds, true).0.Success?
    ensures var s' := ProcessSpec(s, location, file, mkdirsSucceeds, true).1;
      var temp := TempName(file.originalFilename.value);
      var ps := Pieces(file.bytes, CHUNK_SIZE);
      && file.originalFilename.Some?
      && s'.dirs == s.dirs + {location}
      && s'.entries == WrittenChunks(s.entries[temp := file.bytes], ps) - {temp}
      && (forall k :: 1 <= k <= |ps| ==> ChunkFileName(k) in s'.entries)
      && Flatten(ReadChunks(s'.entries, |ps|)) == file.bytes
  {
    var temp := TempName(file.originalFilename.value);
    var e := s.entries[temp := file.bytes];
    var ps := Pieces(file.bytes, CHUNK_SIZE);
    EnsureIdempotent(s.dirs, location, mkdirsSucceeds, mkdirsSucceeds);
    var s' := ProcessSpec(s, location, file, mkdirsSucceeds, true).1;
    TempNameNotChunkName(file.originalFilename.value);
    ChunksReassemble(e, file.bytes);
    forall k | 1 <= k <= |ps| ensures ChunkFileName(k) in s'.entries {
      NotChunkNameDiffers(temp, k);
    }
    ReadChunksRemove(WrittenChunks(e, ps), |ps|, temp);
  }

  /** Removing a non-chunk file does not change what chunk1..chunkn read back. */
  lemma {:induction false} ReadChunksRemove(entries: map<string, seq<bv8>>, n: nat, name: string)
    requires NotChunkName(name)
    requires forall k :: 1 <= k <= n ==> ChunkFileName(k) in entries
    ensures forall k :: 1 <= k <= n ==> ChunkFileName(k) in entries - {name}
    ensures ReadChunks(entries - {name}, n) == ReadChunks(entries, n)
  {
    forall k | 1 <= k <= n ensures ChunkFileName(k) in entries - {name} {
      NotChunkNameDiffers(name, k);
    }
    if n > 0 {
      ReadChunksRemove(entries, n - 1, name);
    }
  }

  // ---------------------------------------------------------------- the service

  class FileChunkService {
    /** The configured chunk storage location. */
    const location: string
    var dirs: set<string>
    var entries: map<string, seq<bv8>>

    function State(): Store
      reads this
    {
      Store(dirs, entries)
    }

    constructor(location: string, s: Store)
      ensures this.location == location && State() == s
    {
      this.location := location;
      dirs := s.dirs;
      entries := s.entries;
    }

    method EnsureDirectoryExists(path: string, mkdirsSucceeds: bool) returns (r: Result<(), ChunkError>)
      modifies this
      ensures entries == old(entries)
      ensures (r, dirs) == EnsureSpec(old(dirs), path, mkdirsSucceeds)
    {
      if path !in dirs {
        if !mkdirsSucceeds {
          return Failure(IOError("Failed to create directory: " + path));
        }
        dirs := dirs + {path};
      }
      r := Success(());
    }

    /** The loop of `chunkFile`: `position` advances by min(remaining, 1 MiB) per chunk. */
    method ChunkFile(source: string, target: string, mkdirsSucceeds: bool) returns (r: Result<(), ChunkError>)
      requires NotChunkName(source)
      modifies this
      ensures (r, State()) == ChunkFileSpec(old(State()), target, source, mkdirsSucceeds)
    {
      var ensured := EnsureDirectoryExists(target, mkdirsSucceeds);
      if ensured.Failure? {
        return ensured;
      }
      if source !in entries {
        return Failure(IOError(source));
      }
      var data := entries[source];
      ghost var e0 := entries;
      ghost var ps := Pieces(data, CHUNK_SIZE);
      var fileSize := |data|;
      var position := 0;
      var chunkIndex := 1;
      PieceAt(data, CHUNK_SIZE, 0);
      while position < fileSize
        invariant 1 <= chunkIndex <= |ps| + 1 && 0 <= position <= fileSize
        invariant chunkIndex <= |ps| ==> position == (chunkIndex - 1) * CHUNK_SIZE && position < fileSize
        invariant chunkIndex == |ps| + 1 ==> position == fileSize
        invariant entries == WrittenChunks(e0, ps[..chunkIndex - 1])
        invariant dirs == old(dirs) + {target}
        decreases fileSize - position
      {
        var chunkSize := Min(fileSize - position, CHUNK_SIZE);
        ChunkStep(data, chunkIndex - 1, position);
        WrittenChunksSnoc(e0, ps, chunkIndex - 1);
        entries := entries[ChunkFileName(chunkIndex) := data[position .. position + chunkSize]];
        position := position + chunkSize;
        chunkIndex := chunkIndex + 1;
      }
      assert ps[..chunkIndex - 1] == ps;
      r := Success(());
    }

    method ProcessAndChunkFile(file: VideoUpload.Upload, mkdirsSucceeds: bool, transferSucceeds: bool)
      returns (r: Result<(), ChunkError>)
      modifies this
      ensures (r, State()) == ProcessSpec(old(State()), location, file, mkdirsSucceeds, transferSucceeds)
    {
      var ensured := EnsureDirectoryExists(location, mkdirsSucceeds);
      if ensured.Failure? {
        return ensured;
      }
      if file.originalFilename.None? || file.originalFilename.value == "" {
        return Failure(IllegalArgument("Invalid file name."));
      }
      var temp := TempName(file.originalFilename.value);
      if !transferSucceeds {
        r := Failure(IOError(temp));
      } else {
        entries := entries[temp := file.bytes];
        TempNameNotChunkName(file.originalFilename.value);
        r := ChunkFile(temp, location, mkdirsSucceeds);
      }
      // finally: the temporary file is deleted if it exists
      entries := entries - {temp};
    }
  }
}
