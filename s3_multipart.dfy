/**
 * S3MultipartUploadService: a file is sent to S3 as a multipart upload.
 * One upload session is created, the file is read in 5 MiB parts numbered
 * from 1, each part is uploaded, and the session is completed with the list
 * of (part number, ETag) pairs S3 returned.
 *
 * The S3 client is a recorder: each request it receives, together with the
 * identifier or tag S3 answered, is appended to `calls`. What S3 answers is
 * not modelled; the service is proved for every answer.
 */
module S3Multipart {
  import opened Wrappers
  import opened JavaText
  import opened Tiling
  import opened JavaIo

  const PART_SIZE: nat := 5 * 1024 * 1024

  datatype CompletedPart = CompletedPart(partNumber: int, eTag: string)

  /** One request to S3, with the answer it got. */
  datatype S3Call =
    | CreateUpload(bucket: string, key: string, uploadId: string)
    | UploadPart(bucket: string, key: string, uploadId: string, partNumber: int, contentLength: int,
                 body: seq<bv8>, eTag: string)
    | CompleteUpload(bucket: string, key: string, uploadId: string, parts: seq<CompletedPart>)

  /** The exceptions that leave the service. */
  datatype S3Error = NoSuchFile(path: string) | EOF

  /** The asynchronous S3 client; each request is awaited (`join`) before the next. */
  class S3Client {
    var calls: seq<S3Call>

    constructor ()
      ensures calls == []
    {
      calls := [];
    }

    /** `createMultipartUpload`: answers with some upload id. */
    method CreateMultipartUpload(bucket: string, key: string) returns (uploadId: string)
      modifies this
      ensures calls == old(calls) + [CreateUpload(bucket, key, uploadId)]
    {
      uploadId := "upload-" + IntToString(|calls|);
      calls := calls + [CreateUpload(bucket, key, uploadId)];
    }

    /** `uploadPart`: answers with some ETag. */
    method UploadPart(bucket: string, key: string, uploadId: string, partNumber: int, contentLength: int, body: seq<bv8>)
      returns (eTag: string)
      modifies this
      ensures calls == old(calls) + [S3Call.UploadPart(bucket, key, uploadId, partNumber, contentLength, body, eTag)]
    {
      eTag := "etag-" + IntToString(partNumber);
      calls := calls + [S3Call.UploadPart(bucket, key, uploadId, partNumber, contentLength, body, eTag)];
    }

    /** `completeMultipartUpload`. */
    method CompleteMultipartUpload(bucket: string, key: string, uploadId: string, parts: seq<CompletedPart>)
      modifies this
      ensures calls == old(calls) + [CompleteUpload(bucket, key, uploadId, parts)]
    {
      calls := calls + [CompleteUpload(bucket, key, uploadId, parts)];
    }
  }

  // ---------------------------------------------------------------- the planned session

  /** `calls` are part uploads number 1..|ps| of `ps`, in order, each declaring its own length. */
  ghost predicate PartUploads(calls: seq<S3Call>, bucket: string, key: string, uploadId: string, ps: seq<seq<bv8>>)
  {
    && |calls| == |ps|
    && forall i :: 0 <= i < |calls| ==>
         && calls[i].UploadPart?
         && calls[i] == S3Call.UploadPart(bucket, key, uploadId, i + 1, |ps[i]|, ps[i], calls[i].eTag)
  }

  /** The completion list: each uploaded part's number with the tag S3 returned for it. */
  function Completed(calls: seq<S3Call>): (parts: seq<CompletedPart>)
    requires forall i :: 0 <= i < |calls| ==> calls[i].UploadPart?
    ensures |parts| == |calls|
    ensures forall i :: 0 <= i < |calls| ==> parts[i] == CompletedPart(calls[i].partNumber, calls[i].eTag)
  {
    if |calls| == 0 then [] else Completed(calls[..|calls| - 1]) + [CompletedPart(calls[|calls| - 1].partNumber, calls[|calls| - 1].eTag)]
  }

  /**
   * The requests that `uploadLargeFile` of `data` makes: create, one upload
   * per 5 MiB part in order, then complete with the tags that came back.
   */
  ghost predicate Session(log: seq<S3Call>, bucket: string, key: string, data: seq<bv8>)
  {
    var ps := Pieces(data, PART_SIZE);
    && |log| == |ps| + 2
    && log[0].CreateUpload? && log[0].bucket == bucket && log[0].key == key
    && PartUploads(log[1..|ps| + 1], bucket, key, log[0].uploadId, ps)
    && log[|ps| + 1] == CompleteUpload(bucket, key, log[0].uploadId, Completed(log[1..|ps| + 1]))
  }

  /** There are N = ceil(|data| / 5 MiB) parts, and none for an empty file. */
  lemma SessionCount(log: seq<S3Call>, bucket: string, key: string, data: seq<bv8>)
    requires Session(log, bucket, key, data)
    ensures var N := |log| - 2;
      && (|data| == 0 <==> N == 0)
      && (N > 0 ==> (N - 1) * PART_SIZE < |data| <= N * PART_SIZE)
  {
    PiecesCount(data, PART_SIZE);
  }

  /**
   * Part n (1 <= n <= N) is request n, starts at 5 MiB * (n - 1) and holds
   * min(5 MiB, |data| - start) bytes: never empty, at most 5 MiB, exactly
   * 5 MiB unless it is the last.
   */
  lemma SessionPart(log: seq<S3Call>, bucket: string, key: string, data: seq<bv8>, n: int)
    requires Session(log, bucket, key, data)
    requires 1 <= n <= |log| - 2
    ensures log[n].UploadPart? && log[n].partNumber == n && log[n].uploadId == log[0].uploadId
    ensures PART_SIZE * (n - 1) < |data|
    ensures log[n].body == data[PART_SIZE * (n - 1) .. PART_SIZE * (n - 1) + Min(PART_SIZE, |data| - PART_SIZE * (n - 1))]
    ensures log[n].contentLength == |log[n].body|
    ensures 0 < |log[n].body| <= PART_SIZE
    ensures n < |log| - 2 ==> |log[n].body| == PART_SIZE
  {
    var ps := Pieces(data, PART_SIZE);
    assert log[1..|ps| + 1][n - 1] == log[n];
    assert log[n].body == ps[n - 1];
    PartStep(data, n - 1, PART_SIZE * (n - 1));
    PiecesShape(data, PART_SIZE, n - 1);
  }

  /** The bodies of part uploads, in order. */
  function Bodies(calls: seq<S3Call>): (bs: seq<seq<bv8>>)
    requires forall i :: 0 <= i < |calls| ==> calls[i].UploadPart?
    ensures |bs| == |calls| && forall i :: 0 <= i < |calls| ==> bs[i] == calls[i].body
  {
    seq(|calls|, i requires 0 <= i < |calls| => calls[i].body)
  }

  /** The declared part lengths added up. */
  function TotalLength(calls: seq<S3Call>): int
    requires forall i :: 0 <= i < |calls| ==> calls[i].UploadPart?
  {
    if |calls| == 0 then 0 else TotalLength(calls[..|calls| - 1]) + calls[|calls| - 1].contentLength
  }

  lemma {:induction false} TotalLengthOfBodies(calls: seq<S3Call>)
    requires forall i :: 0 <= i < |calls| ==> calls[i].UploadPart? && calls[i].contentLength == |calls[i].body|
    ensures TotalLength(calls) == |Flatten(Bodies(calls))|
  {
    if |calls| > 0 {
      var init := calls[..|calls| - 1];
      TotalLengthOfBodies(init);
      assert Bodies(calls) == Bodies(init) + [calls[|calls| - 1].body];
      FlattenAppend(Bodies(init), calls[|calls| - 1].body);
    }
  }

  /**
   * The parts tile the file: their bodies concatenated are the file bytes
   * and their declared lengths add up to the file size.
   */
  lemma SessionTiles(log: seq<S3Call>, bucket: string, key: string, data: seq<bv8>)
    requires Session(log, bucket, key, data)
    ensures forall i :: 1 <= i < |log| - 1 ==> log[i].UploadPart?
    ensures Flatten(Bodies(log[1..|log| - 1])) == data
    ensures TotalLength(log[1..|log| - 1]) == |data|
  {
    var ps := Pieces(data, PART_SIZE);
    var uploads := log[1..|ps| + 1];
    forall i | 1 <= i < |log| - 1 ensures log[i].UploadPart? {
      assert uploads[i - 1] == log[i];
    }
    assert Bodies(uploads) == ps;
    FlattenPieces(data, PART_SIZE);
    TotalLengthOfBodies(uploads);
  }

  /**
   * Completion lists exactly one entry per uploaded part, in ascending part
   * number order 1..N, each with the tag returned for that part.
   */
  lemma SessionCompletes(log: seq<S3Call>, bucket: string, key: string, data: seq<bv8>)
    requires Session(log, bucket, key, data)
    ensures var N := |log| - 2;
      && log[N + 1].CompleteUpload?
      && log[N + 1].uploadId == log[0].uploadId
      && |log[N + 1].parts| == N
      && forall n :: 1 <= n <= N ==>
           && log[n].UploadPart?
           && log[N + 1].parts[n - 1] == CompletedPart(n, log[n].eTag)
  {
    var N := |log| - 2;
    var uploads := log[1..N + 1];
    forall n | 1 <= n <= N ensures log[n].UploadPart? && log[N + 1].parts[n - 1] == CompletedPart(n, log[n].eTag) {
      assert uploads[n - 1] == log[n];
    }
  }

  /** An empty file uploads no part, and completion is still requested, with an empty list. */
  lemma SessionOfEmptyFile(log: seq<S3Call>, bucket: string, key: string)
    requires Session(log, bucket, key, [])
    ensures log == [CreateUpload(bucket, key, log[0].uploadId), CompleteUpload(bucket, key, log[0].uploadId, [])]
  {
    var empty: seq<bv8> := [];
    assert Pieces(empty, PART_SIZE) == [];
    assert Completed(log[1..1]) == [];
  }

  // ---------------------------------------------------------------- the service

  class S3MultipartUploadService {
    const bucketName: string
    const client: S3Client

    constructor (bucketName: string, client: S3Client)
      ensures this.bucketName == bucketName && this.client == client
    {
      this.bucketName := bucketName;
      this.client := client;
    }

    /**
     * `readPart`: `size` bytes of the file from `start`, read with
     * `readFully`, which keeps reading until the buffer is full and fails
     * with an EOFException if the file ends first.
     */
    method ReadPart(data: seq<bv8>, start: nat, size: nat) returns (r: Result<seq<bv8>, S3Error>)
      requires size <= INT_MAX
      ensures r.Success? <==> size == 0 || start + size <= |data|
      ensures r.Success? ==> |r.value| == size && (size > 0 ==> r.value == data[start..start + size])
      ensures r.Failure? ==> r.error == EOF
    {
      var file := new FileHandle(data);
      var buffer := new bv8[size];
      file.Seek(start);
      var filled := 0;
      while filled < size
        invariant 0 <= filled <= size
        invariant file.cursor == start + filled
        invariant filled > 0 ==> start + filled <= |data| && buffer[..filled] == data[start..start + filled]
        decreases size - filled
      {
        ghost var before := buffer[..];
        var n := file.Read(buffer, filled, size - filled);
        if n < 0 {
          return Failure(EOF);
        }
        assert buffer[..filled] == before[..filled];
        assert buffer[..filled + n] == buffer[..filled] + buffer[filled..filled + n];
        assert filled > 0 ==> data[start..start + filled + n] == data[start..start + filled] + data[start + filled..start + filled + n];
        filled := filled + n;
      }
      return Success(buffer[..]);
    }

    /**
     * `uploadLargeFile`: a missing file fails after the session has been
     * created (Files.size throws); otherwise the requests form a `Session`
     * of the file's bytes and the key is reported.
     */
    method UploadLargeFile(keyName: string, filePath: string, file: Option<seq<bv8>>) returns (r: Result<string, S3Error>)
      modifies client
      ensures |client.calls| > |old(client.calls)| && client.calls[..|old(client.calls)|] == old(client.calls)
      ensures file.None? ==>
        && r == Failure(NoSuchFile(filePath))
        && client.calls == old(client.calls) + [CreateUpload(bucketName, keyName, client.calls[|old(client.calls)|].uploadId)]
      ensures file.Some? ==>
        && r == Success("File uploaded successfully with key: " + keyName)
        && Session(client.calls[|old(client.calls)|..], bucketName, keyName, file.value)
    {
      ghost var log0 := client.calls;
      var uploadId := client.CreateMultipartUpload(bucketName, keyName);
      if file.None? {
        return Failure(NoSuchFile(filePath));
      }
      var completedParts, uploads := UploadParts(keyName, uploadId, file.value);
      client.CompleteMultipartUpload(bucketName, keyName, uploadId, completedParts);
      ghost var create := CreateUpload(bucketName, keyName, uploadId);
      ghost var complete := CompleteUpload(bucketName, keyName, uploadId, completedParts);
      assert client.calls[|log0|..] == [create] + uploads + [complete];
      SessionAssembled(create, uploads, complete, bucketName, keyName, file.value);
      r := Success("File uploaded successfully with key: " + keyName);
    }

    /** The loop of `uploadLargeFile`: part n is read from offset 5 MiB * (n - 1) and uploaded, while that offset lies in the file. */
    method UploadParts(keyName: string, uploadId: string, data: seq<bv8>)
      returns (completedParts: seq<CompletedPart>, ghost uploads: seq<S3Call>)
      modifies client
      ensures client.calls == old(client.calls) + uploads
      ensures PartUploads(uploads, bucketName, keyName, uploadId, Pieces(data, PART_SIZE))
      ensures completedParts == Completed(uploads)
    {
      ghost var ps := Pieces(data, PART_SIZE);
      var fileSize := |data|;
      uploads := [];
      completedParts := [];
      PieceAt(data, PART_SIZE, 0);
      var partNumber := 1;
      while PART_SIZE * (partNumber - 1) < fileSize
        invariant 1 <= partNumber <= |ps| + 1
        invariant partNumber - 1 < |ps| <==> PART_SIZE * (partNumber - 1) < fileSize
        invariant client.calls == old(client.calls) + uploads
        invariant PartUploads(uploads, bucketName, keyName, uploadId, ps[..partNumber - 1])
        invariant completedParts == Completed(uploads)
        decreases |ps| + 1 - partNumber
      {
        var start := PART_SIZE * (partNumber - 1);
        var remainingBytes := fileSize - start;
        var size := Min(PART_SIZE, remainingBytes);
        PartStep(data, partNumber - 1, start);
        var buffer := ReadPart(data, start, size);
        assert buffer.Success?;
        var eTag := client.UploadPart(bucketName, keyName, uploadId, partNumber, size, buffer.value);
        ghost var call := S3Call.UploadPart(bucketName, keyName, uploadId, partNumber, size, buffer.value, eTag);
        PartUploadsStep(uploads, bucketName, keyName, uploadId, ps, partNumber - 1, call);
        CompletedStep(uploads, call);
        uploads := uploads + [call];
        completedParts := completedParts + [CompletedPart(partNumber, eTag)];
        partNumber := partNumber + 1;
      }
      assert ps[..partNumber - 1] == ps;
    }
  }

  /** A create, the part uploads of every piece and the matching completion make a session. */
  lemma SessionAssembled(create: S3Call, uploads: seq<S3Call>, complete: S3Call, bucket: string, key: string, data: seq<bv8>)
    requires create.CreateUpload? && create.bucket == bucket && create.key == key
    requires PartUploads(uploads, bucket, key, create.uploadId, Pieces(data, PART_SIZE))
    requires complete == CompleteUpload(bucket, key, create.uploadId, Completed(uploads))
    ensures Session([create] + uploads + [complete], bucket, key, data)
  {
    var log := [create] + uploads + [complete];
    assert log[1..|uploads| + 1] == uploads;
  }

  /** One turn of the part loop: part i is the window at 5 MiB * i, and the loop test then decides on part i + 1. */
  lemma PartStep(data: seq<bv8>, i: nat, start: int)
    requires i < |Pieces(data, PART_SIZE)| && start == PART_SIZE * i
    ensures 0 <= start < |data|
    ensures var size := Min(PART_SIZE, |data| - start);
      && 0 < size <= INT_MAX
      && start + size <= |data|
      && |Pieces(data, PART_SIZE)[i]| == size
      && Pieces(data, PART_SIZE)[i] == data[start .. start + size]
    ensures PART_SIZE * (i + 1) == start + PART_SIZE
    ensures i + 1 < |Pieces(data, PART_SIZE)| <==> start + PART_SIZE < |data|
  {
    PieceAt(data, PART_SIZE, i);
    PieceAt(data, PART_SIZE, i + 1);
  }

  lemma PartUploadsStep(calls: seq<S3Call>, bucket: string, key: string, uploadId: string, ps: seq<seq<bv8>>, i: nat, call: S3Call)
    requires i < |ps| && PartUploads(calls, bucket, key, uploadId, ps[..i])
    requires call.UploadPart? && call == S3Call.UploadPart(bucket, key, uploadId, i + 1, |ps[i]|, ps[i], call.eTag)
    ensures PartUploads(calls + [call], bucket, key, uploadId, ps[..i + 1])
  {
    var next := calls + [call];
    forall j | 0 <= j < |next|
      ensures next[j].UploadPart? && next[j] == S3Call.UploadPart(bucket, key, uploadId, j + 1, |ps[..i + 1][j]|, ps[..i + 1][j], next[j].eTag)
    {
      if j < i {
        assert next[j] == calls[j] && ps[..i][j] == ps[..i + 1][j];
      }
    }
  }

  lemma CompletedStep(calls: seq<S3Call>, call: S3Call)
    requires forall i :: 0 <= i < |calls| ==> calls[i].UploadPart?
    requires call.UploadPart?
    ensures Completed(calls + [call]) == Completed(calls) + [CompletedPart(call.partNumber, call.eTag)]
  {
    assert (calls + [call])[..|calls|] == calls;
  }
}
