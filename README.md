# stream-backend in Dafny

A Dafny model of the core of a Spring video-streaming back end, with proofs about it. The core is four services.

- **VideoStreamingService** (`video_streaming.dfy`) serves a byte range of a stored video in three ways:
  - **IO:** parse the `Range` header leniently, falling back to the whole file, then copy through an 8 KiB buffer.
  - **NIO:** parse the header strictly (a malformed header throws), then do a single channel read capped at 1 MiB.
  - **Region:** from ranges the framework has already parsed, take the first 1 MiB region.

  It also picks a MIME type, falling back to a suffix table when the platform probe finds none.
- **VideoUploadService** (`video_upload.dfy`) handles two kinds of upload:
  - **Whole file:** the upload is validated, then stored as `<uuid><extension>`.
  - **Chunked:** chunk `i` of a video is staged as entry `chunk-<i>` in a directory named after the video. Merging sorts the entries by index, concatenates them into `<name>.mp4`, then deletes the entries and the directory.
- **FileChunkService** (`file_chunk.dfy`) saves an upload to a temporary file and cuts it into files `chunk1`, `chunk2`, … of 1 MiB each, the last one shorter.
- **S3MultipartUploadService** (`s3_multipart.dfy`) uploads a file to S3 in 5 MiB parts numbered from 1, then completes the upload with the list of (part number, ETag) pairs.

Supporting modules:

- `wrappers.dfy`: `Option` and `Result`.
- `java_text.dfy`: the Java string operations the services use. These are `String.split` (trailing empty strings dropped), `Long.parseLong` and `Integer.parseInt` (ASCII digits, range-checked), `toString`, `startsWith`, `endsWith`, `lastIndexOf`, `toLowerCase` and `trim`.
- `tiling.dfy`: cutting a sequence into fixed-size pieces. It is shared by the 1 MiB chunker and the 5 MiB part planner.
- `java_io.dfy`: a `RandomAccessFile`-like handle. Its `read` may return fewer bytes than asked, and returns -1 exactly at end of file.

How operations map to Dafny:

- **Pure logic** (range parsing, validation, region computation, MIME lookup, sort keys) is functions.
- **Stateful operations** are methods of classes whose fields the methods update, as in the source:
  - the servlet output stream (`OutputSink`);
  - the storage directory of the upload service (`VideoUploadService`: staging directories and regular files);
  - the chunk directory (`FileChunkService`: directories and file entries);
  - the S3 client (`S3Client`: the log of calls it received).
- **Specifications and lemmas:** each stateful method is proved equal to a specification function of the old state (`SaveChunkSpec`, `MergeSpec`, `SaveToLocalSpec`, `ChunkFileSpec`, `ProcessSpec`) or to a predicate on the call log (`Session`). The properties are proved as lemmas about those functions.
- **The source's loops stay `while` loops with invariants:**
  - the 8 KiB copy;
  - the merge loop and its inner `transferTo` loop;
  - the chunking loop;
  - the S3 part loop;
  - the `readFully` loop.

Behaviour of the code that the model keeps, where the policies disagree or the code's own comments say otherwise (`// video/mp4` beside the `.mp4` case of `getMimeType`, "Handle the first range only" in `calculateResourceRegion`):

- **Open range `bytes=s-`:**
  - the IO policy serves `s` to the end of the file (`IoOpenRange`);
  - the NIO policy reads a missing last position as `last = first`, so it serves the single byte `s` (`NioOpenRangeIsOneByte`, `IoAndNioDisagreeOnOpenRange`).
- **A list of ranges** `bytes=a-b,c-d` is not served as its first range:
  - IO falls back to the whole file, because the second `-` piece, `b,c`, does not parse (`IoRangeListFallsBack`);
  - NIO throws, because the second comma piece lacks `bytes=` (`NioRangeListThrows`).
- **`.mp4` with no probe result** maps to `application/octet-stream`, not `video/mp4` (`MimeTypeFallback`, `MimeType`).
- **The chunk extension check accepts every name,** since `""` is an allowed extension; only a null original name fails it (`EveryNameHasAllowedExtension`, `ValidateChunkAccepts`).
- **A rejected chunk still leaves its staging directory behind:** the directory is created before the `chunkIndex > totalChunks` check (`SaveChunkCreatesDirectory`).
- **Staged chunks and the merged output are written without truncation.** The write to a staged chunk and the merged output's channel both use CREATE without TRUNCATE_EXISTING. A shorter rewrite therefore keeps the old tail (`ShorterRewriteKeepsTail`), and merging into an existing longer `<name>.mp4` leaves its tail in place (`MergeSucceeded`).
- **Merge order is numeric,** by the integer after the first `-` (`MergeOrdersNumerically`). Negative indices are the exception: the name `chunk--3` splits with an empty second piece, and `parseInt("")` throws when two or more entries are compared (`SortKeyOfNegativeEntry`, `SortChunks`).
- **Two or more of FileChunkService's chunk files cannot be merged by VideoUploadService.** A name `chunkK` has no `-`, so its sort key throws as soon as two entries are compared (`ChunkNamesNotMergeable`, `SortChunks`); a directory with a single `chunk1` is never compared and merges. The chunk-then-merge round trip therefore holds only on the upload path (`SaveThenMergeRoundTrip`); the chunking path has its own reassembly property (`ChunksReassemble`).
- **A round trip of zero chunks fails:** with no chunk saved there is no staging directory, so the merge throws "Directory not found for file" (`MergeMissingDirectory`); `SaveThenMergeRoundTrip` is stated for one chunk or more.
- **The NIO `Content-Range` reports the uncapped end,** while `Content-Length` and the body use the length capped at 1 MiB (`NioServed`).
- **The NIO buffer capacity is `(int) chunkSize`,** the low 32 bits of the `long` length (`ToInt32`). Inside the file the two agree (`NioCapacityInsideFile`). A start greater than the file's length + 2^31 can wrap the negative length to a capacity of 0 or more. On a 100-byte file, `bytes=4294967396-4294967396` gives capacity 0 and so a 206 with an empty body and `Content-Length: -4294967296` (`NioWrappedCapacityEmpty`). `bytes=4294967391-4294967391` gives capacity 5, the read returns -1, and the answer is the "End of file reached unexpectedly" 500 (`NioWrappedCapacityError`).

## Model

Source paths are relative to the repository root.

| member | source | states |
|---|---|---|
| VideoStreaming.ContentRangeReadsBack | src/main/java/com/spring_stream_backend/VideoStreamingService.java:70 | The Content-Range value built from start, end and length parses back to exactly those three numbers, for non-negative values in the `long` range. |
| VideoStreaming.ParseRangeHeaderIo | src/main/java/com/spring_stream_backend/VideoStreamingService.java:99-119 | For a non-empty file the range it returns always satisfies 0 <= start <= end < length, whatever the header. For an empty file it is (0, -1). A missing header, or one without the `bytes=` prefix, gives the whole file. |
| VideoStreaming.IoUnparsableStartFallsBack | src/main/java/com/spring_stream_backend/VideoStreamingService.java:106-107 | A start that `Long.parseLong` rejects gives the whole file. |
| VideoStreaming.IoUnparsableEndFallsBack | src/main/java/com/spring_stream_backend/VideoStreamingService.java:108 | A present, non-empty end that `Long.parseLong` rejects gives the whole file. |
| VideoStreaming.IoExplicitRange | src/main/java/com/spring_stream_backend/VideoStreamingService.java:106-114 | `bytes=first-last` with first inside the file and first <= last gives (first, min(last, length-1)). |
| VideoStreaming.IoOpenRange | src/main/java/com/spring_stream_backend/VideoStreamingService.java:106-108 | `bytes=first-` and `bytes=first` give (first, length-1). |
| VideoStreaming.IoInvalidRangeFallsBack | src/main/java/com/spring_stream_backend/VideoStreamingService.java:110-117 | A start at or past the end of the file, or last < first, gives the whole file. |
| VideoStreaming.IoSuffixRangeFallsBack | src/main/java/com/spring_stream_backend/VideoStreamingService.java:105-117 | A suffix range `bytes=-n` gives the whole file. |
| VideoStreaming.IoRangeListFallsBack | src/main/java/com/spring_stream_backend/VideoStreamingService.java:105-117 | `bytes=first-last,...` gives the whole file. |
| VideoStreaming.IoScenarios | src/main/java/com/spring_stream_backend/VideoStreamingService.java:99-119 | Concrete cases: `bytes=1000-1999` on 10000 bytes gives (1000, 1999); `bytes=99999-100050` on 100 bytes gives (0, 99). |
| VideoStreaming.OutputSink.Write | src/main/java/com/spring_stream_backend/VideoStreamingService.java:86 | `out.write(data, 0, read)` appends exactly those bytes to the stream and records the write's size. |
| VideoStreaming.CopyRange | src/main/java/com/spring_stream_backend/VideoStreamingService.java:80-88 | The bytes written are exactly the `count` bytes from the file cursor, even though reads may be short. Every individual write is between 1 and 8192 bytes. |
| VideoStreaming.StreamVideoIo | src/main/java/com/spring_stream_backend/VideoStreamingService.java:46-97 | A missing file gives 404 and leaves the response alone. Otherwise the response is 206 with Content-Type, Content-Range and Accept-Ranges set, and the body is exactly bytes start..end of the range `ParseRangeHeaderIo` chose, written in pieces of at most 8 KiB. |
| VideoStreaming.CreateByteRange | src/main/java/com/spring_stream_backend/VideoStreamingService.java:199 | Succeeds exactly when 0 <= first <= last, and then yields that byte range. |
| VideoStreaming.ParseLongOrThrow | src/main/java/com/spring_stream_backend/VideoStreamingService.java:197-198 | Succeeds exactly when `Long.parseLong` accepts the text, with its value. |
| VideoStreaming.ParseHttpRange | src/main/java/com/spring_stream_backend/VideoStreamingService.java:194-202 | A parsed range is always a byte range with 0 <= first <= last. Text without `bytes=` throws "Invalid range format". |
| VideoStreaming.ParseEach | src/main/java/com/spring_stream_backend/VideoStreamingService.java:189-191 | Succeeds exactly when every comma piece parses, giving one range per piece in order. A failure is the failure of the first piece that does not parse: every earlier piece parses. |
| VideoStreaming.NioExplicitRange | src/main/java/com/spring_stream_backend/VideoStreamingService.java:194-199 | `bytes=first-last` with first <= last parses to exactly ByteRange(first, last). |
| VideoStreaming.NioOpenRangeIsOneByte | src/main/java/com/spring_stream_backend/VideoStreamingService.java:198 | `bytes=first-` and `bytes=first` both parse to ByteRange(first, first). |
| VideoStreaming.NioRangeListThrows | src/main/java/com/spring_stream_backend/VideoStreamingService.java:189-191 | A header with a second comma piece lacking `bytes=` throws IllegalArgument, even when the first piece is valid. |
| VideoStreaming.IoAndNioDisagreeOnOpenRange | src/main/java/com/spring_stream_backend/VideoStreamingService.java:108 | On `bytes=first-` the IO policy ends at length-1 while the NIO range ends at first. |
| VideoStreaming.NioRange | src/main/java/com/spring_stream_backend/VideoStreamingService.java:144-145 | The NIO policy's range, the first parsed range or the whole file, is a byte range with 0 <= first <= last. |
| VideoStreaming.NioChunkWithinFile | src/main/java/com/spring_stream_backend/VideoStreamingService.java:148-150 | The NIO read length is at most 1 MiB. When positive, the read lies inside the file. When the start is inside the file, it is positive. |
| VideoStreaming.MimeTypeFallback | src/main/java/com/spring_stream_backend/VideoStreamingService.java:205-231 | With no probe result the type is one of the table's five values and ignores the case of the name. A failed probe gives `application/octet-stream`. |
| VideoStreaming.ReadOnce | src/main/java/com/spring_stream_backend/VideoStreamingService.java:153-161 | One channel read from the start position returns -1 exactly when the buffer is non-empty and the position is at or past the end. Any other read returns at least one byte (for a non-empty buffer) and at most the buffer size, and those bytes are the file's bytes from that position. |
| VideoStreaming.ServeNioRange | src/main/java/com/spring_stream_backend/VideoStreamingService.java:148-180 | Establishes `NioServed`. The buffer capacity is `(int)` of the `long` length. A negative capacity throws IllegalArgument with `allocate`'s message. A positive capacity at or past the end of the file reads -1 and gives 500. Otherwise the response is 206 with Content-Type, Content-Range, Accept-Ranges and the `long` Content-Length, and its body is at most `capacity` file bytes from the range start, at least one unless the capacity is 0. |
| VideoStreaming.StreamVideoNio | src/main/java/com/spring_stream_backend/VideoStreamingService.java:125-186 | A missing file gives 404. A header that does not parse makes the call throw the parser's exception. Otherwise the response is as `NioServed` (throw, 500 or 206, after the `(int)` capacity cast) with the MIME type from `getMimeType`. |
| VideoStreaming.NioCapacityInsideFile | src/main/java/com/spring_stream_backend/VideoStreamingService.java:150-155 | For a start inside the file, `(int) chunkSize` equals the `long` length, which lies between 1 and 1 MiB. |
| VideoStreaming.NioSingleRange | src/main/java/com/spring_stream_backend/VideoStreamingService.java:144-145 | A header `bytes=n-n` resolves to the byte range [n, n]. |
| VideoStreaming.NioWrappedCapacityEmpty | src/main/java/com/spring_stream_backend/VideoStreamingService.java:150-180 | On a 100-byte file, the range [2^32 + 100, 2^32 + 100] has length -2^32 and capacity 0, and is answered exactly by a 206 with an empty body and Content-Length -4294967296. |
| VideoStreaming.NioWrappedCapacityError | src/main/java/com/spring_stream_backend/VideoStreamingService.java:150-160 | On a 100-byte file, the range [2^32 + 95, 2^32 + 95] has capacity 5, and is answered exactly by a 500. |
| VideoStreaming.CalculateResourceRegion | src/main/java/com/spring_stream_backend/VideoStreamingService.java:303-319 | The count is at most 1 MiB. No ranges gives (0, min(1 MiB, length)). Otherwise the position is the first range's start. |
| VideoStreaming.RegionWithinFile | src/main/java/com/spring_stream_backend/VideoStreamingService.java:313-318 | For a satisfiable first range, the region is non-empty, at most 1 MiB long, and inside the resource. Ranges after the first are ignored. |
| VideoStreaming.RegionOfByteRange | src/main/java/com/spring_stream_backend/VideoStreamingService.java:313-318 | A first range `first-last` inside the file gives (first, min(1 MiB, min(last, length-1) - first + 1)); an open range `first-` gives (first, min(1 MiB, length - first)). |
| VideoStreaming.RegionOfSuffixRange | src/main/java/com/spring_stream_backend/VideoStreamingService.java:313-318 | A first range `-n` gives the last min(n, length) bytes, capped at 1 MiB: position max(length - n, 0). |
| VideoStreaming.RegionDefaultWindow | src/main/java/com/spring_stream_backend/VideoStreamingService.java:306-310 | Concrete cases without ranges: a 5 MiB file gives (0, 1 MiB); a 1000-byte file gives (0, 1000). |
| VideoStreaming.StreamVideoRegion | src/main/java/com/spring_stream_backend/VideoStreamingService.java:242-262 | A null or blank name is 400. Otherwise the call succeeds exactly when the resource exists, and a missing one is 404. On success the call yields the media type (octet-stream when the framework has none) and the computed region. |
| JavaIo.FileHandle.constructor | src/main/java/com/spring_stream_backend/VideoStreamingService.java:56 | A freshly opened file holds the given bytes with the cursor at 0. |
| JavaIo.FileHandle.Seek | src/main/java/com/spring_stream_backend/VideoStreamingService.java:65 | Moves the file cursor to the position. |
| JavaIo.FileHandle.Read | src/main/java/com/spring_stream_backend/VideoStreamingService.java:84 | A 0-length read returns 0. A read at or past end of file returns -1 and changes nothing. Any other read copies 1..len file bytes into `b[off..]`, advances the cursor by that many, and leaves the rest of `b` unchanged. |
| JavaText.ToInt32 | src/main/java/com/spring_stream_backend/VideoStreamingService.java:155 | The `(int)` cast: a value in the `int` range is kept, and any value changes by a multiple of 2^32 into the `int` range. |
| JavaText.ParseOfToString | src/main/java/com/spring_stream_backend/VideoStreamingService.java:107 | Parsing the decimal text of a number within bounds gives that number back. |
| JavaText.SplitAllJoin | src/main/java/com/spring_stream_backend/VideoStreamingService.java:106 | Splitting a join of separator-free pieces gives those pieces back. |
| JavaText.JoinSplitAll | src/main/java/com/spring_stream_backend/VideoStreamingService.java:106 | Joining the split pieces gives the text back, and no piece contains the separator. |
| JavaText.TrimEmptyIff | src/main/java/com/spring_stream_backend/VideoStreamingService.java:244 | `trim().isEmpty()` holds exactly when every character is at most U+0020. |
| JavaText.ToLowerIdempotent | src/main/java/com/spring_stream_backend/VideoStreamingService.java:211 | Lower-casing twice is lower-casing once. |
| VideoUpload.ValidateFile | src/main/java/com/spring_stream_backend/service/VideoUploadService.java:68-80 | Accepts exactly a non-empty file of at most 50 MiB with an allowed content type. An empty file gives "File is empty.". Every rejection is IllegalArgument. |
| VideoUpload.EveryNameHasAllowedExtension | src/main/java/com/spring_stream_backend/service/VideoUploadService.java:28 | Because `""` is in the extension list, every name ends with an allowed extension. |
| VideoUpload.ValidateChunk | src/main/java/com/spring_stream_backend/service/VideoUploadService.java:149-167 | Every rejection is IllegalArgument. An empty chunk gives "Chunk i is empty.". |
| VideoUpload.ValidateChunkAccepts | src/main/java/com/spring_stream_backend/service/VideoUploadService.java:159-162 | A chunk is accepted exactly when it is non-empty, at most 20 MiB, of an allowed type, and has an original name. A null name is rejected with "Unsupported file extension: null". |
| VideoUpload.FileExtension | src/main/java/com/spring_stream_backend/service/VideoUploadService.java:46-50 | The extension is empty, or it is a suffix of the name that starts with its only `.`. A name containing `.` gets a non-empty extension. |
| VideoUpload.FileExtensionOfDotted | src/main/java/com/spring_stream_backend/service/VideoUploadService.java:48-49 | For `base.ext` with no `.` in `ext`, the extension is `.ext`, measured from the last dot. |
| VideoUpload.ChunkEntryNameInjective | src/main/java/com/spring_stream_backend/service/VideoUploadService.java:97 | Distinct indices give distinct `chunk-<i>` names. |
| VideoUpload.Overwrite | src/main/java/com/spring_stream_backend/service/VideoUploadService.java:98 | A non-truncating write keeps the bytes before the offset, places the new bytes at the offset, and keeps any longer old tail. |
| VideoUpload.OverwriteTwice | src/main/java/com/spring_stream_backend/service/VideoUploadService.java:130-131 | Two consecutive writes at adjacent offsets equal one write of the concatenation. |
| VideoUpload.ShorterRewriteKeepsTail | src/main/java/com/spring_stream_backend/service/VideoUploadService.java:98 | Rewriting a chunk with fewer bytes leaves the old tail after the new bytes. |
| VideoUpload.SaveChunkKeepsValid | src/main/java/com/spring_stream_backend/service/VideoUploadService.java:83-104 | Saving a chunk keeps the storage well formed: no name is both a directory and a file, and indices are ints. |
| VideoUpload.SaveChunkFrame | src/main/java/com/spring_stream_backend/service/VideoUploadService.java:83-104 | Saving a chunk changes at most the directory `fileName`, and no regular file. |
| VideoUpload.SaveChunkOutcome | src/main/java/com/spring_stream_backend/service/VideoUploadService.java:83-104 | Succeeds exactly when the chunk validates, chunkIndex <= totalChunks, and the name is not a regular file; it then returns "Chunk i of n uploaded successfully.". A validation failure changes nothing. |
| VideoUpload.SaveChunkCreatesDirectory | src/main/java/com/spring_stream_backend/service/VideoUploadService.java:89-94 | After validation the directory exists and other directories are unchanged. When the index check then fails no chunk is written: a new directory is left empty and an existing one keeps exactly its entries. |
| VideoUpload.SaveChunkWritesEntry | src/main/java/com/spring_stream_backend/service/VideoUploadService.java:97-98 | A successful save adds entry chunkIndex, overwritten from offset 0, and keeps every other entry. |
| VideoUpload.SaveFreshChunk | src/main/java/com/spring_stream_backend/service/VideoUploadService.java:97-98 | Saving a new index stores exactly the chunk's bytes under it, and nothing else changes. |
| VideoUpload.SortKeyOfEntry | src/main/java/com/spring_stream_backend/service/VideoUploadService.java:121 | The sort key of `chunk-<i>` is i for i >= 0. |
| VideoUpload.SortKeyOfNegativeEntry | src/main/java/com/spring_stream_backend/service/VideoUploadService.java:121 | The sort key of `chunk-<i>` for i < 0 throws NumberFormatException on "". |
| VideoUpload.SortChunks | src/main/java/com/spring_stream_backend/service/VideoUploadService.java:121 | Throws exactly when two or more entries include a negative index. Otherwise the order is strictly increasing and lists exactly the directory's indices. |
| VideoUpload.SortContiguous | src/main/java/com/spring_stream_backend/service/VideoUploadService.java:121 | Indices 1..n sort to 1, 2, …, n. |
| VideoUpload.ChunkBytes | src/main/java/com/spring_stream_backend/service/VideoUploadService.java:124-133 | One piece per index in the order, each piece the bytes of that entry. |
| VideoUpload.MergeKeepsValid | src/main/java/com/spring_stream_backend/service/VideoUploadService.java:107-146 | Merging keeps the storage well formed. |
| VideoUpload.MergeMissingDirectory | src/main/java/com/spring_stream_backend/service/VideoUploadService.java:109-111 | With no staging directory the merge throws "Directory not found for file: name" and changes nothing. |
| VideoUpload.MergeEmptyDirectory | src/main/java/com/spring_stream_backend/service/VideoUploadService.java:113-119 | With an empty directory the merge throws "No chunks found for file: name". The directory is kept, and `name.mp4` has been created. |
| VideoUpload.MergeSucceedsIff | src/main/java/com/spring_stream_backend/service/VideoUploadService.java:107-146 | A merge succeeds exactly when the directory exists and is non-empty, `name.mp4` is not a directory, and the sort does not throw. |
| VideoUpload.MergeSucceeded | src/main/java/com/spring_stream_backend/service/VideoUploadService.java:121-142 | A successful merge writes the chunks in ascending index order into `name.mp4` from offset 0, removes the directory, and returns the success message. The order covers every chunk. |
| VideoUpload.SecondMergeFails | src/main/java/com/spring_stream_backend/service/VideoUploadService.java:136-140 | After a successful merge, merging again throws "Directory not found" and changes nothing. |
| VideoUpload.SortTwoAndTen | src/main/java/com/spring_stream_backend/service/VideoUploadService.java:121 | `chunk-10` and `chunk-2` sort as 2, 10. |
| VideoUpload.MergeOrdersNumerically | src/main/java/com/spring_stream_backend/service/VideoUploadService.java:121-137 | Merging compares indices as numbers: `chunk-2` comes before `chunk-10`. |
| VideoUpload.SaveAllKeepsOthers | src/main/java/com/spring_stream_backend/service/VideoUploadService.java:83-104 | Saving any sequence of chunks for one name leaves every other directory and every regular file unchanged. |
| VideoUpload.SaveAllStages | src/main/java/com/spring_stream_backend/service/VideoUploadService.java:83-104 | Saving valid chunks first, first+1, … into a directory with no index at or above `first` stages each chunk's bytes under its index. |
| VideoUpload.SaveThenMergeRoundTrip | src/main/java/com/spring_stream_backend/service/VideoUploadService.java:83-146 | Uploading valid chunks 1..n for a fresh name and then merging succeeds. `name.mp4` then holds the chunks' bytes concatenated in order, and the staging directory is gone. |
| VideoUpload.SaveToLocalOutcome | src/main/java/com/spring_stream_backend/service/VideoUploadService.java:33-66 | A whole-file save succeeds exactly when the file validates and no non-empty directory holds `<uuid><ext>`. It then stores exactly the uploaded bytes there and adds or removes no other file. A failure changes nothing. |
| VideoUpload.SaveToLocalKeepsValid | src/main/java/com/spring_stream_backend/service/VideoUploadService.java:33-66 | Saving a whole file keeps the storage well formed. |
| VideoUpload.SaveToLocalKeepsExtension | src/main/java/com/spring_stream_backend/service/VideoUploadService.java:46-51 | An upload named `base.ext` is stored as `<uuid>.ext`. |
| VideoUpload.TransferTo | src/main/java/com/spring_stream_backend/service/VideoUploadService.java:131 | A transfer moves at least one and at most `count` bytes. |
| VideoUpload.VideoUploadService.SaveVideoChunk | src/main/java/com/spring_stream_backend/service/VideoUploadService.java:83-104 | The result and the new storage state are those of `SaveChunkSpec` on the old state. |
| VideoUpload.VideoUploadService.AppendChunk | src/main/java/com/spring_stream_backend/service/VideoUploadService.java:126-133 | The `transferTo` loop extends the merged file's written prefix by exactly the chunk, whatever the sizes of the individual transfers. No other file or directory changes. |
| VideoUpload.VideoUploadService.DeleteChunk | src/main/java/com/spring_stream_backend/service/VideoUploadService.java:136 | Removes exactly one entry of the staging directory. |
| VideoUpload.VideoUploadService.CopyInOrder | src/main/java/com/spring_stream_backend/service/VideoUploadService.java:124-137 | After the loop over the sorted chunks, the merged file is the concatenation in order, written from offset 0. Only the staging directory and the merged file change. |
| VideoUpload.VideoUploadService.MergeChunks | src/main/java/com/spring_stream_backend/service/VideoUploadService.java:107-146 | The result and the new storage state are those of `MergeSpec` on the old state. |
| VideoUpload.VideoUploadService.SaveVideoToLocal | src/main/java/com/spring_stream_backend/service/VideoUploadService.java:33-66 | The result and the new storage state are those of `SaveToLocalSpec` on the old state. |
| FileChunk.EnsureOutcome | src/main/java/com/spring_stream_backend/service/FileChunkService.java:82-93 | Fails exactly when the directory is absent and `mkdirs` fails, with "Failed to create directory: path" and no change. Otherwise the directory exists afterwards. |
| FileChunk.EnsureIdempotent | src/main/java/com/spring_stream_backend/service/FileChunkService.java:84 | After a successful ensure, a second one succeeds and changes nothing. |
| FileChunk.ChunkFileNameInjective | src/main/java/com/spring_stream_backend/service/FileChunkService.java:70 | Distinct chunk indices give distinct `chunk<k>` names. |
| FileChunk.TempNameNotChunkName | src/main/java/com/spring_stream_backend/service/FileChunkService.java:35 | The temporary `temp_<name>` file is never overwritten by a chunk file. |
| FileChunk.ChunkNamesNotMergeable | src/main/java/com/spring_stream_backend/service/FileChunkService.java:70 | The upload service's merge sort key throws on every `chunk<k>` name. |
| FileChunk.ChunkCount | src/main/java/com/spring_stream_backend/service/FileChunkService.java:65-78 | The loop writes ceil(size / 1 MiB) chunks, and none for an empty file. |
| FileChunk.ChunkContent | src/main/java/com/spring_stream_backend/service/FileChunkService.java:65-78 | `chunk<k>` holds bytes (k-1)·1 MiB up to min(k·1 MiB, size) of the source. It is non-empty and at most 1 MiB, and exactly 1 MiB unless it is the last. |
| FileChunk.ChunksReassemble | src/main/java/com/spring_stream_backend/service/FileChunkService.java:57-80 | Reading `chunk1` … `chunkN` back and concatenating them gives the source file. |
| FileChunk.StaleChunksKept | src/main/java/com/spring_stream_backend/service/FileChunkService.java:65-78 | Chunk files with an index above N are left as they were. |
| FileChunk.NonChunkFilesKept | src/main/java/com/spring_stream_backend/service/FileChunkService.java:65-78 | Files not named `chunk…` are left as they were. |
| FileChunk.ChunkStep | src/main/java/com/spring_stream_backend/service/FileChunkService.java:66-77 | One iteration: the slice from `position` of length min(remaining, 1 MiB) is piece i, and the next position is the next piece's offset, or the file size after the last piece. |
| FileChunk.ProcessOutcome | src/main/java/com/spring_stream_backend/service/FileChunkService.java:23-55 | Succeeds exactly when the directory exists or can be created, the name is non-empty, and the transfer succeeds. The ensure failure changes nothing. A null or empty name throws "Invalid file name." after creating the directory. |
| FileChunk.ProcessDeletesTemp | src/main/java/com/spring_stream_backend/service/FileChunkService.java:49-54 | Once the name is valid, the temporary file is gone afterwards whatever happened. |
| FileChunk.ProcessWritesChunks | src/main/java/com/spring_stream_backend/service/FileChunkService.java:35-44 | On success the chunk files are the upload cut in 1 MiB pieces, the temporary file is removed, and the chunks read back give the upload's bytes. |
| FileChunk.FileChunkService.EnsureDirectoryExists | src/main/java/com/spring_stream_backend/service/FileChunkService.java:82-93 | The result and the directory set are those of `EnsureSpec`, and no file changes. |
| FileChunk.FileChunkService.ChunkFile | src/main/java/com/spring_stream_backend/service/FileChunkService.java:57-80 | The result and the new state are those of `ChunkFileSpec`: the directory ensured, then `chunk1..chunkN` written with the source's pieces. |
| FileChunk.FileChunkService.ProcessAndChunkFile | src/main/java/com/spring_stream_backend/service/FileChunkService.java:23-55 | The result and the new state are those of `ProcessSpec` on the old state. |
| S3Multipart.S3Client.CreateMultipartUpload | src/main/java/com/spring_stream_backend/service/S3MultipartUploadService.java:48-55 | Records a create call for the bucket and key, with the upload id the service returned. |
| S3Multipart.S3Client.UploadPart | src/main/java/com/spring_stream_backend/service/S3MultipartUploadService.java:72-83 | Records an upload-part call with the part number, content length, body and returned ETag. |
| S3Multipart.S3Client.CompleteMultipartUpload | src/main/java/com/spring_stream_backend/service/S3MultipartUploadService.java:93-105 | Records the complete call with its list of parts. |
| S3Multipart.Completed | src/main/java/com/spring_stream_backend/service/S3MultipartUploadService.java:86-89 | The completed-parts list has one (part number, ETag) entry per uploaded part, in order. |
| S3Multipart.SessionCount | src/main/java/com/spring_stream_backend/service/S3MultipartUploadService.java:63 | An upload sends ceil(size / 5 MiB) parts, and none for an empty file. |
| S3Multipart.SessionPart | src/main/java/com/spring_stream_backend/service/S3MultipartUploadService.java:63-83 | Part n carries number n and the upload id from the create call. Its body is the file's bytes from 5 MiB·(n-1), of length min(5 MiB, remaining). It is non-empty and at most 5 MiB, exactly 5 MiB unless it is the last, and its content length equals its body length. |
| S3Multipart.SessionTiles | src/main/java/com/spring_stream_backend/service/S3MultipartUploadService.java:63-90 | The part bodies concatenated in order are the file, and the content lengths add up to the file's size. |
| S3Multipart.TotalLengthOfBodies | src/main/java/com/spring_stream_backend/service/S3MultipartUploadService.java:77 | When every content length equals its body's length, the lengths add up to the length of the concatenated bodies. |
| S3Multipart.SessionCompletes | src/main/java/com/spring_stream_backend/service/S3MultipartUploadService.java:86-105 | The complete call uses the create call's upload id and lists exactly (n, ETag of part n) for n = 1..N. |
| S3Multipart.SessionOfEmptyFile | src/main/java/com/spring_stream_backend/service/S3MultipartUploadService.java:63 | For an empty file the session is a create followed by a complete with no parts. |
| S3Multipart.PartStep | src/main/java/com/spring_stream_backend/service/S3MultipartUploadService.java:64-66 | One iteration: start and size select exactly piece i. The size fits an `int`, and the loop condition holds for part i+2 exactly when there is another piece. |
| S3Multipart.S3MultipartUploadService.ReadPart | src/main/java/com/spring_stream_backend/service/S3MultipartUploadService.java:119-126 | `readFully` succeeds exactly when the requested bytes exist (or none are requested), and returns exactly those bytes. Otherwise it fails with EOFException. |
| S3Multipart.S3MultipartUploadService.UploadParts | src/main/java/com/spring_stream_backend/service/S3MultipartUploadService.java:63-90 | The part loop sends one upload-part call per 5 MiB piece, numbered from 1, and returns the completed-parts list of those calls. |
| S3Multipart.S3MultipartUploadService.UploadLargeFile | src/main/java/com/spring_stream_backend/service/S3MultipartUploadService.java:46-109 | A missing file fails with NoSuchFileException after only the create call. Otherwise the calls it sends form a `Session` for the file, and it returns "File uploaded successfully with key: key". |
| Tiling.FlattenPieces | src/main/java/com/spring_stream_backend/service/FileChunkService.java:65-78 | Fixed-size pieces concatenated give the data back. |
| Tiling.PiecesCount | src/main/java/com/spring_stream_backend/service/S3MultipartUploadService.java:63 | There are ceil(size / piece size) pieces. |
| Tiling.PieceAt | src/main/java/com/spring_stream_backend/service/S3MultipartUploadService.java:64-66 | Piece k exists exactly when k·size is inside the data, and it is the slice from k·size to min(k·size + size, length). |
| Tiling.PiecesShape | src/main/java/com/spring_stream_backend/service/FileChunkService.java:67 | Every piece is non-empty and at most the piece size, and all but the last are exactly that size. |

## Left out

- `StringUtils.cleanPath`, class-path lookup and `isFile` are not modelled. The video either exists (its bytes are given) or does not (None).
- The NIO "Error getting file size" 500 and the region policy's `getResourceContentLength` failure (a 500 ResponseStatusException, "Error reading video content.") are left out: an existing resource always has a length.
- VideoStreaming.ServeNioRange: `ByteBuffer.allocate` with a large wrapped capacity (up to 2^31 - 1 bytes) is taken to succeed; an `OutOfMemoryError` is not modelled.
- Any `IOException` while reading or writing the stream is not modelled; in the source it becomes a RuntimeException or a 500.
- Spring's `HttpRange` and `HttpHeaders.getRange()` are framework code. The model uses `createByteRange`, `getRangeStart` and `getRangeEnd` as the framework documents them. The region policy receives the parsed ranges as a parameter, and the `ResourceRegion` constructor's own checks are left out.
- `Files.probeContentType` and `MediaTypeFactory.getMediaType` are platform lookups; their answers are parameters (`Probe`, `mediaType`).
- `UUID.randomUUID()` is a parameter. The `File.mkdirs` outcome and the `MultipartFile.transferTo` outcome are boolean parameters.
- The storage root is assumed to exist. Paths are single names in one directory, with no nesting and no `..` handling.
- Exception messages for I/O failures are abbreviated to the file name, for example "Failed to save chunk: " + name, instead of the platform's full text.
- Absolute paths in success messages are the names relative to the storage root.
- MultipartFile `getBytes`, `getSize` and `isEmpty` are all read from one byte sequence.
- The upload service's staging directories are keyed by chunk index. Entries other than `chunk-<i>` cannot arise through the service, so a directory holding foreign names is not modelled.
- A transfer failing in the middle of a merge or a chunking run is not modelled. Neither is a directory named like a chunk file, which would make the write fail.
- VideoUpload.TransferTo: a merge transfer always moves at least one byte. The proof of the loop holds for any number of bytes from 1 to `count`; a transfer of 0 bytes is left out.
- FileChunk.FileChunkService.ChunkFile: `transferTo` into a chunk file is taken to move the whole chunk. The source ignores the returned count.
- FileChunk.FileChunkService.ChunkFile requires that the source file's name does not start with `chunk`. The service always passes `temp_<name>`, so this is what `processAndChunkFile` guarantees (`TempNameNotChunkName`).
- The `!tempFile.exists()` check after a successful transfer is not modelled: in the model a successful transfer always creates the file.
- `int` overflow of `chunkIndex` in `chunkFile` and of `partNumber` in `uploadLargeFile` is not modelled. It would need a file of 2 GiB chunks or 10 PiB of parts.
- The `long` and `int` widths are kept where they matter: header numbers go through `Long.parseLong` ranges, the NIO buffer capacity is the `(int)` cast of the `long` length, chunk indices are `Int32`, and `readPart`'s size fits an `int`. The NIO length `end - start + 1` cannot overflow a `long`, because the start lies between 0 and `Long.MAX_VALUE` and the end between -1 and the file's length minus 1.
- The S3 client's network calls, their asynchrony (`join`) and their failures are not modelled. Upload ids and ETags are opaque values the client returns, and the client is a log of the requests it received.
- Bucket configuration, region and credentials are not modelled.
- Logging (`System.out`, `Logger`) is left out.
- Concurrent requests are not modelled; each operation runs alone on the storage.
- Only ASCII digits are accepted by `parseLong`/`parseInt`, and only ASCII letters are lower-cased. Java also accepts other Unicode decimal digits and lower-cases other letters.
