/**
 * VideoStreamingService: serving a byte range of a stored video, after the
 * Range header syntax of section 14.1.2 of RFC 9110 (only `bytes=first-last`,
 * `bytes=first-` and `bytes=first`; no suffix ranges, no multiple ranges),
 * answering 206 (section 15.3.7) with Content-Range (section 14.4).
 *
 * Three delivery policies, kept apart because they differ:
 *  - IO: `ParseRangeHeaderIo` (full file on any problem) and an 8 KiB copy loop;
 *  - NIO: `ParseHttpRanges` (throws on any problem) and one read capped at 1 MiB;
 *  - region: `CalculateResourceRegion` over ranges parsed by the framework,
 *    defaulting to the first 1 MiB.
 */
module VideoStreaming {
  import opened Wrappers
  import opened JavaText
  import opened Tiling
  import opened JavaIo

  const BUFFER_SIZE_IO: nat := 1024 * 8
  const NIO_CHUNK_SIZE: nat := 1024 * 1024
  const REGION_CHUNK_SIZE: nat := 1024 * 1024

  const CONTENT_TYPE := "Content-Type"
  const CONTENT_RANGE := "Content-Range"
  const ACCEPT_RANGES := "Accept-Ranges"
  const CONTENT_LENGTH := "Content-Length"
  const OCTET_STREAM := "application/octet-stream"

  /** The exceptions that can leave a streaming call. */
  datatype JavaException =
    | IllegalArgument(message: string)
    | NumberFormat(input: string)
    | IndexOutOfBounds
    | ResponseStatus(status: int, reason: string)

  /** What a controller method hands back: a response, or an exception it threw. */
  datatype Served =
    | Responded(status: int, headers: map<string, string>, body: Option<seq<bv8>>)
    | Threw(exception: JavaException)

  /** `"bytes " + start + "-" + end + "/" + length`. */
  function ContentRange(start: int, end: int, length: int): string
  {
    "bytes " + IntToString(start) + "-" + IntToString(end) + "/" + IntToString(length)
  }

  /** Reads a Content-Range value with non-negative numbers back; the reference reading. */
  function ReadContentRange(h: string): Option<(int, int, int)>
  {
    if !StartsWith(h, "bytes ") then None
    else
      var slash := Split(h[6..], '/');
      if |slash| != 2 then None
      else
        var dash := Split(slash[0], '-');
        if |dash| != 2 then None
        else
          match (ParseLong(dash[0]), ParseLong(dash[1]), ParseLong(slash[1]))
          case (Some(s), Some(e), Some(l)) => Some((s, e, l))
          case _ => None
  }

  lemma NoSeparatorInDigits(s: string, c: char)
    requires AllDigits(s) && !IsDigit(c)
    ensures c !in s
  {
    forall i | 0 <= i < |s| ensures s[i] != c {
      assert IsDigit(s[i]);
    }
  }

  /** The two splits that take "s-e/l" apart, for digit strings s, e and l. */
  lemma SplitDigitTriple(s: string, e: string, l: string)
    requires AllDigits(s) && AllDigits(e) && AllDigits(l) && l != "" && e != ""
    ensures Split(s + ['-'] + e + ['/'] + l, '/') == [s + ['-'] + e, l]
    ensures Split(s + ['-'] + e, '-') == [s, e]
  {
    NoSeparatorInDigits(s, '-');
    NoSeparatorInDigits(e, '-');
    NoSeparatorInDigits(s, '/');
    NoSeparatorInDigits(e, '/');
    NoSeparatorInDigits(l, '/');
    assert '/' !in s + ['-'] + e;
    SplitAroundSeparator(s + ['-'] + e, '/', l);
    SplitAroundSeparator(s, '-', e);
  }

  /** Reading "bytes s-e/l" back parses each of the three digit strings. */
  lemma ReadDigitTriple(s: string, e: string, l: string)
    requires AllDigits(s) && AllDigits(e) && AllDigits(l) && l != "" && e != ""
    ensures ReadContentRange("bytes " + (s + ['-'] + e + ['/'] + l)) ==
      match (ParseLong(s), ParseLong(e), ParseLong(l))
      case (Some(a), Some(b), Some(c)) => Some((a, b, c))
      case _ => None
  {
    var h := "bytes " + (s + ['-'] + e + ['/'] + l);
    assert StartsWith(h, "bytes ");
    assert h[6..] == s + ['-'] + e + ['/'] + l;
    SplitDigitTriple(s, e, l);
  }

  /** Content-Range states exactly the interval and length it was built from. */
  lemma ContentRangeReadsBack(start: nat, end: nat, length: nat)
    requires start <= LONG_MAX && end <= LONG_MAX && length <= LONG_MAX
    ensures ReadContentRange(ContentRange(start, end, length)) == Some((start, end, length))
  {
    var s, e, l := NatToString(start), NatToString(end), NatToString(length);
    assert ContentRange(start, end, length) == "bytes " + (s + ['-'] + e + ['/'] + l);
    ReadDigitTriple(s, e, l);
    ParseOfToString(start, LONG_MIN, LONG_MAX);
    ParseOfToString(end, LONG_MIN, LONG_MAX);
    ParseOfToString(length, LONG_MIN, LONG_MAX);
  }

  // ============================================================ IO policy

  /** The interval `[0, length - 1]` used whenever the IO parser gives up. */
  function FullRange(length: nat): (int, int) { (0, length - 1) }

  /**
   * `parseRangeHeaderIo`: `bytes=first-last`, `bytes=first-` or `bytes=first`,
   * with `last` clamped to the file; anything else, including a start
   * outside the file or `last < first`, gives the whole file.
   */
  function ParseRangeHeaderIo(rangeHeader: Option<string>, fileLength: nat): (r: (int, int))
    ensures fileLength > 0 ==> 0 <= r.0 <= r.1 < fileLength
    ensures fileLength == 0 ==> r == FullRange(0)
    ensures rangeHeader.None? || !StartsWith(rangeHeader.value, "bytes=") ==> r == FullRange(fileLength)
  {
    if rangeHeader.None? || !StartsWith(rangeHeader.value, "bytes=") then FullRange(fileLength)
    else
      var ranges := Split(rangeHeader.value[6..], '-');
      if |ranges| == 0 then FullRange(fileLength)
      else
        match ParseLong(ranges[0])
        case None => FullRange(fileLength)
        case Some(start) =>
          var last := if |ranges| > 1 && ranges[1] != "" then ParseLong(ranges[1]) else Some(fileLength - 1);
          match last
          case None => FullRange(fileLength)
          case Some(end) =>
            if start >= fileLength || start < 0 || end < start then FullRange(fileLength)
            else (start, Min(end, fileLength - 1))
  }

  /** A start that `Long.parseLong` rejects gives the whole file. */
  lemma IoUnparsableStartFallsBack(h: string, fileLength: nat)
    requires StartsWith(h, "bytes=")
    requires |Split(h[6..], '-')| > 0 && ParseLong(Split(h[6..], '-')[0]).None?
    ensures ParseRangeHeaderIo(Some(h), fileLength) == FullRange(fileLength)
  {
  }

  /** A present, non-empty end that `Long.parseLong` rejects gives the whole file. */
  lemma IoUnparsableEndFallsBack(h: string, fileLength: nat)
    requires StartsWith(h, "bytes=")
    requires var parts := Split(h[6..], '-');
      |parts| > 1 && ParseLong(parts[0]).Some? && parts[1] != "" && ParseLong(parts[1]).None?
    ensures ParseRangeHeaderIo(Some(h), fileLength) == FullRange(fileLength)
  {
  }

  /** `bytes=first-last` asks for `[first, min(last, length - 1)]` when first is in the file and first <= last. */
  lemma IoExplicitRange(first: nat, last: nat, fileLength: nat)
    requires first < fileLength && first <= last <= LONG_MAX
    ensures ParseRangeHeaderIo(Some("bytes=" + IntToString(first) + "-" + IntToString(last)), fileLength)
         == (first, Min(last, fileLength - 1))
  {
    var s, e := NatToString(first), NatToString(last);
    var h := "bytes=" + s + "-" + e;
    assert StartsWith(h, "bytes=");
    assert h[6..] == s + ['-'] + e;
    NoSeparatorInDigits(s, '-');
    NoSeparatorInDigits(e, '-');
    SplitAroundSeparator(s, '-', e);
    ParseOfToString(first, LONG_MIN, LONG_MAX);
    ParseOfToString(last, LONG_MIN, LONG_MAX);
  }

  /** `bytes=first-` and `bytes=first` both run to the end of the file. */
  lemma IoOpenRange(first: nat, fileLength: nat)
    requires first < fileLength && first <= LONG_MAX
    ensures ParseRangeHeaderIo(Some("bytes=" + IntToString(first) + "-"), fileLength) == (first, fileLength - 1)
    ensures ParseRangeHeaderIo(Some("bytes=" + IntToString(first)), fileLength) == (first, fileLength - 1)
  {
    var s := NatToString(first);
    assert StartsWith("bytes=" + s + "-", "bytes=");
    assert ("bytes=" + s + "-")[6..] == s + ['-'];
    assert StartsWith("bytes=" + s, "bytes=");
    assert ("bytes=" + s)[6..] == s;
    NoSeparatorInDigits(s, '-');
    SplitTrailingSeparator(s, '-');
    SplitNoSeparator(s, '-');
    ParseOfToString(first, LONG_MIN, LONG_MAX);
  }

  /** A start at or past the end, or `last < first`, falls back to the whole file (the check precedes clamping). */
  lemma IoInvalidRangeFallsBack(first: nat, last: nat, fileLength: nat)
    requires first <= LONG_MAX && last <= LONG_MAX
    requires first >= fileLength || last < first
    ensures ParseRangeHeaderIo(Some("bytes=" + IntToString(first) + "-" + IntToString(last)), fileLength)
         == FullRange(fileLength)
  {
    var s, e := NatToString(first), NatToString(last);
    var h := "bytes=" + s + "-" + e;
    assert StartsWith(h, "bytes=");
    assert h[6..] == s + ['-'] + e;
    NoSeparatorInDigits(s, '-');
    NoSeparatorInDigits(e, '-');
    SplitAroundSeparator(s, '-', e);
    ParseOfToString(first, LONG_MIN, LONG_MAX);
    ParseOfToString(last, LONG_MIN, LONG_MAX);
  }

  /** A suffix range `bytes=-n` is not supported: its empty first number fails to parse. */
  lemma IoSuffixRangeFallsBack(n: nat, fileLength: nat)
    ensures ParseRangeHeaderIo(Some("bytes=-" + NatToString(n)), fileLength) == FullRange(fileLength)
  {
    var d := NatToString(n);
    var h := "bytes=-" + d;
    assert StartsWith(h, "bytes=");
    assert h[6..] == "" + ['-'] + d;
    NoSeparatorInDigits(d, '-');
    SplitAroundSeparator("", '-', d);
  }

  lemma SplitAllFirstPiece(x: string, d: char, y: string)
    requires d !in x
    ensures SplitAll(x + y, d)[0] == x + SplitAll(y, d)[0]
    decreases |x|
  {
    if |x| > 0 {
      assert (x + y)[1..] == x[1..] + y;
      SplitAllFirstPiece(x[1..], d, y);
      assert [x[0]] + x[1..] == x;
    } else {
      assert x + y == y;
    }
  }

  /**
   * A list `bytes=first-last,more` is not supported by the IO parser: the
   * second number `last,...` fails to parse, so the whole file is served.
   */
  lemma IoRangeListFallsBack(first: nat, last: nat, more: string, fileLength: nat)
    requires first <= LONG_MAX
    ensures ParseRangeHeaderIo(Some("bytes=" + IntToString(first) + "-" + IntToString(last) + "," + more), fileLength)
         == FullRange(fileLength)
  {
    var s, e := NatToString(first), NatToString(last);
    var h := "bytes=" + s + "-" + e + "," + more;
    var tail := e + "," + more;
    assert StartsWith(h, "bytes=");
    assert h[6..] == s + ['-'] + tail;
    NoSeparatorInDigits(s, '-');
    NoSeparatorInDigits(e, '-');
    SplitAllConcat(s, '-', tail);
    SplitAllNoSeparator(s, '-');
    assert '-' !in e + ",";
    assert tail == (e + ",") + more;
    SplitAllFirstPiece(e + ",", '-', more);
    var all := SplitAll(h[6..], '-');
    assert all == [s] + SplitAll(tail, '-');
    var second := all[1];
    assert second == e + "," + SplitAll(more, '-')[0];
    assert second[|e|] == ',';
    var ranges := Split(h[6..], '-');
    assert ranges == DropTrailingEmpty(all);
    assert all[1] != "";
    assert |ranges| >= 2;
    assert ranges[1] == second;
    ParseOfToString(first, LONG_MIN, LONG_MAX);
    assert !AllDigits(second);
    assert !AllDigits(second[1..]) by { assert second[1..][|e| - 1] == ','; }
    assert ParseLong(ranges[1]).None?;
  }

  /** Two concrete cases: an interval inside the file, and a start past its end. */
  lemma IoScenarios()
    ensures ParseRangeHeaderIo(Some("bytes=" + IntToString(1000) + "-" + IntToString(1999)), 10000) == (1000, 1999)
    ensures ParseRangeHeaderIo(Some("bytes=" + IntToString(99999) + "-" + IntToString(100050)), 100) == (0, 99)
  {
    IoExplicitRange(1000, 1999, 10000);
    IoInvalidRangeFallsBack(99999, 100050, 100);
  }

  // ------------------------------------------------------ files and sinks

  /** The servlet output stream: every `write` appends, and its size is recorded. */
  class OutputSink {
    var written: seq<bv8>
    var writeSizes: seq<nat>

    constructor ()
      ensures written == [] && writeSizes == []
    {
      written, writeSizes := [], [];
    }

    method Write(b: array<bv8>, off: nat, len: nat)
      requires off + len <= b.Length
      modifies this
      ensures written == old(written) + b[off..off + len]
      ensures writeSizes == old(writeSizes) + [len]
    {
      written := written + b[off..off + len];
      writeSizes := writeSizes + [len];
    }
  }

  /** The servlet response: a status, headers, and its output stream. */
  class ServletResponse {
    var status: int
    var headers: map<string, string>
    const out: OutputSink

    constructor ()
      ensures status == 200 && headers == map[] && fresh(out)
      ensures out.written == [] && out.writeSizes == []
    {
      status, headers := 200, map[];
      out := new OutputSink();
    }
  }

  /** Headers of the IO policy; the content type is always Matroska. */
  function IoHeaders(start: int, end: int, length: int): map<string, string>
  {
    map[CONTENT_TYPE := "video/x-matroska", CONTENT_RANGE := ContentRange(start, end, length), ACCEPT_RANGES := "bytes"]
  }

  /**
   * The copy loop of `streamVideoIo`: reads of at most 8 KiB from the file
   * position, each written out as read, until `count` bytes have gone.
   */
  method CopyRange(file: FileHandle, out: OutputSink, buffer: array<bv8>, count: nat)
    requires buffer.Length == BUFFER_SIZE_IO
    requires file.cursor + count <= |file.data|
    modifies file, out, buffer
    ensures out.written == old(out.written) + file.data[old(file.cursor)..old(file.cursor) + count]
    ensures |out.writeSizes| >= |old(out.writeSizes)| && out.writeSizes[..|old(out.writeSizes)|] == old(out.writeSizes)
    ensures forall i :: |old(out.writeSizes)| <= i < |out.writeSizes| ==> 0 < out.writeSizes[i] <= BUFFER_SIZE_IO
  {
    ghost var start, written0, sizes0 := file.cursor, out.written, out.writeSizes;
    var bytesRead := 0;
    while bytesRead < count
      invariant 0 <= bytesRead <= count
      invariant file.cursor == start + bytesRead
      invariant out.written == written0 + file.data[start..start + bytesRead]
      invariant |out.writeSizes| >= |sizes0| && out.writeSizes[..|sizes0|] == sizes0
      invariant forall i :: |sizes0| <= i < |out.writeSizes| ==> 0 < out.writeSizes[i] <= BUFFER_SIZE_IO
      decreases count - bytesRead
    {
      var bytesToRead := Min(BUFFER_SIZE_IO, count - bytesRead);
      var read := file.Read(buffer, 0, bytesToRead);
      if read == -1 {
        break;
      }
      out.Write(buffer, 0, read);
      assert file.data[start..start + bytesRead + read]
          == file.data[start..start + bytesRead] + file.data[start + bytesRead..start + bytesRead + read];
      bytesRead := bytesRead + read;
    }
  }

  /**
   * `streamVideoIo`: 404 with no body and nothing written when the file is
   * missing; otherwise 206 and the resolved interval copied to the response
   * in writes of 1 to 8192 bytes.
   */
  method StreamVideoIo(resource: Option<seq<bv8>>, rangeHeader: Option<string>, response: ServletResponse)
    returns (entity: Served)
    modifies response, response.out
    ensures resource.None? ==>
      && entity == Responded(404, map[], None)
      && response.status == old(response.status) && response.headers == old(response.headers)
      && response.out.written == old(response.out.written) && response.out.writeSizes == old(response.out.writeSizes)
    ensures resource.Some? ==>
      var data := resource.value;
      var (start, end) := ParseRangeHeaderIo(rangeHeader, |data|);
      && entity == Responded(206, IoHeaders(start, end, |data|), None)
      && response.status == 206
      && response.headers == old(response.headers) + IoHeaders(start, end, |data|)
      && response.out.written == old(response.out.written) + data[start..end + 1]
      && |response.out.writeSizes| >= |old(response.out.writeSizes)|
      && response.out.writeSizes[..|old(response.out.writeSizes)|] == old(response.out.writeSizes)
      && forall i :: |old(response.out.writeSizes)| <= i < |response.out.writeSizes| ==>
           0 < response.out.writeSizes[i] <= BUFFER_SIZE_IO
  {
    if resource.None? {
      return Responded(404, map[], None);
    }
    var data := resource.value;
    var fileLength := |data|;
    var range := ParseRangeHeaderIo(rangeHeader, fileLength);
    var start, end := range.0, range.1;
    var chunkSize := end - start + 1;
    var file := new FileHandle(data);
    file.Seek(start);
    var headers := IoHeaders(start, end, fileLength);
    response.status := 206;
    response.headers := response.headers + headers;
    var buffer := new bv8[BUFFER_SIZE_IO];
    CopyRange(file, response.out, buffer, chunkSize);
    return Responded(206, headers, None);
  }

  // ============================================================ NIO policy

  /** Spring's HttpRange: a byte range `first-[last]` or a suffix range `-n`. */
  datatype HttpRange = ByteRange(first: int, last: Option<int>) | SuffixRange(suffixLength: int)

  /** `HttpRange.createByteRange(first, last)`; the framework rejects a negative first or last < first. */
  function CreateByteRange(first: int, last: int): (r: Result<HttpRange, JavaException>)
    ensures r.Success? <==> 0 <= first <= last
    ensures r.Success? ==> r.value == ByteRange(first, Some(last))
  {
    if first < 0 then Failure(IllegalArgument("Invalid first byte position: " + IntToString(first)))
    else if last < first then
      Failure(IllegalArgument("firstBytePosition=" + IntToString(first)
        + " should be less then or equal to lastBytePosition=" + IntToString(last)))
    else Success(ByteRange(first, Some(last)))
  }

  /** `getRangeStart(length)`, as the framework defines it. */
  function RangeStart(r: HttpRange, length: int): int
  {
    match r
    case ByteRange(first, _) => first
    case SuffixRange(n) => if n < length then length - n else 0
  }

  /** `getRangeEnd(length)`: the last position, clamped to `length - 1`. */
  function RangeEnd(r: HttpRange, length: int): int
  {
    match r
    case ByteRange(_, last) => if last.Some? && last.value < length then last.value else length - 1
    case SuffixRange(_) => length - 1
  }

  function ParseLongOrThrow(s: string): (r: Result<int, JavaException>)
    ensures r.Success? <==> ParseLong(s).Some?
    ensures r.Success? ==> r.value == ParseLong(s).value
  {
    match ParseLong(s)
    case Some(v) => Success(v)
    case None => Failure(NumberFormat(s))
  }

  /**
   * `parseHttpRange`: `bytes=first-last`; a missing last (`bytes=first` or
   * `bytes=first-`) means last = first. A piece without the `bytes=` prefix
   * throws "Invalid range format".
   */
  function ParseHttpRange(range: string): (r: Result<HttpRange, JavaException>)
    ensures r.Success? ==> r.value.ByteRange? && r.value.last.Some? && 0 <= r.value.first <= r.value.last.value
    ensures !StartsWith(range, "bytes=") ==> r == Failure(IllegalArgument("Invalid range format"))
  {
    if StartsWith(range, "bytes=") then
      var parts := Split(range[6..], '-');
      if |parts| == 0 then Failure(IndexOutOfBounds)
      else
        match ParseLongOrThrow(parts[0])
        case Failure(e) => Failure(e)
        case Success(start) =>
          var last := if |parts| > 1 then ParseLongOrThrow(parts[1]) else Success(start);
          match last
          case Failure(e) => Failure(e)
          case Success(end) => CreateByteRange(start, end)
    else Failure(IllegalArgument("Invalid range format"))
  }

  /** Parses every piece in order; the first piece that throws makes the whole call throw. */
  function ParseEach(pieces: seq<string>): (r: Result<seq<HttpRange>, JavaException>)
    ensures r.Success? <==> forall i :: 0 <= i < |pieces| ==> ParseHttpRange(pieces[i]).Success?
    ensures r.Success? ==> |r.value| == |pieces|
    ensures r.Success? ==> forall i :: 0 <= i < |pieces| ==> ParseHttpRange(pieces[i]) == Success(r.value[i])
    ensures r.Failure? ==>
      exists i :: 0 <= i < |pieces| && ParseHttpRange(pieces[i]) == Failure(r.error) &&
        forall j :: 0 <= j < i ==> ParseHttpRange(pieces[j]).Success?
  {
    if |pieces| == 0 then Success([])
    else
      match ParseHttpRange(pieces[0])
      case Failure(e) => Failure(e)
      case Success(first) =>
        match ParseEach(pieces[1..])
        case Failure(e) => Failure(e)
        case Success(rest) =>
          assert forall i :: 1 <= i < |pieces| ==> pieces[i] == pieces[1..][i - 1];
          Success([first] + rest)
  }

  /** `parseHttpRanges`: the header split at commas, each piece parsed. */
  function ParseHttpRanges(rangeHeader: string): Result<seq<HttpRange>, JavaException>
  {
    ParseEach(Split(rangeHeader, ','))
  }

  /** `bytes=first-last` gives exactly that byte range when 0 <= first <= last. */
  lemma NioExplicitRange(first: nat, last: nat)
    requires first <= last <= LONG_MAX
    ensures ParseHttpRange("bytes=" + IntToString(first) + "-" + IntToString(last)) == Success(ByteRange(first, Some(last)))
  {
    var s, e := NatToString(first), NatToString(last);
    var h := "bytes=" + s + "-" + e;
    assert StartsWith(h, "bytes=");
    assert h[6..] == s + ['-'] + e;
    NoSeparatorInDigits(s, '-');
    NoSeparatorInDigits(e, '-');
    SplitAroundSeparator(s, '-', e);
    ParseOfToString(first, LONG_MIN, LONG_MAX);
    ParseOfToString(last, LONG_MIN, LONG_MAX);
  }

  /** `bytes=first-` and `bytes=first` both become the single byte `[first, first]`. */
  lemma NioOpenRangeIsOneByte(first: nat)
    requires first <= LONG_MAX
    ensures ParseHttpRange("bytes=" + IntToString(first) + "-") == Success(ByteRange(first, Some(first)))
    ensures ParseHttpRange("bytes=" + IntToString(first)) == Success(ByteRange(first, Some(first)))
  {
    var s := NatToString(first);
    assert StartsWith("bytes=" + s + "-", "bytes=");
    assert ("bytes=" + s + "-")[6..] == s + ['-'];
    assert StartsWith("bytes=" + s, "bytes=");
    assert ("bytes=" + s)[6..] == s;
    NoSeparatorInDigits(s, '-');
    SplitTrailingSeparator(s, '-');
    SplitNoSeparator(s, '-');
    ParseOfToString(first, LONG_MIN, LONG_MAX);
  }

  /**
   * A comma list whose later piece lacks the `bytes=` prefix (as in
   * `bytes=0-9,20-29`) throws instead of using the first range.
   */
  lemma NioRangeListThrows(head: string, second: string)
    requires ',' !in head && ',' !in second && second != ""
    requires ParseHttpRange(head).Success? && !StartsWith(second, "bytes=")
    ensures ParseHttpRanges(head + "," + second) == Failure(IllegalArgument("Invalid range format"))
  {
    assert head + "," + second == head + [','] + second;
    SplitAroundSeparator(head, ',', second);
    var pieces := [head, second];
    assert ParseEach(pieces[1..]) == ParseEach([second]);
  }

  /**
   * The IO and NIO parsers disagree on `bytes=first-`: IO serves to the end
   * of the file, NIO only the byte at `first`.
   */
  lemma IoAndNioDisagreeOnOpenRange(first: nat, fileLength: nat)
    requires first + 1 < fileLength && fileLength <= LONG_MAX
    ensures ParseRangeHeaderIo(Some("bytes=" + IntToString(first) + "-"), fileLength).1 == fileLength - 1
    ensures var nio := ParseHttpRange("bytes=" + IntToString(first) + "-");
      nio.Success? && RangeEnd(nio.value, fileLength) == first
  {
    IoOpenRange(first, fileLength);
    NioOpenRangeIsOneByte(first);
  }

  /** The range the NIO policy serves: the first parsed range, or the whole file. */
  function NioRange(rangeHeader: Option<string>, fileSize: int): (r: Result<HttpRange, JavaException>)
    ensures r.Success? ==> r.value.ByteRange? && r.value.last.Some? && 0 <= r.value.first <= r.value.last.value
  {
    var ranges := if rangeHeader.Some? then ParseHttpRanges(rangeHeader.value) else Success([]);
    match ranges
    case Failure(e) => Failure(e)
    case Success(rs) =>
      if |rs| > 0 then
        assert ParseHttpRange(Split(rangeHeader.value, ',')[0]) == Success(rs[0]);
        Success(rs[0])
      else CreateByteRange(0, fileSize - 1)
  }

  /** The NIO transfer length: the requested length, capped at 1 MiB. */
  function NioChunkSize(r: HttpRange, fileSize: int): int
  {
    Min(RangeEnd(r, fileSize) - RangeStart(r, fileSize) + 1, NIO_CHUNK_SIZE)
  }

  /**
   * The NIO transfer never exceeds 1 MiB, and when it is not empty it lies
   * inside the file.
   */
  lemma NioChunkWithinFile(rangeHeader: Option<string>, fileSize: nat)
    requires NioRange(rangeHeader, fileSize).Success?
    ensures var r := NioRange(rangeHeader, fileSize).value;
      var start, size := RangeStart(r, fileSize), NioChunkSize(r, fileSize);
      && size <= NIO_CHUNK_SIZE && start >= 0
      && (size > 0 ==> start + size <= fileSize)
      && (start < fileSize ==> size > 0)
  {
  }

  /** The MIME type the platform probe reports: a type, none, or an IOException. */
  datatype Probe = Detected(mimeType: string) | Undetected | ProbeFailed

  /** `getMimeType`: the probed type, else a suffix table on the lower-cased name. */
  function MimeType(fileName: string, probe: Probe): (m: string)
  {
    match probe
    case Detected(t) => t
    case ProbeFailed => OCTET_STREAM
    case Undetected =>
      var name := ToLower(fileName);
      if EndsWith(name, ".mp4") then OCTET_STREAM
      else if EndsWith(name, ".mkv") then "video/x-matroska"
      else if EndsWith(name, ".avi") then "video/x-msvideo"
      else if EndsWith(name, ".mov") then "video/quicktime"
      else if EndsWith(name, ".webm") then "video/webm"
      else OCTET_STREAM
  }

  /** Without a probe result the type is one of the table's five values, and the name's case does not matter. */
  lemma MimeTypeFallback(fileName: string)
    ensures MimeType(fileName, Undetected) in {OCTET_STREAM, "video/x-matroska", "video/x-msvideo", "video/quicktime", "video/webm"}
    ensures MimeType(fileName, Undetected) == MimeType(ToLower(fileName), Undetected)
    ensures MimeType(fileName, ProbeFailed) == OCTET_STREAM
  {
    ToLowerIdempotent(fileName);
  }

  /**
   * A channel opened on the file, positioned at `position`, and one `read`
   * into a fresh buffer of `capacity` bytes: -1 at or past the end of the
   * file, otherwise the bytes read, at least one unless the buffer is empty.
   */
  method ReadOnce(data: seq<bv8>, position: nat, capacity: nat) returns (bytesRead: int, body: seq<bv8>)
    ensures capacity > 0 && position >= |data| ==> bytesRead == -1
    ensures !(capacity > 0 && position >= |data|) ==>
      && bytesRead == |body| <= capacity
      && (capacity > 0 ==> 1 <= bytesRead)
      && (bytesRead > 0 ==> position + |body| <= |data| && body == data[position..position + |body|])
  {
    var buffer := new bv8[capacity];
    var channel := new FileHandle(data);
    channel.Seek(position);
    bytesRead := channel.Read(buffer, 0, capacity);
    if bytesRead > 0 {
      assert buffer[..bytesRead] == buffer[0..0 + bytesRead];
      body := buffer[..bytesRead];
    } else {
      body := [];
    }
  }

  function NioHeaders(mimeType: string, start: int, end: int, fileSize: int, chunkSize: int): map<string, string>
  {
    map[CONTENT_TYPE := mimeType, CONTENT_RANGE := ContentRange(start, end, fileSize),
        ACCEPT_RANGES := "bytes", CONTENT_LENGTH := IntToString(chunkSize)]
  }

  /**
   * What `streamVideoNio` answers for a resolved range. The buffer is
   * allocated with `(int) chunkSize`, the low 32 bits of the `long` length:
   *  - a negative capacity makes the allocation throw;
   *  - a positive capacity at or past the end of the file reads -1, a 500;
   *  - otherwise 206 with one read of at most `capacity` bytes from the range
   *    start (at least one unless the capacity is 0). Content-Length is the
   *    `long` length, and Content-Range reports the uncapped end.
   * The capacity differs from the length only for a start greater than
   * length + 2^31, see `NioCapacityInsideFile` and `NioWrappedCapacityEmpty`.
   */
  predicate NioServed(data: seq<bv8>, r: HttpRange, mimeType: string, served: Served)
  {
    var start, end := RangeStart(r, |data|), RangeEnd(r, |data|);
    var chunkSize := NioChunkSize(r, |data|);
    var capacity := ToInt32(chunkSize);
    if capacity < 0 then served == Threw(IllegalArgument(CapacityMessage(capacity)))
    else if capacity > 0 && start >= |data| then served == Responded(500, map[], None)
    else
      && served.Responded? && served.status == 206
      && served.headers == NioHeaders(mimeType, start, end, |data|, chunkSize)
      && served.body.Some?
      && |served.body.value| <= capacity
      && (capacity > 0 ==> 1 <= |served.body.value|)
      && (|served.body.value| > 0 ==>
            0 <= start && start + |served.body.value| <= |data| &&
            served.body.value == data[start..start + |served.body.value|])
  }

  /** The message of `ByteBuffer.allocate` for a negative capacity. */
  function CapacityMessage(capacity: int): string
  {
    "capacity < 0: (" + IntToString(capacity) + " < 0)"
  }

  method ServeNioRange(data: seq<bv8>, range: HttpRange, mimeType: string) returns (served: Served)
    requires range.ByteRange? && range.last.Some? && 0 <= range.first <= range.last.value
    ensures NioServed(data, range, mimeType, served)
  {
    var fileSize := |data|;
    var start := RangeStart(range, fileSize);
    var end := RangeEnd(range, fileSize);
    var chunkSize := Min(end - start + 1, NIO_CHUNK_SIZE);
    var capacity := ToInt32(chunkSize);
    if capacity < 0 {
      return Threw(IllegalArgument(CapacityMessage(capacity)));
    }
    var bytesRead, body := ReadOnce(data, start, capacity);
    if bytesRead == -1 {
      return Responded(500, map[], None);
    }
    return Responded(206, NioHeaders(mimeType, start, end, fileSize, chunkSize), Some(body));
  }

  /**
   * For a start inside the file the cast keeps the length: the buffer holds
   * exactly the capped length, which is between 1 and 1 MiB.
   */
  lemma NioCapacityInsideFile(r: HttpRange, fileSize: nat)
    requires r.ByteRange? && r.last.Some? && 0 <= r.first <= r.last.value
    requires RangeStart(r, fileSize) < fileSize
    ensures ToInt32(NioChunkSize(r, fileSize)) == NioChunkSize(r, fileSize)
    ensures 1 <= NioChunkSize(r, fileSize) <= NIO_CHUNK_SIZE
  {
  }

  /**
   * A start far past the end of a 100-byte file: for `bytes=N-N` with
   * N = 2^32 + 100 the length is -2^32, whose cast is 0, so the answer is 206
   * with an empty body and Content-Length -4294967296.
   */
  lemma NioWrappedCapacityEmpty(data: seq<bv8>, mimeType: string, served: Served)
    requires |data| == 100
    ensures NioServed(data, ByteRange(4294967396, Some(4294967396)), mimeType, served) <==>
      served == Responded(206, NioHeaders(mimeType, 4294967396, 99, 100, -4294967296), Some([]))
  {
    var r := ByteRange(4294967396, Some(4294967396));
    assert RangeStart(r, 100) == 4294967396 && RangeEnd(r, 100) == 99;
    assert NioChunkSize(r, 100) == -4294967296;
    assert ToInt32(-4294967296) == 0;
  }

  /**
   * For N = 2^32 + 95 the length is -2^32 + 5, whose cast is 5: the read
   * from past the end returns -1, and the answer is 500.
   */
  lemma NioWrappedCapacityError(data: seq<bv8>, mimeType: string, served: Served)
    requires |data| == 100
    ensures NioServed(data, ByteRange(4294967391, Some(4294967391)), mimeType, served) <==>
      served == Responded(500, map[], None)
  {
    var r := ByteRange(4294967391, Some(4294967391));
    assert RangeStart(r, 100) == 4294967391 && RangeEnd(r, 100) == 99;
    assert NioChunkSize(r, 100) == -4294967291;
    assert ToInt32(-4294967291) == 5;
  }

  /** A header `bytes=first-last` with no comma resolves to that byte range. */
  lemma NioSingleRange(n: nat, fileSize: int)
    requires n <= LONG_MAX
    ensures NioRange(Some("bytes=" + IntToString(n) + "-" + IntToString(n)), fileSize) == Success(ByteRange(n, Some(n)))
  {
    var s := NatToString(n);
    var h := "bytes=" + s + "-" + s;
    NoSeparatorInDigits(s, ',');
    assert ',' !in h by {
      assert h == "bytes=" + s + "-" + s;
      forall i | 0 <= i < |h| ensures h[i] != ',' {
        if 6 <= i < 6 + |s| { assert h[i] == s[i - 6]; }
        else if 7 + |s| <= i { assert h[i] == s[i - 7 - |s|]; }
      }
    }
    SplitNoSeparator(h, ',');
    NioExplicitRange(n, n);
    assert Split(h, ',')[1..] == [];
  }

  /** `streamVideoNio`: 404 for a missing file; a malformed header throws; otherwise as `NioServed`. */
  method StreamVideoNio(resource: Option<seq<bv8>>, rangeHeader: Option<string>, fileName: string, probe: Probe)
    returns (served: Served)
    ensures resource.None? ==> served == Responded(404, map[], None)
    ensures resource.Some? ==>
      match NioRange(rangeHeader, |resource.value|)
      case Failure(e) => served == Threw(e)
      case Success(r) => NioServed(resource.value, r, MimeType(fileName, probe), served)
  {
    if resource.None? {
      return Responded(404, map[], None);
    }
    var data := resource.value;
    var resolved := NioRange(rangeHeader, |data|);
    if resolved.Failure? {
      return Threw(resolved.error);
    }
    served := ServeNioRange(data, resolved.value, MimeType(fileName, probe));
  }

  // ============================================================ region policy

  /** `calculateResourceRegion`: (position, count) of the region to send. */
  function CalculateResourceRegion(ranges: seq<HttpRange>, contentLength: int): (region: (int, int))
    ensures region.1 <= REGION_CHUNK_SIZE
    ensures |ranges| == 0 ==> region == (0, Min(REGION_CHUNK_SIZE, contentLength))
    ensures |ranges| > 0 ==> region.0 == RangeStart(ranges[0], contentLength)
  {
    if |ranges| == 0 then (0, Min(REGION_CHUNK_SIZE, contentLength))
    else
      var range := ranges[0];
      var start := RangeStart(range, contentLength);
      var end := RangeEnd(range, contentLength);
      (start, Min(REGION_CHUNK_SIZE, end - start + 1))
  }

  /**
   * For a first range that starts inside the file (and, for a byte range,
   * ends at or after its start), the region is a non-empty part of the file,
   * at most 1 MiB; later ranges are ignored.
   */
  lemma RegionWithinFile(ranges: seq<HttpRange>, contentLength: nat)
    requires |ranges| > 0
    requires ranges[0].ByteRange? ==>
      0 <= ranges[0].first < contentLength && (ranges[0].last.Some? ==> ranges[0].first <= ranges[0].last.value)
    requires ranges[0].SuffixRange? ==> ranges[0].suffixLength > 0 && contentLength > 0
    ensures var (position, count) := CalculateResourceRegion(ranges, contentLength);
      0 <= position && 0 < count <= REGION_CHUNK_SIZE && position + count <= contentLength
    ensures CalculateResourceRegion(ranges, contentLength) == CalculateResourceRegion(ranges[..1], contentLength)
  {
  }

  /**
   * A byte range `first-last` that starts inside the file gives the region
   * from `first` of length min(1 MiB, min(last, length - 1) - first + 1);
   * an open range `first-` runs to the end of the file, capped at 1 MiB.
   */
  lemma RegionOfByteRange(first: int, last: Option<int>, more: seq<HttpRange>, contentLength: nat)
    requires 0 <= first < contentLength && (last.Some? ==> first <= last.value)
    ensures last.Some? ==>
      CalculateResourceRegion([ByteRange(first, last)] + more, contentLength) ==
        (first, Min(REGION_CHUNK_SIZE, Min(last.value, contentLength - 1) - first + 1))
    ensures last.None? ==>
      CalculateResourceRegion([ByteRange(first, last)] + more, contentLength) ==
        (first, Min(REGION_CHUNK_SIZE, contentLength - first))
  {
  }

  /** A suffix range `-n` gives the last min(n, length) bytes, capped at 1 MiB. */
  lemma RegionOfSuffixRange(n: nat, more: seq<HttpRange>, contentLength: nat)
    ensures CalculateResourceRegion([SuffixRange(n)] + more, contentLength)
      == (if n < contentLength then contentLength - n else 0, Min(REGION_CHUNK_SIZE, Min(n, contentLength)))
  {
  }

  /** With no Range header a 5 MiB video yields its first 1 MiB. */
  lemma RegionDefaultWindow()
    ensures CalculateResourceRegion([], 5 * 1024 * 1024) == (0, 1024 * 1024)
    ensures CalculateResourceRegion([], 1000) == (0, 1000)
  {
  }

  /**
   * `streamVideo`: a null or blank name is a 400, an unreadable resource a
   * 404, otherwise 206 with the region and the framework's media type
   * (octet-stream when it has none).
   */
  function StreamVideoRegion(videoName: Option<string>, resource: Option<seq<bv8>>, ranges: seq<HttpRange>,
                             mediaType: Option<string>): (r: Result<(string, (int, int)), JavaException>)
    ensures videoName.None? ==> r == Failure(ResponseStatus(400, "Video name cannot be empty."))
    ensures videoName.Some? && (forall i :: 0 <= i < |videoName.value| ==> videoName.value[i] <= ' ') ==>
      r == Failure(ResponseStatus(400, "Video name cannot be empty."))
    ensures videoName.Some? && (exists i :: 0 <= i < |videoName.value| && videoName.value[i] > ' ') ==>
      && (r.Success? <==> resource.Some?)
      && (resource.None? ==> r == Failure(ResponseStatus(404, "Video not found: " + videoName.value)))
    ensures r.Success? ==> resource.Some? && r.value == (mediaType.GetOr(OCTET_STREAM), CalculateResourceRegion(ranges, |resource.value|))
  {
    if videoName.None? then
      Failure(ResponseStatus(400, "Video name cannot be empty."))
    else
      TrimEmptyIff(videoName.value);
      if Trim(videoName.value) == "" then
        Failure(ResponseStatus(400, "Video name cannot be empty."))
      else if resource.None? then
        Failure(ResponseStatus(404, "Video not found: " + videoName.value))
      else
        Success((mediaType.GetOr(OCTET_STREAM), CalculateResourceRegion(ranges, |resource.value|)))
  }
}
