/** Sending ranges of a content through a buffer (CaimitoDefaultServlet.copyRange and copy). */
module ServeRange {
  import opened Basics
  import opened HttpText
  import opened ByteRanges

  newtype byte = i: int | 0 <= i < 0x100

  /** The content of the resource as a stream. Reads may be short and skips may fall short unless `full`. */
  class InputStream {
    const content: seq<byte>
    const full: bool
    var pos: nat
    ghost var lens: seq<int> // what the calls of read returned

    constructor (content: seq<byte>, full: bool)
      ensures this.content == content && this.full == full && pos == 0 && lens == []
    {
      this.content, this.full, pos, lens := content, full, 0, [];
    }

    method Skip(n: nat) returns (skipped: nat)
      requires pos <= |content|
      modifies this
      ensures pos == old(pos) + skipped <= |content| && skipped <= n && lens == old(lens)
      ensures full && old(pos) + n <= |content| ==> skipped == n
    {
      if full {
        skipped := if pos + n <= |content| then n else |content| - pos;
      } else {
        skipped :| 0 <= skipped <= n && pos + skipped <= |content|;
      }
      pos := pos + skipped;
    }

    /** InputStream.read: -1 at the end; None is an IOException. */
    method Read(buffer: array<byte>) returns (len: Option<int>)
      requires pos <= |content| && buffer.Length > 0
      modifies this, buffer
      ensures full ==> len.Some?
      ensures lens == if len.Some? then old(lens) + [len.value] else old(lens)
      ensures len.None? ==> pos == old(pos)
      ensures len.Some? && len.value == -1 <==> old(pos) == |content| && len.Some?
      ensures len.Some? && len.value != -1 ==>
                1 <= len.value <= buffer.Length && pos == old(pos) + len.value <= |content| &&
                buffer[..len.value] == content[old(pos)..pos]
      ensures len.Some? && len.value == -1 ==> pos == old(pos)
      ensures full && len.Some? && len.value != -1 ==> len.value == buffer.Length || pos == |content|
    {
      if !full {
        var failed: bool := *;
        if failed {
          return None;
        }
      }
      if pos == |content| {
        lens := lens + [-1];
        return Some(-1);
      }
      var most := if buffer.Length <= |content| - pos then buffer.Length else |content| - pos;
      var n := most;
      if !full {
        n :| 1 <= n <= most;
      }
      forall i | 0 <= i < n {
        buffer[i] := content[pos + i];
      }
      pos := pos + n;
      lens := lens + [n];
      return Some(n);
    }
  }

  class OutputStream {
    var written: seq<byte>

    constructor ()
      ensures written == []
    {
      written := [];
    }

    method Append(data: seq<byte>)
      modifies this
      ensures written == old(written) + data
    {
      written := written + data;
    }

    /** False is the IndexOutOfBoundsException that a negative length raises. */
    method Write(buffer: array<byte>, len: int) returns (ok: bool)
      requires len <= buffer.Length
      modifies this
      ensures ok <==> len >= 0
      ensures written == old(written) + (if ok then buffer[..len] else [])
    {
      if len < 0 {
        return false;
      }
      written := written + buffer[..len];
      return true;
    }
  }

  datatype CopyEnd =
    | Done          // the method returned null: all it could read was written
    | ShortSkip     // an IOException: the skip fell short
    | ReadError     // an IOException from the stream
    | NegativeWrite // write was called with length -1

  /** n bytes fill whole buffers of k bytes. */
  predicate Multiple(n: nat, k: nat)
    requires k > 0
  {
    if n < k then n == 0 else Multiple(n - k, k)
  }

  /** sent is the content from start on, at most up to end. */
  predicate IsPart(content: seq<byte>, start: nat, end: int, sent: seq<byte>) {
    sent == [] || (|sent| <= end - start + 1 && start + |sent| <= |content| && sent == content[start..start + |sent|])
  }

  lemma SlicePrefix(c: seq<byte>, p: nat, len: nat, n: nat)
    requires n <= len && p + len <= |c|
    ensures c[p..p + len][..n] == c[p..p + n]
  {
  }

  /** One read and write; the range form of copyRange asks for at most bytesToRead bytes. */
  method CopyBuffer(istream: InputStream, ostream: OutputStream, buffer: array<byte>, bytesToRead: int)
    returns (r: CopyEnd, len: int, n: nat)
    requires bytesToRead > 0 && buffer.Length > 0 && istream.pos <= |istream.content|
    modifies istream, ostream, buffer
    ensures r == Done || r == ReadError || r == NegativeWrite
    ensures istream.pos <= |istream.content| && n <= bytesToRead && old(istream.pos) + n <= istream.pos
    ensures ostream.written == old(ostream.written) + istream.content[old(istream.pos)..old(istream.pos) + n]
    ensures r == NegativeWrite <==> len == -1
    ensures r == NegativeWrite ==> old(istream.pos) == |istream.content|
    ensures r == Done ==>
              1 <= len <= buffer.Length && istream.pos == old(istream.pos) + len &&
              n == if bytesToRead < len then bytesToRead else len
    ensures r != Done ==> n == 0
    ensures r == Done ==> istream.lens == old(istream.lens) + [len]
    ensures istream.full ==> r != ReadError && (r == NegativeWrite <==> old(istream.pos) == |istream.content|)
    ensures istream.full && r == Done ==> len == buffer.Length || istream.pos == |istream.content|
  {
    n := 0;
    ghost var p := istream.pos;
    var got := istream.Read(buffer);
    if got.None? {
      return ReadError, -2, 0;
    }
    len := got.value;
    if bytesToRead >= len {
      var ok := ostream.Write(buffer, len);
      if !ok {
        return NegativeWrite, len, 0;
      }
      n := len;
    } else {
      var ok := ostream.Write(buffer, bytesToRead);
      n := bytesToRead;
      SlicePrefix(istream.content, p, len, n);
      assert buffer[..n] == buffer[..len][..n];
    }
    return Done, len, n;
  }

  lemma Assoc<T>(a: seq<T>, b: seq<T>, c: seq<T>)
    ensures (a + b) + c == a + (b + c)
  {
  }

  lemma SliceMore(c: seq<byte>, start: nat, p: nat, n: nat)
    requires start <= p && p + n <= |c|
    ensures c[start..p] + c[p..p + n] == c[start..p + n]
  {
  }

  /** The loop of the range form of copyRange after it has sent some bytes; len is the last read's. */
  ghost predicate Copying(c: seq<byte>, full: bool, pos: nat, start: nat, end: int, input: nat,
                          sent: seq<byte>, bytesToRead: int, len: int)
    requires input > 0
  {
    && 0 <= bytesToRead == end - start + 1 - |sent|
    && start + |sent| <= |c| && sent == c[start..start + |sent|]
    && pos <= |c|
    && (bytesToRead > 0 ==> pos == start + |sent|)
    && (full && bytesToRead > 0 ==>
          if len >= input then Multiple(|c| - start, input) == Multiple(|c| - start - |sent|, input)
          else start + |sent| == |c| && !Multiple(|c| - start, input))
  }

  lemma CopiedMore(c: seq<byte>, full: bool, pos: nat, start: nat, end: int, input: nat,
                   sent: seq<byte>, bytesToRead: int, before: int, len: int, n: nat)
    requires input > 0 && Copying(c, full, pos, start, end, input, sent, bytesToRead, before)
    requires bytesToRead > 0 && before >= input && 1 <= len <= input && pos + len <= |c|
    requires n == if bytesToRead < len then bytesToRead else len
    requires full ==> len == input || pos + len == |c|
    ensures Copying(c, full, pos + len, start, end, input, sent + c[pos..pos + n], bytesToRead - n, len)
  {
    SliceMore(c, start, pos, n);
  }

  function Total(lens: seq<int>): int {
    if lens == [] then 0 else Total(lens[..|lens| - 1]) + lens[|lens| - 1]
  }

  lemma TotalMore(lens: seq<int>, len: int)
    ensures Total(lens + [len]) == Total(lens) + len
  {
    assert (lens + [len])[..|lens|] == lens;
  }

  function Min(a: int, b: int): int {
    if a < b then a else b
  }

  /** Before `want` bytes were read, a read filled less than the buffer. */
  ghost predicate ShortBefore(lens: seq<int>, want: int, input: nat) {
    exists i :: 0 <= i < |lens| && lens[i] < input && Total(lens[..i + 1]) < want
  }

  /** Every read but the last one, which returned len, filled the buffer, and what was read was sent, up to `want`. */
  ghost predicate ReadUp(lens: seq<int>, want: int, input: nat, sent: nat, len: int) {
    && (forall i :: 0 <= i < |lens| - 1 ==> lens[i] == input)
    && (if lens == [] then len == input else lens[|lens| - 1] == len)
    && sent == Min(want, Total(lens))
  }

  lemma ReadMore(lens: seq<int>, want: int, input: nat, sent: nat, before: int, len: int)
    requires ReadUp(lens, want, input, sent, before) && before >= input && sent < want && 1 <= len <= input
    requires lens != [] ==> before == input
    ensures ReadUp(lens + [len], want, input, Min(want, sent + len), len)
  {
    TotalMore(lens, len);
  }

  lemma ReadEnd(lens: seq<int>, want: int, input: nat, sent: nat, len: int)
    requires ReadUp(lens, want, input, sent, len) && want > 0 && (sent == want || len < input)
    ensures sent < want <==> ShortBefore(lens, want, input)
  {
    assert lens != [] ==> lens[..|lens| - 1 + 1] == lens;
    if sent < want {
      assert lens[|lens| - 1] < input && Total(lens[..|lens| - 1 + 1]) < want;
    }
    if ShortBefore(lens, want, input) {
      var i :| 0 <= i < |lens| && lens[i] < input && Total(lens[..i + 1]) < want;
      assert i == |lens| - 1;
    }
  }

  /** How the loop ends, with what was sent and what the reads returned. */
  ghost predicate Outcome(c: seq<byte>, full: bool, start: nat, end: int, input: nat,
                          lens: seq<int>, r: CopyEnd, sent: seq<byte>)
    requires input > 0
  {
    && IsPart(c, start, end, sent)
    && (r == NegativeWrite ==> |c| <= end)
    && (r == Done ==> |sent| == Min(end - start + 1, Total(lens)))
    && (r == Done ==> (|sent| < end - start + 1 <==> ShortBefore(lens, end - start + 1, input)))
    && (full && end < |c| ==> r == Done && sent == c[start..end + 1])
    && (full && start <= |c| <= end ==>
          sent == c[start..] && r == if Multiple(|c| - start, input) then NegativeWrite else Done)
  }

  lemma OutcomeDone(c: seq<byte>, full: bool, pos: nat, start: nat, end: int, input: nat,
                    lens: seq<int>, sent: seq<byte>, bytesToRead: int, len: int)
    requires input > 0 && start <= end && Copying(c, full, pos, start, end, input, sent, bytesToRead, len)
    requires ReadUp(lens, end - start + 1, input, |sent|, len) && (bytesToRead == 0 || len < input)
    ensures Outcome(c, full, start, end, input, lens, Done, sent)
  {
    ReadEnd(lens, end - start + 1, input, |sent|, len);
  }

  lemma OutcomeStopped(c: seq<byte>, full: bool, pos: nat, start: nat, end: int, input: nat,
                       lens: seq<int>, r: CopyEnd, sent: seq<byte>, bytesToRead: int, len: int)
    requires input > 0 && Copying(c, full, pos, start, end, input, sent, bytesToRead, len)
    requires bytesToRead > 0 && len >= input && r != Done
    requires r == NegativeWrite ==> pos == |c|
    requires full ==> r == NegativeWrite
    ensures Outcome(c, full, start, end, input, lens, r, sent)
  {
  }

  /** What the loop of copyRange keeps, when it has written sent behind base. */
  ghost predicate Sending(istream: InputStream, ostream: OutputStream, base: seq<byte>, sent: seq<byte>,
                          start: nat, end: int, input: nat, bytesToRead: int, len: int)
    requires input > 0
    reads istream, ostream
  {
    && Copying(istream.content, istream.full, istream.pos, start, end, input, sent, bytesToRead, len)
    && len <= input && ReadUp(istream.lens, end - start + 1, input, |sent|, len)
    && ostream.written == base + sent
  }

  /** One turn of the loop of copyRange. */
  method CopyTurn(istream: InputStream, ostream: OutputStream, buffer: array<byte>, bytesToRead: int,
                  ghost base: seq<byte>, ghost sent: seq<byte>, ghost start: nat, ghost end: int, ghost before: int)
    returns (r: CopyEnd, len: int, n: nat, ghost more: seq<byte>)
    requires buffer.Length > 0 && bytesToRead > 0 && before >= buffer.Length
    requires Sending(istream, ostream, base, sent, start, end, buffer.Length, bytesToRead, before)
    modifies istream, ostream, buffer
    ensures r == Done ==>
              n > 0 && Sending(istream, ostream, base, sent + more, start, end, buffer.Length, bytesToRead - n, len)
    ensures r != Done ==>
              Outcome(istream.content, istream.full, start, end, buffer.Length, istream.lens, r, sent) &&
              ostream.written == base + sent
  {
    ghost var c, p, lens := istream.content, istream.pos, istream.lens;
    r, len, n := CopyBuffer(istream, ostream, buffer, bytesToRead);
    more := c[p..p + n];
    if r == Done {
      CopiedMore(c, istream.full, p, start, end, buffer.Length, sent, bytesToRead, before, len, n);
      Assoc(base, sent, more);
      ReadMore(lens, end - start + 1, buffer.Length, |sent|, before, len);
    } else {
      OutcomeStopped(c, istream.full, p, start, end, buffer.Length, istream.lens, r, sent, bytesToRead, before);
    }
  }

  /** The loop of copyRange. */
  method CopyLoop(istream: InputStream, ostream: OutputStream, start: nat, end: int, input: nat)
    returns (r: CopyEnd, ghost sent: seq<byte>)
    requires istream.pos == start <= |istream.content| && istream.lens == []
    requires input > 0 && start <= end < MAX_LONG
    modifies istream, ostream
    ensures ostream.written == old(ostream.written) + sent
    ensures Outcome(istream.content, istream.full, start, end, input, istream.lens, r, sent)
  {
    sent := [];
    ghost var base := ostream.written;
    var bytesToRead := Long(end - start + 1);
    var buffer := new byte[input];
    var len := buffer.Length;
    while bytesToRead > 0 && len >= buffer.Length
      invariant Sending(istream, ostream, base, sent, start, end, input, bytesToRead, len)
      decreases bytesToRead
    {
      var n;
      ghost var more;
      r, len, n, more := CopyTurn(istream, ostream, buffer, bytesToRead, base, sent, start, end, len);
      if r != Done {
        return;
      }
      sent := sent + more;
      bytesToRead := bytesToRead - n;
    }
    OutcomeDone(istream.content, istream.full, istream.pos, start, end, input, istream.lens, sent, bytesToRead, len);
    r := Done;
  }

  method CopyRange(istream: InputStream, ostream: OutputStream, start: nat, end: int, input: nat)
    returns (r: CopyEnd, ghost sent: seq<byte>)
    requires istream.pos == 0 && istream.lens == [] && input > 0 && start <= end < MAX_LONG
    modifies istream, ostream
    // a prefix of the range, whatever the stream does
    ensures ostream.written == old(ostream.written) + sent && IsPart(istream.content, start, end, sent)
    ensures r == NegativeWrite ==> |istream.content| <= end
    // part of it is missing, without any error, exactly if a read fell short before the last byte
    ensures r == Done ==>
              |sent| == Min(end - start + 1, Total(istream.lens)) &&
              (|sent| < end - start + 1 <==> ShortBefore(istream.lens, end - start + 1, input))
    // with full reads: exactly the range, or exactly what there is of it
    ensures istream.full && end < |istream.content| ==> r == Done && sent == istream.content[start..end + 1]
    ensures istream.full && start <= |istream.content| <= end ==>
              sent == istream.content[start..] &&
              r == if Multiple(|istream.content| - start, input) then NegativeWrite else Done
  {
    var skipped := istream.Skip(start);
    if skipped < start {
      return ShortSkip, [];
    }
    r, sent := CopyLoop(istream, ostream, start, end, input);
  }

  // ---- Several ranges in one answer ----

  function Slice(content: seq<byte>, r: ByteRange): seq<byte>
    requires Servable(r) && r.length == |content|
  {
    content[r.start..r.end + 1]
  }

  ghost predicate AllServable(ranges: seq<ByteRange>, content: seq<byte>) {
    forall r :: r in ranges ==> Servable(r) && r.length == |content|
  }

  /** The bytes of a text of 8-bit characters. */
  function Encode(s: string): seq<byte> {
    seq(|s|, i requires 0 <= i < |s| => (s[i] as int % 256) as byte)
  }

  /** What println makes of a line. */
  function Line(s: string): seq<byte> {
    Encode(s + "\r\n")
  }

  function PartHeader(r: ByteRange, boundary: string, contentType: Option<string>): seq<byte> {
    Line("") + Line("--" + boundary) +
    (if contentType.Some? then Line("Content-Type: " + contentType.value) else []) +
    Line("Content-Range: " + ContentRange(r)) + Line("")
  }

  lemma EncodeJoin(a: string, b: string)
    ensures Encode(a) + Encode(b) == Encode(a + b)
  {
  }

  /** An 8-bit character is sent as the byte of its code. */
  lemma EncodeByte(s: string, i: nat)
    requires i < |s| && s[i] as int < 256
    ensures |Encode(s)| == |s| && Encode(s)[i] as int == s[i] as int
  {
  }

  /** A line is its text, a carriage return and a line feed. */
  lemma LineText(t: string, s: string)
    ensures Encode(t) + Line(s) == Encode(t + s + "\r\n")
  {
    EncodeJoin(t, s + "\r\n");
    assert t + (s + "\r\n") == t + s + "\r\n";
  }

  lemma LineOf(t: string, name: string, value: string)
    ensures Encode(t) + Line(name + value) == Encode(t + name + value + "\r\n")
  {
    LineText(t, name + value);
    Assoc(t, name, value);
  }

  /**
   * The text in front of a part: a blank line, the delimiter, the fields, a blank line. The value
   * of Content-Range parses to the range.
   */
  lemma PartHeaderText(r: ByteRange, boundary: string, contentType: Option<string>) returns (value: string)
    requires Servable(r)
    ensures ContentRangeOf(Some(value)) == Parsed(r)
    ensures PartHeader(r, boundary, contentType) ==
            var t := "\r\n" + "--" + boundary + "\r\n";
            var u := if contentType.Some? then t + "Content-Type: " + contentType.value + "\r\n" else t;
            Encode(u + "Content-Range: " + value + "\r\n" + "\r\n")
    ensures Trailer(boundary) == Encode("\r\n" + "--" + boundary + "--")
  {
    value := ContentRange(r);
    ContentRangeRoundTrip(r);
    HeaderText(value, boundary, contentType);
    TrailerText(boundary);
  }

  lemma HeaderText(value: string, boundary: string, contentType: Option<string>)
    ensures Line("") + Line("--" + boundary) +
            (if contentType.Some? then Line("Content-Type: " + contentType.value) else []) +
            Line("Content-Range: " + value) + Line("") ==
            var t := "\r\n" + "--" + boundary + "\r\n";
            var u := if contentType.Some? then t + "Content-Type: " + contentType.value + "\r\n" else t;
            Encode(u + "Content-Range: " + value + "\r\n" + "\r\n")
  {
    assert "" + "\r\n" == "\r\n";
    LineOf("\r\n", "--", boundary);
    var t := "\r\n" + "--" + boundary + "\r\n";
    if contentType.Some? { LineOf(t, "Content-Type: ", contentType.value); }
    var u := if contentType.Some? then t + "Content-Type: " + contentType.value + "\r\n" else t;
    LineOf(u, "Content-Range: ", value);
    EncodeJoin(u + "Content-Range: " + value + "\r\n", "\r\n");
  }

  lemma TrailerText(boundary: string)
    ensures Trailer(boundary) == Encode("\r\n" + "--" + boundary + "--")
  {
    assert "" + "\r\n" == "\r\n";
    EncodeJoin("\r\n", "--" + boundary + "--");
    Assoc("\r\n", "--" + boundary, "--");
    Assoc("\r\n", "--", boundary);
  }

  /** What the parts look like: each range's header, and after it the bytes that were sent for it. */
  ghost function PartsOf(ranges: seq<ByteRange>, sent: seq<seq<byte>>,
                         boundary: string, contentType: Option<string>): seq<byte>
    requires |ranges| == |sent|
    decreases |ranges|
  {
    if ranges == [] then []
    else
      var n := |ranges| - 1;
      PartsOf(ranges[..n], sent[..n], boundary, contentType) + (PartHeader(ranges[n], boundary, contentType) + sent[n])
  }

  lemma PartsMore(ranges: seq<ByteRange>, sent: seq<seq<byte>>,
                  boundary: string, contentType: Option<string>, more: seq<byte>)
    requires |sent| < |ranges|
    ensures PartsOf(ranges[..|sent| + 1], sent + [more], boundary, contentType) ==
            PartsOf(ranges[..|sent|], sent, boundary, contentType) +
            (PartHeader(ranges[|sent|], boundary, contentType) + more)
  {
    var n := |sent|;
    assert ranges[..n + 1][..n] == ranges[..n] && (sent + [more])[..n] == sent;
  }

  /** What is sent for the first |sent| ranges: parts of them, and with full reads the ranges themselves. */
  ghost predicate SentFor(content: seq<byte>, ranges: seq<ByteRange>, sent: seq<seq<byte>>, full: bool)
    requires AllServable(ranges, content)
  {
    |sent| <= |ranges| &&
    forall i {:trigger sent[i]} :: 0 <= i < |sent| ==> SentOne(content, ranges[i], sent[i], full)
  }

  ghost predicate SentOne(content: seq<byte>, r: ByteRange, sent: seq<byte>, full: bool) {
    && Servable(r) && r.length == |content|
    && IsPart(content, r.start, r.end, sent)
    && (full ==> sent == Slice(content, r))
  }

  lemma SentMore(content: seq<byte>, ranges: seq<ByteRange>, sent: seq<seq<byte>>, full: bool, more: seq<byte>)
    requires AllServable(ranges, content) && SentFor(content, ranges, sent, full)
    requires |sent| < |ranges| && SentOne(content, ranges[|sent|], more, full)
    ensures SentFor(content, ranges, sent + [more], full)
  {
    forall i | 0 <= i <= |sent| ensures SentOne(content, ranges[i], (sent + [more])[i], full) {
      if i < |sent| { assert sent[i] == (sent + [more])[i]; }
    }
  }

  /** One more part behind those that were written. */
  lemma WrittenMore(before: seq<byte>, ranges: seq<ByteRange>, sent: seq<seq<byte>>,
                    boundary: string, contentType: Option<string>, more: seq<byte>)
    requires |sent| < |ranges|
    ensures before + PartsOf(ranges[..|sent|], sent, boundary, contentType) +
              (PartHeader(ranges[|sent|], boundary, contentType) + more) ==
            before + PartsOf(ranges[..|sent| + 1], sent + [more], boundary, contentType)
  {
    PartsMore(ranges, sent, boundary, contentType, more);
    Assoc(before, PartsOf(ranges[..|sent|], sent, boundary, contentType),
          PartHeader(ranges[|sent|], boundary, contentType) + more);
  }

  method CopyPart(content: seq<byte>, full: bool, ostream: OutputStream, r: ByteRange,
                  boundary: string, contentType: Option<string>, input: nat)
    returns (end: CopyEnd, ghost sent: seq<byte>)
    requires Servable(r) && r.length == |content| && input > 0
    modifies ostream
    ensures ostream.written == old(ostream.written) + (PartHeader(r, boundary, contentType) + sent)
    ensures SentOne(content, r, sent, full)
    ensures end != NegativeWrite && (full ==> end == Done)
  {
    var istream := new InputStream(content, full);
    var header := PartHeader(r, boundary, contentType);
    ostream.Append(header);
    end, sent := CopyRange(istream, ostream, r.start, r.end, input);
  }

  function Trailer(boundary: string): seq<byte> {
    Line("") + Encode("--" + boundary + "--")
  }

  /** The loop of the multi-range form of copy; every range reads the content from its start. */
  method CopyParts(content: seq<byte>, full: bool, ostream: OutputStream, ranges: seq<ByteRange>,
                   boundary: string, contentType: Option<string>, input: nat)
    returns (r: CopyEnd, ghost sent: seq<seq<byte>>)
    requires AllServable(ranges, content) && input > 0
    modifies ostream
    ensures SentFor(content, ranges, sent, full)
    ensures ostream.written == old(ostream.written) + PartsOf(ranges[..|sent|], sent, boundary, contentType)
    ensures r != NegativeWrite && (full ==> r == Done) && (r == Done ==> |sent| == |ranges|)
  {
    r, sent := Done, [];
    var i := 0;
    while r == Done && i < |ranges|
      invariant 0 <= i <= |ranges| && i == |sent| && r != NegativeWrite && (full ==> r == Done)
      invariant SentFor(content, ranges, sent, full)
      invariant ostream.written == old(ostream.written) + PartsOf(ranges[..i], sent, boundary, contentType)
      decreases |ranges| - i
    {
      assert ranges[i] in ranges;
      ghost var one;
      r, one := CopyPart(content, full, ostream, ranges[i], boundary, contentType, input);
      WrittenMore(old(ostream.written), ranges, sent, boundary, contentType, one);
      SentMore(content, ranges, sent, full, one);
      sent := sent + [one];
      i := i + 1;
    }
  }

  /** The multi-range form of copy: the parts, as far as they came, and the closing boundary. */
  method CopyRanges(content: seq<byte>, full: bool, ostream: OutputStream, ranges: seq<ByteRange>,
                    boundary: string, contentType: Option<string>, input: nat)
    returns (r: CopyEnd, ghost sent: seq<seq<byte>>)
    requires AllServable(ranges, content) && input > 0
    modifies ostream
    ensures SentFor(content, ranges, sent, full)
    ensures ostream.written ==
              old(ostream.written) + (PartsOf(ranges[..|sent|], sent, boundary, contentType) + Trailer(boundary))
    ensures r != NegativeWrite && (full ==> r == Done) && (r == Done ==> |sent| == |ranges|)
  {
    r, sent := CopyParts(content, full, ostream, ranges, boundary, contentType, input);
    ostream.Append(Trailer(boundary));
    Assoc(old(ostream.written), PartsOf(ranges[..|sent|], sent, boundary, contentType), Trailer(boundary));
  }

  /** The ranges follow each other from p on and end at l. */
  ghost predicate PartitionFrom(ranges: seq<ByteRange>, p: nat, l: nat)
    decreases |ranges|
  {
    if ranges == [] then p == l
    else ranges[0].start == p <= ranges[0].end < l && PartitionFrom(ranges[1..], ranges[0].end + 1, l)
  }

  /** One answer after the other to requests whose ranges partition the content: together they are the content. */
  method Download(content: seq<byte>, ostream: OutputStream, ranges: seq<ByteRange>, input: nat)
    requires AllServable(ranges, content) && PartitionFrom(ranges, 0, |content|) && input > 0
    modifies ostream
    ensures ostream.written == old(ostream.written) + content
  {
    var i := 0;
    ghost var p: nat := 0;
    assert ranges[0..] == ranges;
    while i < |ranges|
      invariant 0 <= i <= |ranges| && p <= |content| && PartitionFrom(ranges[i..], p, |content|)
      invariant ostream.written == old(ostream.written) + content[..p]
    {
      var r := ranges[i];
      assert r in ranges && ranges[i..][1..] == ranges[i + 1..];
      var istream := new InputStream(content, true);
      var end, sent := CopyRange(istream, ostream, r.start, r.end, input);
      Assoc(old(ostream.written), content[..p], sent);
      SliceMore(content, 0, p, r.end + 1 - p);
      p := r.end + 1;
      i := i + 1;
    }
    assert content[..p] == content;
  }
}
