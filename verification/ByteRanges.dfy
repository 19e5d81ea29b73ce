/** Range and Content-Range headers (CaimitoDefaultServlet: parseRange, parseContentRange, Range). */
module ByteRanges {
  import opened Basics
  import opened HttpText
  import opened Validators

  datatype ByteRange = ByteRange(start: int, end: int, length: int)

  /** A range that can be served: bytes start to end of a content of this length. */
  predicate Servable(r: ByteRange) {
    0 <= r.start <= r.end < r.length && IsLong(r.length)
  }

  class Range {
    var start: int
    var end: int
    var length: int

    constructor ()
      ensures start == 0 && end == 0 && length == 0
    {
      start, end, length := 0, 0, 0;
    }

    method Validate() returns (ok: bool)
      modifies this`end
      ensures end == if old(end) < length then old(end) else Long(length - 1)
      ensures IsLong(length) ==> (ok <==> 0 <= start <= end < length)
    {
      if end >= length {
        end := Long(length - 1);
      }
      ok := start >= 0 && end >= 0 && start <= end && length > 0;
    }
  }

  /** The part of a range that is within the content. */
  function Validated(r: ByteRange): Option<ByteRange> {
    var c := if r.end < r.length then r else r.(end := Long(r.length - 1));
    if 0 <= c.start <= c.end < c.length then Some(c) else None
  }

  // ---- The Range header ----

  datatype RangeOutcome =
    | Full                            // FULL: the If-Range condition fails
    | NoRange                         // null, nothing answered
    | NotSatisfiable                  // null, after a 416
    | Failed                          // an exception
    | Partial(ranges: seq<ByteRange>)

  /** A trimmed range definition, cut at its first dash. */
  datatype Form = Dashless | Tail(offset: string) | Bounded(first: string, last: string)

  function FormOf(def: string): Form {
    var dashPos := IndexOf(def, '-');
    if dashPos == -1 then Dashless
    else if dashPos == 0 then Tail(def)
    else Bounded(def[..dashPos], def[dashPos + 1..])
  }

  /** The range of a form for a content of length l, in 64-bit arithmetic. */
  function RangeOfForm(f: Form, l: int): Option<ByteRange> {
    match f
    case Dashless => None
    case Tail(offset) => FromEnd(ParseLong(offset), l)
    case Bounded(first, last) => Within(ParseLong(first), if last == "" then Some(Long(l - 1)) else ParseLong(last), l)
  }

  function FromEnd(offset: Option<int>, l: int): Option<ByteRange> {
    if offset.None? then None else Validated(ByteRange(Long(l + offset.value), Long(l - 1), l))
  }

  function Within(start: Option<int>, end: Option<int>, l: int): Option<ByteRange> {
    if start.None? || end.None? then None else Validated(ByteRange(start.value, end.value, l))
  }

  function Definition(def: string, l: int): Option<ByteRange> {
    RangeOfForm(FormOf(def), l)
  }

  function Definitions(defs: seq<string>, l: int): Option<seq<ByteRange>> {
    if defs == [] then Some([])
    else
      Both(Definition(Trim(defs[0]), l), Definitions(defs[1..], l))
  }

  function Both(r: Option<ByteRange>, rest: Option<seq<ByteRange>>): Option<seq<ByteRange>> {
    if r.Some? && rest.Some? then Some([r.value] + rest.value) else None
  }

  /** The header fields that parseRange reads; the date is -1 if If-Range is no date. */
  datatype RangeRequest = RangeRequest(range: Option<string>, ifRange: Option<string>, ifRangeDate: int)

  /** The client holds another version than r: another tag, or a date more than a second before r. */
  ghost predicate Outdated(req: RangeRequest, r: Resource) {
    req.ifRange.Some? &&
    if req.ifRangeDate == -1 then ETag(r).Some? && !Padded(req.ifRange.value, ETag(r).value)
    else r.lastModified > Long(req.ifRangeDate + 1000)
  }

  /** An entity tag to compare, and none to compare it with. */
  predicate NullTag(req: RangeRequest, r: Resource) {
    req.ifRange.Some? && req.ifRangeDate == -1 && ETag(r).None?
  }

  /** If-Range with the tag of a version gives the full content exactly if that version is not current. */
  lemma IfRangeEcho(text: string, was: Resource, r: Resource, range: Option<string>)
    requires IsTag(text, was)
    ensures ETag(r).Some? ==> (Outdated(RangeRequest(range, Some(text), -1), r) <==> r != was)
  {
    TagOnly(text, was, r);
  }

  /** If-Range with the date of a version: the full content exactly if a later second and one more have begun. */
  lemma IfRangeDateEcho(text: string, was: nat, r: Resource, range: Option<string>)
    requires IsLong(was + 1000)
    ensures Outdated(RangeRequest(range, Some(text), Seconds(was)), r) <==> r.lastModified > was / 1000 * 1000 + 1000
  {
    LongFits(Seconds(was) + 1000);
  }

  method ParseDefinition(rangeDefinition: string, fileLength: int) returns (r: Option<ByteRange>)
    requires IsLong(fileLength)
    ensures r == Definition(rangeDefinition, fileLength)
  {
    var currentRange := new Range();
    currentRange.length := fileLength;
    var dashPos := IndexOf(rangeDefinition, '-');
    if dashPos == -1 {
      return None;
    }
    if dashPos == 0 {
      var offset := ParseLong(rangeDefinition);
      if offset.None? {
        return None;
      }
      currentRange.start := Long(fileLength + offset.value);
      currentRange.end := Long(fileLength - 1);
    } else {
      var start := ParseLong(rangeDefinition[..dashPos]);
      if start.None? {
        return None;
      }
      currentRange.start := start.value;
      if dashPos < |rangeDefinition| - 1 {
        var end := ParseLong(rangeDefinition[dashPos + 1..]);
        if end.None? {
          return None;
        }
        currentRange.end := end.value;
      } else {
        currentRange.end := Long(fileLength - 1);
      }
    }
    var ok := currentRange.Validate();
    if !ok {
      return None;
    }
    return Some(ByteRange(currentRange.start, currentRange.end, currentRange.length));
  }

  ghost function Prepend(done: seq<ByteRange>, rest: Option<seq<ByteRange>>): Option<seq<ByteRange>> {
    if rest.Some? then Some(done + rest.value) else None
  }

  lemma PrependNone(rest: Option<seq<ByteRange>>)
    ensures Prepend([], rest) == rest
  {
    if rest.Some? { assert [] + rest.value == rest.value; }
  }

  lemma PrependMore(done: seq<ByteRange>, r: ByteRange, rest: Option<seq<ByteRange>>)
    ensures Prepend(done, if rest.Some? then Some([r] + rest.value) else None) == Prepend(done + [r], rest)
  {
    if rest.Some? { assert done + ([r] + rest.value) == (done + [r]) + rest.value; }
  }

  /** The token loop: every definition in order, or nothing once one is refused. */
  method ParseDefinitions(tokens: seq<string>, fileLength: int) returns (list: Option<seq<ByteRange>>)
    requires IsLong(fileLength)
    ensures list == Definitions(tokens, fileLength)
  {
    var result: seq<ByteRange> := [];
    var i := 0;
    assert tokens[0..] == tokens;
    PrependNone(Definitions(tokens, fileLength));
    while i < |tokens|
      invariant 0 <= i <= |tokens|
      invariant Definitions(tokens, fileLength) == Prepend(result, Definitions(tokens[i..], fileLength))
    {
      assert tokens[i..][1..] == tokens[i + 1..];
      var r := ParseDefinition(Trim(tokens[i]), fileLength);
      if r.None? {
        return None;
      }
      PrependMore(result, r.value, Definitions(tokens[i + 1..], fileLength));
      result := result + [r.value];
      i := i + 1;
    }
    assert result + [] == result;
    return Some(result);
  }

  method ParseRange(req: RangeRequest, r: Resource) returns (o: RangeOutcome)
    requires IsLong(r.contentLength)
    ensures o.Full? <==> Outdated(req, r)
    ensures NullTag(req, r) ==> o == Failed
    ensures !NullTag(req, r) && !Outdated(req, r) ==>
      if r.contentLength == 0 || req.range.None? then o == NoRange
      else if !("bytes" <= req.range.value) then o == NotSatisfiable
      else if req.range.value == "bytes" then o == Failed
      else
        match Definitions(Tokens(req.range.value[6..]), r.contentLength)
        case Some(list) => o == Partial(list)
        case None => o == NotSatisfiable
  {
    if req.ifRange.Some? {
      var eTag := ETag(r);
      if req.ifRangeDate == -1 {
        if eTag.None? {
          return Failed;
        }
        TagTight(r);
        TrimPadded(req.ifRange.value, eTag.value);
        if eTag.value != Trim(req.ifRange.value) {
          return Full;
        }
      } else {
        if r.lastModified > Long(req.ifRangeDate + 1000) {
          return Full;
        }
      }
    }
    var fileLength := r.contentLength;
    if fileLength == 0 || req.range.None? {
      return NoRange;
    }
    var rangeHeader := req.range.value;
    if !("bytes" <= rangeHeader) {
      return NotSatisfiable;
    }
    if |rangeHeader| < 6 {
      assert rangeHeader == "bytes";
      return Failed;
    }
    var list := ParseDefinitions(Tokens(rangeHeader[6..]), fileLength);
    return if list.Some? then Partial(list.value) else NotSatisfiable;
  }

  // ---- What a list means ----

  /** The three forms of section 2.1 of RFC 7233. */
  datatype RangeSpec = FromTo(first: nat, last: nat) | From(first: nat) | Suffix(n: nat)

  function Text(s: RangeSpec): string {
    match s
    case FromTo(a, b) => Print(a) + "-" + Print(b)
    case From(a) => Print(a) + "-"
    case Suffix(n) => "-" + Print(n)
  }

  /**
   * The bytes that a form asks for. The code differs from the RFC in two places: a suffix
   * longer than the content is refused, and so is a number beyond 64 bits.
   */
  function Resolve(s: RangeSpec, l: int): Option<ByteRange> {
    match s
    case FromTo(a, b) =>
      if a <= b && a < l && b <= MAX_LONG then Some(ByteRange(a, if b < l then b else l - 1, l)) else None
    case From(a) => if a < l then Some(ByteRange(a, l - 1, l)) else None
    case Suffix(n) => if 1 <= n <= l then Some(ByteRange(l - n, l - 1, l)) else None
  }

  predicate Number(d: string) {
    d != "" && AllDigits(d)
  }

  lemma FormBounded(a: string, b: string)
    requires Number(a)
    ensures FormOf(a + "-" + b) == Bounded(a, b)
  {
    DashFirst(a, b);
    var def := a + "-" + b;
    assert def[..|a|] == a && def[|a| + 1..] == b;
  }

  lemma DefinitionFromTo(a: string, b: string, l: int)
    requires Number(a) && Number(b) && 0 < l <= MAX_LONG
    ensures Definition(a + "-" + b, l) == Resolve(FromTo(ValueOf(a), ValueOf(b)), l)
  {
    FormBounded(a, b);
    ParseDigits(a);
    ParseDigits(b);
    ResolveFromTo(ValueOf(a), ValueOf(b), l);
  }

  lemma ResolveFromTo(a: nat, b: nat, l: int)
    requires 0 < l <= MAX_LONG
    ensures Within(Ranged(a), Ranged(b), l) == Resolve(FromTo(a, b), l)
  {
  }

  lemma ResolveFrom(a: nat, l: int)
    requires 0 < l <= MAX_LONG
    ensures Within(Ranged(a), Some(Long(l - 1)), l) == Resolve(From(a), l)
  {
    LongFits(l - 1);
  }

  lemma ResolveSuffix(n: nat, l: int)
    requires 0 < l <= MAX_LONG
    ensures FromEnd(Ranged(0 - n), l) == Resolve(Suffix(n), l)
  {
    LongFits(l - 1);
    if IsLong(0 - n) { LongFits(l - n); }
  }

  lemma DefinitionFrom(a: string, l: int)
    requires Number(a) && 0 < l <= MAX_LONG
    ensures Definition(a + "-", l) == Resolve(From(ValueOf(a)), l)
  {
    FormBounded(a, "");
    assert a + "-" + "" == a + "-";
    ParseDigits(a);
    ResolveFrom(ValueOf(a), l);
  }

  lemma DefinitionSuffix(n: string, l: int)
    requires Number(n) && 0 < l <= MAX_LONG
    ensures Definition("-" + n, l) == Resolve(Suffix(ValueOf(n)), l)
  {
    assert ("-" + n)[0] == '-';
    assert FormOf("-" + n) == Tail("-" + n);
    ParseDigits(n);
    ResolveSuffix(ValueOf(n), l);
  }

  /** parseRange reads a form as what it means. */
  lemma DefinitionMeaning(s: RangeSpec, l: int)
    requires 0 < l <= MAX_LONG
    ensures Definition(Text(s), l) == Resolve(s, l)
  {
    match s
    case FromTo(a, b) =>
      PrintDigits(a);
      PrintDigits(b);
      DefinitionFromTo(PrintNat(a), PrintNat(b), l);
    case From(a) =>
      PrintDigits(a);
      DefinitionFrom(PrintNat(a), l);
    case Suffix(n) =>
      PrintDigits(n);
      DefinitionSuffix(PrintNat(n), l);
  }

  function Texts(specs: seq<RangeSpec>): seq<string> {
    if specs == [] then [] else [Text(specs[0])] + Texts(specs[1..])
  }

  lemma TextItem(s: RangeSpec)
    ensures Item(Text(s)) && Tight(Text(s))
  {
    match s
    case FromTo(a, b) => PrintDigits(a); PrintDigits(b); PlainItem(PrintNat(a), "-", PrintNat(b));
    case From(a) => PrintDigits(a); PlainItem(PrintNat(a), "-", ""); assert PrintNat(a) + "-" + "" == Text(s);
    case Suffix(n) => PrintDigits(n); PlainItem("", "-", PrintNat(n));
    assert Text(s) == match s case FromTo(a, b) => PrintNat(a) + "-" + PrintNat(b)
                              case From(a) => PrintNat(a) + "-" + ""
                              case Suffix(n) => "" + "-" + PrintNat(n);
  }

  lemma PlainItem(a: string, dash: string, b: string)
    requires AllDigits(a) && AllDigits(b) && dash == "-"
    ensures Item(a + dash + b) && Tight(a + dash + b)
  {
    var t := a + dash + b;
    forall i | 0 <= i < |t| ensures t[i] == '-' || IsDigit(t[i]) {
      assert if i < |a| then IsDigit(a[i]) else i > |a| ==> IsDigit(b[i - |a| - 1]);
    }
    assert t[|a|] == '-';
  }

  /** Every form in order, or nothing if one of them asks for no bytes. */
  function ResolveAll(specs: seq<RangeSpec>, l: int): Option<seq<ByteRange>> {
    if specs == [] then Some([])
    else
      Both(Resolve(specs[0], l), ResolveAll(specs[1..], l))
  }

  predicate Resolvable(specs: seq<RangeSpec>, l: int) {
    forall i {:trigger specs[i]} :: 0 <= i < |specs| ==> Resolve(specs[i], l).Some?
  }

  predicate AsResolved(specs: seq<RangeSpec>, list: seq<ByteRange>, l: int) {
    && |list| == |specs|
    && forall i :: 0 <= i < |specs| ==> Resolve(specs[i], l) == Some(list[i])
  }

  lemma {:induction false} ResolvableAll(specs: seq<RangeSpec>, l: int)
    ensures ResolveAll(specs, l).Some? <==> Resolvable(specs, l)
    decreases |specs|
  {
    if specs != [] {
      ResolvableAll(specs[1..], l);
      assert forall i {:trigger specs[i]} :: 0 < i < |specs| ==> specs[i] == specs[1..][i - 1];
    }
  }

  lemma {:induction false} ResolvedEach(specs: seq<RangeSpec>, l: int, i: nat)
    requires ResolveAll(specs, l).Some?
    ensures |ResolveAll(specs, l).value| == |specs|
    ensures i < |specs| ==> Resolve(specs[i], l) == Some(ResolveAll(specs, l).value[i])
    decreases |specs|
  {
    if specs != [] {
      ResolvedEach(specs[1..], l, if i == 0 then 0 else i - 1);
    }
  }

  /** Each item is the text of the form beside it, with blanks around it. */
  ghost predicate Written(items: seq<string>, specs: seq<RangeSpec>) {
    && |items| == |specs|
    && forall i {:trigger items[i]} :: 0 <= i < |items| ==> Padded(items[i], Text(specs[i]))
  }

  lemma WrittenItem(item: string, s: RangeSpec)
    requires Padded(item, Text(s))
    ensures Item(item) && Trim(item) == Text(s)
  {
    TextItem(s);
    PaddedKeeps(item, Text(s), ',');
    TrimPadded(item, Text(s));
  }

  lemma WrittenItems(items: seq<string>, specs: seq<RangeSpec>)
    requires Written(items, specs)
    ensures forall i :: 0 <= i < |items| ==> Item(items[i])
  {
    forall i | 0 <= i < |items| ensures Item(items[i]) {
      WrittenItem(items[i], specs[i]);
    }
  }

  lemma {:induction false} DefinitionsMeaning(items: seq<string>, specs: seq<RangeSpec>, l: int)
    requires 0 < l <= MAX_LONG && Written(items, specs)
    ensures Definitions(items, l) == ResolveAll(specs, l)
    decreases |specs|
  {
    if specs != [] {
      WrittenItem(items[0], specs[0]);
      DefinitionMeaning(specs[0], l);
      WrittenRest(items, specs);
      DefinitionsMeaning(items[1..], specs[1..], l);
    }
  }

  lemma WrittenRest(items: seq<string>, specs: seq<RangeSpec>)
    requires Written(items, specs) && specs != []
    ensures Written(items[1..], specs[1..])
  {
    var rest := items[1..];
    forall i {:trigger rest[i]} | 0 <= i < |rest| ensures Padded(rest[i], Text(specs[1..][i])) {
      assert rest[i] == items[i + 1];
    }
  }

  /**
   * Every list of forms with any blanks around them, written as a header: one range per form, in
   * order, each as the form says; one that cannot be satisfied refuses the whole header.
   */
  lemma HeaderMeaning(items: seq<string>, specs: seq<RangeSpec>, l: int)
    requires 0 < l <= MAX_LONG && Written(items, specs)
    ensures var list := Definitions(Tokens(("bytes=" + Join(items))[6..]), l);
      (list.Some? <==> Resolvable(specs, l)) && (list.Some? ==> AsResolved(specs, list.value, l))
  {
    assert ("bytes=" + Join(items))[6..] == Join(items);
    WrittenItems(items, specs);
    TokensJoin(items);
    DefinitionsMeaning(items, specs, l);
    ResolvableAll(specs, l);
    if Resolvable(specs, l) {
      forall i: nat { ResolvedEach(specs, l, i); }
    }
  }

  // ---- What a definition asks for, whatever it says ----

  /** r is what def asks for: a dash and a number, or a number, a dash, and nothing or a number. */
  ghost predicate Asks(def: string, l: int, r: ByteRange) {
    && r.length == l && 0 <= r.start <= r.end < l
    && (AsksTail(def, l, r) || exists first, last :: AsksBounds(def, first, last, l, r))
  }

  predicate AsksTail(def: string, l: int, r: ByteRange) {
    "-" <= def && ParseLong(def) == Some(r.start - l) && r.end == l - 1
  }

  predicate AsksBounds(def: string, first: string, last: string, l: int, r: ByteRange) {
    && def == first + "-" + last && first != "" && '-' !in first
    && ParseLong(first) == Some(r.start)
    && if last == "" then r.end == l - 1
       else ParseLong(last).Some? && r.end == if ParseLong(last).value < l then ParseLong(last).value else l - 1
  }

  lemma FormIs(def: string)
    ensures FormOf(def) == Dashless <==> '-' !in def
    ensures forall t :: FormOf(def) == Tail(t) <==> t == def && "-" <= def
    ensures forall a, b :: FormOf(def) == Bounded(a, b) <==> def == a + "-" + b && a != "" && '-' !in a
  {
    var d := IndexOf(def, '-');
    if d > 0 {
      assert def == def[..d] + "-" + def[d + 1..];
    }
    forall a: string, b | def == a + "-" + b && a != "" && '-' !in a ensures FormOf(def) == Bounded(a, b) {
      IndexOfFirst(a, '-', b);
      assert def[..|a|] == a && def[|a| + 1..] == b;
    }
  }

  /** A definition gives a range exactly if it asks for it. */
  lemma DefinitionIff(def: string, l: int, r: ByteRange)
    requires IsLong(l)
    ensures Definition(def, l) == Some(r) <==> Asks(def, l, r)
  {
    FormIs(def);
    match FormOf(def)
    case Dashless =>
    case Tail(offset) =>
      NotPositive(def);
      FromEndIff(ParseLong(def), l, r);
    case Bounded(first, last) =>
      WithinIff(first, last, l, r);
      assert Definition(def, l) == Some(r) ==> AsksBounds(def, first, last, l, r);
      if Asks(def, l, r) {
        assert FormOf(def) != Tail(def);
        var a, b :| AsksBounds(def, a, b, l, r);
        assert FormOf(def) == Bounded(a, b);
      }
  }

  lemma FromEndIff(offset: Option<int>, l: int, r: ByteRange)
    requires IsLong(l) && (offset.Some? ==> MIN_LONG <= offset.value <= 0)
    ensures FromEnd(offset, l) == Some(r) <==>
      r.length == l && 0 <= r.start <= r.end < l && offset == Some(r.start - l) && r.end == l - 1
  {
  }

  lemma WithinIff(first: string, last: string, l: int, r: ByteRange)
    requires IsLong(l)
    ensures RangeOfForm(Bounded(first, last), l) == Some(r) <==>
      && r.length == l && 0 <= r.start <= r.end < l
      && ParseLong(first) == Some(r.start)
      && if last == "" then r.end == l - 1
         else ParseLong(last).Some? && r.end == if ParseLong(last).value < l then ParseLong(last).value else l - 1
  {
  }

  /**
   * Whatever the header says: the list is the result exactly if it holds one range per token, in
   * order, which the trimmed token asks for.
   */
  lemma {:induction false} DefinitionsIff(defs: seq<string>, l: int, list: seq<ByteRange>)
    requires IsLong(l)
    ensures Definitions(defs, l) == Some(list) <==>
      |list| == |defs| && forall i {:trigger list[i]} :: 0 <= i < |defs| ==> Asks(Trim(defs[i]), l, list[i])
    decreases |defs|
  {
    if defs != [] && list != [] {
      assert list == [list[0]] + list[1..];
      DefinitionIff(Trim(defs[0]), l, list[0]);
      DefinitionsIff(defs[1..], l, list[1..]);
      assert forall i {:trigger list[i]} :: 0 < i < |list| ==> list[i] == list[1..][i - 1];
      assert forall i {:trigger list[1..][i]} :: 0 <= i < |list| - 1 ==> list[1..][i] == list[i + 1];
    }
  }

  /** No 64-bit overflow: neither in length + offset nor in end - start + 1. */
  lemma NoOverflow(def: string, l: int)
    requires 0 < l <= MAX_LONG
    ensures IndexOf(def, '-') == 0 && ParseLong(def).Some? ==> IsLong(l + ParseLong(def).value)
    ensures Definition(def, l).Some? ==>
              var r := Definition(def, l).value; 1 <= r.end - r.start + 1 <= l && IsLong(r.end - r.start + 1)
  {
    if IndexOf(def, '-') == 0 { NotPositive(def); }
  }

  /** What starts with a dash is no positive number. */
  lemma NotPositive(def: string)
    requires def != "" && def[0] == '-'
    ensures ParseLong(def).Some? ==> MIN_LONG <= ParseLong(def).value <= 0
  {
  }

  // ---- The Content-Range header ----

  /** The text that serveResource prints. */
  function ContentRange(r: ByteRange): string {
    "bytes " + RangeText(Print(r.start), Print(r.end), Print(r.length))
  }

  function RangeText(start: string, end: string, length: string): string {
    start + "-" + end + "/" + length
  }

  datatype ContentRangeOutcome = Absent | BadRequest | Crash | Parsed(range: ByteRange)

  method ParseContentRange(header: Option<string>) returns (o: ContentRangeOutcome)
    ensures o == ContentRangeOf(header)
    ensures o == Absent <==> header.None?
    ensures o == Crash <==> header == Some("bytes")
    ensures forall r :: o == Parsed(r) <==> HeaderReads(header, r)
    ensures o.Parsed? ==> Servable(o.range)
  {
    ContentRangeMeaning(header);
    if header.None? {
      return Absent;
    }
    var rangeHeader := header.value;
    if !("bytes" <= rangeHeader) {
      return BadRequest;
    }
    if |rangeHeader| < 6 {
      return Crash;
    }
    o := ParseFields(Trim(rangeHeader[6..]));
  }

  /** parseContentRange from the two searches on. */
  method ParseFields(rangeHeader: string) returns (o: ContentRangeOutcome)
    ensures o == RangeOf(rangeHeader)
  {
    var dashPos := IndexOf(rangeHeader, '-');
    var slashPos := IndexOf(rangeHeader, '/');
    if dashPos == -1 {
      return BadRequest;
    }
    if slashPos == -1 {
      return BadRequest;
    }
    var range := new Range();
    var start := ParseLong(rangeHeader[..dashPos]);
    if start.None? {
      return BadRequest;
    }
    if slashPos < dashPos + 1 {
      return Crash;
    }
    assert CutOf(rangeHeader) ==
           Fields(rangeHeader[..dashPos], rangeHeader[dashPos + 1..slashPos], rangeHeader[slashPos + 1..]);
    var end := ParseLong(rangeHeader[dashPos + 1..slashPos]);
    if end.None? {
      return BadRequest;
    }
    var length := ParseLong(rangeHeader[slashPos + 1..]);
    if length.None? {
      return BadRequest;
    }
    range.start, range.end, range.length := start.value, end.value, length.value;
    var ok := range.Validate();
    if !ok {
      return BadRequest;
    }
    return Parsed(ByteRange(range.start, range.end, range.length));
  }

  function ContentRangeOf(header: Option<string>): ContentRangeOutcome {
    if header.None? then Absent
    else if !("bytes" <= header.value) then BadRequest
    else if |header.value| < 6 then Crash
    else RangeOf(Trim(header.value[6..]))
  }

  /** The text cut at its first dash and its first slash. */
  datatype Cut = Missing | Crossed(first: string) | Fields(first: string, last: string, total: string)

  function CutOf(h: string): Cut {
    var dashPos, slashPos := IndexOf(h, '-'), IndexOf(h, '/');
    if dashPos == -1 || slashPos == -1 then Missing
    else if slashPos < dashPos + 1 then Crossed(h[..dashPos])
    else Fields(h[..dashPos], h[dashPos + 1..slashPos], h[slashPos + 1..])
  }

  function RangeOf(h: string): ContentRangeOutcome {
    match CutOf(h)
    case Missing => BadRequest
    case Crossed(first) => if ParseLong(first).None? then BadRequest else Crash
    case Fields(first, last, total) => Bounds(first, last, total)
  }

  function Bounds(first: string, last: string, total: string): ContentRangeOutcome {
    var start, end, length := ParseLong(first), ParseLong(last), ParseLong(total);
    if start.None? || end.None? || length.None? then BadRequest
    else
      var r := Validated(ByteRange(start.value, end.value, length.value));
      if r.Some? then Parsed(r.value) else BadRequest
  }

  // ---- What a Content-Range header is parsed to ----

  /** first-last/total with three longs; last is cut to the content. */
  predicate ReadsAs(h: string, first: string, last: string, total: string, r: ByteRange) {
    h == first + "-" + last + "/" + total && '-' !in first && '/' !in last && LongsOf(first, last, total, r)
  }

  predicate LongsOf(first: string, last: string, total: string, r: ByteRange) {
    var start, end, length := ParseLong(first), ParseLong(last), ParseLong(total);
    start.Some? && end.Some? && length.Some? &&
    0 <= start.value <= end.value && start.value < length.value &&
    r == ByteRange(start.value, if end.value < length.value then end.value else length.value - 1, length.value)
  }

  ghost predicate Reads(h: string, r: ByteRange) {
    exists first, last, total :: ReadsAs(h, first, last, total, r)
  }

  /** The word, any one character, blanks, the three fields, blanks. */
  ghost predicate HeaderReads(header: Option<string>, r: ByteRange) {
    header.Some? && "bytes" <= header.value && |header.value| >= 6 &&
    exists h :: Padded(header.value[6..], h) && Reads(h, r)
  }

  lemma LongText(s: string)
    requires ParseLong(s).Some?
    ensures '/' !in s && Tight(s)
  {
    var sign, digits := ParsedText(s);
  }

  /** The cut at the first dash and the first slash finds the three fields. */
  lemma CutFields(h: string, first: string, last: string, total: string)
    ensures CutOf(h) == Fields(first, last, total) <==>
            h == RangeText(first, last, total) && '-' !in first && '/' !in first && '/' !in last
  {
    if CutOf(h) == Fields(first, last, total) {
      CutJoin(h, IndexOf(h, '-'), IndexOf(h, '/'));
    }
    if h == RangeText(first, last, total) && '-' !in first && '/' !in first && '/' !in last {
      FieldsCut(first, last, total);
    }
  }

  /** Cutting at two characters and joining again. */
  lemma CutJoin(h: string, d: nat, s: nat)
    requires d < s < |h| && h[d] == '-' && h[s] == '/'
    requires (forall j :: 0 <= j < d ==> h[j] != '-') && (forall j :: 0 <= j < s ==> h[j] != '/')
    ensures h == RangeText(h[..d], h[d + 1..s], h[s + 1..])
    ensures '-' !in h[..d] && '/' !in h[..d] && '/' !in h[d + 1..s]
  {
  }

  lemma FieldsCut(a: string, b: string, c: string)
    requires '-' !in a && '/' !in a && '/' !in b
    ensures CutOf(RangeText(a, b, c)) == Fields(a, b, c)
  {
    var h := RangeText(a, b, c);
    assert h[..|a|] == a && h[|a|] == '-';
    IndexOfIs(h, '-', |a|);
    assert h[..|a| + 1 + |b|] == a + "-" + b;
    IndexOfIs(h, '/', |a| + 1 + |b|);
    assert h[|a| + 1..|a| + 1 + |b|] == b && h[|a| + 1 + |b| + 1..] == c;
  }

  lemma BoundsMeaning(first: string, last: string, total: string, r: ByteRange)
    ensures Bounds(first, last, total) == Parsed(r) <==> LongsOf(first, last, total, r)
    ensures Bounds(first, last, total) != Crash
  {
  }

  /** It parses exactly if the three fields are there; a slash before the dash is never a number in front of it. */
  lemma RangeMeaning(h: string, r: ByteRange)
    ensures RangeOf(h) == Parsed(r) <==> Reads(h, r)
    ensures RangeOf(h) != Crash
  {
    match CutOf(h) {
      case Missing =>
      case Crossed(first) =>
        var s := IndexOf(h, '/');
        assert first[s] == '/';
        if ParseLong(first).Some? { LongText(first); }
      case Fields(first, last, total) =>
        CutFields(h, first, last, total);
        BoundsMeaning(first, last, total, r);
        assert RangeOf(h) == Parsed(r) ==> ReadsAs(h, first, last, total, r);
    }
    if Reads(h, r) {
      var first, last, total :| ReadsAs(h, first, last, total, r);
      LongText(first);
      CutFields(h, first, last, total);
      BoundsMeaning(first, last, total, r);
    }
  }

  lemma ReadsTight(h: string, r: ByteRange)
    requires Reads(h, r)
    ensures Tight(h)
  {
    var first, last, total :| ReadsAs(h, first, last, total, r);
    LongText(first);
    LongText(total);
    assert h[0] == first[0] && h[|h| - 1] == total[|total| - 1];
  }

  /** Trimming leaves the fields. */
  lemma ReadsTrimmed(t: string, r: ByteRange)
    ensures Reads(Trim(t), r) <==> exists h :: Padded(t, h) && Reads(h, r)
  {
    if Reads(Trim(t), r) {
      ReadsTight(Trim(t), r);
      TrimPadded(t, Trim(t));
    }
    if h :| Padded(t, h) && Reads(h, r) {
      ReadsTight(h, r);
      TrimPadded(t, h);
    }
  }

  lemma ContentRangeMeaning(header: Option<string>)
    ensures forall r :: ContentRangeOf(header) == Parsed(r) <==> HeaderReads(header, r)
    ensures forall r :: HeaderReads(header, r) ==> Servable(r)
    ensures ContentRangeOf(header) == Crash <==> header == Some("bytes")
  {
    if header.Some? && "bytes" <= header.value && |header.value| >= 6 {
      var t := header.value[6..];
      forall r: ByteRange ensures RangeOf(Trim(t)) == Parsed(r) <==> HeaderReads(header, r) {
        RangeMeaning(Trim(t), r);
        ReadsTrimmed(t, r);
      }
      RangeMeaning(Trim(t), ByteRange(0, 0, 0));
    } else if header.Some? && "bytes" <= header.value {
      assert header.value == "bytes";
    }
    forall r | HeaderReads(header, r) ensures Servable(r) {
      var h :| Padded(header.value[6..], h) && Reads(h, r);
      var first, last, total :| ReadsAs(h, first, last, total, r);
    }
  }

  lemma RangeTextParts(a: string, b: string, c: string)
    requires Number(a) && Number(b) && Number(c)
    ensures var h := RangeText(a, b, c);
      Trim(h) == h && CutOf(h) == Fields(a, b, c)
  {
    RangeTextTrim(a, b, c);
    NoOther(a, '-');
    NoOther(a, '/');
    NoOther(b, '/');
    FieldsCut(a, b, c);
  }

  lemma RangeTextTrim(a: string, b: string, c: string)
    requires Number(a) && Number(c)
    ensures Trim(RangeText(a, b, c)) == RangeText(a, b, c)
  {
    var h := RangeText(a, b, c);
    assert IsDigit(a[0]) && IsDigit(c[|c| - 1]);
    assert h[0] == a[0] && h[|h| - 1] == c[|c| - 1];
    TrimNothing(h);
  }

  lemma BoundsServable(a: string, b: string, c: string, r: ByteRange)
    requires Servable(r)
    requires ParseLong(a) == Some(r.start) && ParseLong(b) == Some(r.end) && ParseLong(c) == Some(r.length)
    ensures Bounds(a, b, c) == Parsed(r)
  {
  }

  lemma HeaderRest(h: string)
    ensures "bytes" <= "bytes " + h && ("bytes " + h)[6..] == h
    ensures Trim(h) == h ==> ContentRangeOf(Some("bytes " + h)) == RangeOf(h)
  {
    var t := "bytes " + h;
    assert t[..5] == "bytes";
    assert t[6..] == h;
  }

  /** What is printed for a range is parsed back to the same range. */
  lemma ContentRangeRoundTrip(r: ByteRange)
    requires Servable(r)
    ensures ContentRangeOf(Some(ContentRange(r))) == Parsed(r)
  {
    PrintNumber(r.start);
    PrintNumber(r.end);
    PrintNumber(r.length);
    RoundTripOf(r, Print(r.start), Print(r.end), Print(r.length));
  }

  lemma PrintNumber(n: nat)
    ensures Number(Print(n)) && ParseLong(Print(n)) == Ranged(n)
  {
    PrintDigits(n);
    PrintParse(n);
  }

  lemma RoundTripOf(r: ByteRange, a: string, b: string, c: string)
    requires Servable(r) && Number(a) && Number(b) && Number(c)
    requires ParseLong(a) == Ranged(r.start) && ParseLong(b) == Ranged(r.end) && ParseLong(c) == Ranged(r.length)
    ensures ContentRangeOf(Some("bytes " + RangeText(a, b, c))) == Parsed(r)
  {
    RangeTextParts(a, b, c);
    BoundsServable(a, b, c, r);
    HeaderRest(RangeText(a, b, c));
  }
}
