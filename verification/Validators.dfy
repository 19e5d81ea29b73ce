/** Entity tags and conditional requests (ResourceObj.getETag, CaimitoDefaultServlet.checkIfHeaders). */
module Validators {
  import opened Basics
  import opened HttpText

  datatype Resource = Resource(contentLength: int, lastModified: int)

  /** getETag; None is null. */
  function ETag(r: Resource): Option<string> {
    if r.contentLength >= 0 || r.lastModified >= 0
    then Some("W/\"" + TagText(r) + "\"")
    else None
  }

  function TagText(r: Resource): string {
    Print(r.contentLength) + "-" + Print(r.lastModified)
  }

  // ---- Tags ----

  /** The digits in front of the first dash, and what follows it, are determined by the text. */
  lemma SplitAtDash(d: string, x: string, e: string, y: string)
    requires AllDigits(d) && AllDigits(e) && d + ("-" + x) == e + ("-" + y)
    ensures d == e && x == y
  {
    DashFirst(d, x);
    DashFirst(e, y);
    var t := d + ("-" + x);
    assert d == t[..|d|] && e == t[..|e|];
    assert x == t[|d| + 1..] && y == t[|e| + 1..];
  }

  predicate Prints(n: int, d: string) {
    && d != "" && AllDigits(d) && ValueOf(d) == (if n < 0 then -n else n)
    && Print(n) == Signed(n, d)
  }

  function Signed(n: int, d: string): string {
    if n < 0 then "-" + d else d
  }

  /** The digits of a number. */
  lemma PrintParts(n: int) returns (d: string)
    ensures Prints(n, d)
  {
    d := PrintNat(if n < 0 then -n else n);
    PrintDigits(if n < 0 then -n else n);
  }

  function Sign(n: int): nat {
    if n < 0 then 1 else 0
  }

  /** A printed number starts with a dash exactly if it is negative, and its digits follow. */
  lemma SignOf(n: int, d: string, rest: string)
    requires d != "" && AllDigits(d)
    ensures (Signed(n, d) + rest)[0] == '-' <==> n < 0
    ensures (Signed(n, d) + rest)[Sign(n)..] == d + rest
  {
    assert IsDigit(d[0]);
  }

  /** Signed digits in front of a dash, and what follows it, are determined by the text. */
  lemma SignedApart(m: int, d: string, x: string, n: int, e: string, y: string)
    requires d != "" && AllDigits(d) && e != "" && AllDigits(e)
    requires Signed(m, d) + ("-" + x) == Signed(n, e) + ("-" + y)
    ensures Sign(m) == Sign(n) && d == e && x == y
  {
    SignOf(m, d, "-" + x);
    SignOf(n, e, "-" + y);
    SplitAtDash(d, x, e, y);
  }

  lemma PrintsApart(m: int, d: string, n: int, e: string)
    requires Prints(m, d) && Prints(n, e) && Signed(m, d) == Signed(n, e)
    ensures m == n
  {
    assert Signed(m, d) + ("-" + "") == Signed(n, e) + ("-" + "");
    SignedApart(m, d, "", n, e, "");
  }

  lemma TagTextApart(a: Resource, b: Resource)
    requires TagText(a) == TagText(b)
    ensures a == b
  {
    var d := PrintParts(a.contentLength);
    var e := PrintParts(b.contentLength);
    var x, y := Print(a.lastModified), Print(b.lastModified);
    assert TagText(a) == Signed(a.contentLength, d) + ("-" + x);
    assert TagText(b) == Signed(b.contentLength, e) + ("-" + y);
    SignedApart(a.contentLength, d, x, b.contentLength, e, y);
    d := PrintParts(a.lastModified);
    e := PrintParts(b.lastModified);
    PrintsApart(a.lastModified, d, b.lastModified, e);
  }

  /** Two resources with the same tag have the same length and the same time, of whatever sign. */
  lemma ETagInjective(a: Resource, b: Resource)
    requires ETag(a).Some? && ETag(a) == ETag(b)
    ensures a == b
  {
    var s, t := ETag(a).value, ETag(b).value;
    assert s[3..|s| - 1] == TagText(a) && t[3..|t| - 1] == TagText(b);
    TagTextApart(a, b);
  }

  lemma PrintLacks(n: int, c: char)
    requires c != '-' && !IsDigit(c)
    ensures c !in Print(n)
  {
    var d := PrintParts(n);
    NoOther(d, c);
  }

  /** A tag holds no comma and no star. */
  lemma TagPlain(r: Resource, c: char)
    requires ETag(r).Some? && c in {',', '*'}
    ensures c !in ETag(r).value
  {
    PrintLacks(r.contentLength, c);
    PrintLacks(r.lastModified, c);
    assert c !in TagText(r);
  }

  /** A tag starts with a W and ends with a quote. */
  lemma TagTight(r: Resource)
    ensures ETag(r).Some? ==> Tight(ETag(r).value)
  {
  }

  /** A resource has a tag exactly if its length or its time is known; the tag shows both in decimal, length first. */
  lemma ETagText(r: Resource)
    ensures ETag(r).None? <==> r.contentLength < 0 && r.lastModified < 0
    ensures ETag(r).Some? ==>
              ETag(r).value == "W/\"" + Print(r.contentLength) + "-" + Print(r.lastModified) + "\""
  {
    var a, b := Print(r.contentLength), Print(r.lastModified);
    assert "W/\"" + a + "-" + b + "\"" == "W/\"" + (a + "-" + b) + "\"";
  }

  lemma {:induction false} JoinKeeps(items: seq<string>, c: char)
    requires c != ',' && forall i {:trigger items[i]} :: 0 <= i < |items| ==> c !in items[i]
    ensures c !in Join(items)
    decreases |items|
  {
    if |items| > 1 {
      JoinKeeps(items[1..], c);
    }
  }

  // ---- The four checks ----

  /** A date header: -1 if it is absent, NotADate if getDateHeader throws. */
  datatype DateHeader = NotADate | Date(time: int)

  /** The header fields that the checks read; get says that the method is GET or HEAD. */
  datatype Request = Request(
    get: bool, ifMatch: Option<string>, ifNoneMatch: Option<string>,
    ifModifiedSince: DateHeader, ifUnmodifiedSince: DateHeader)

  /** Go on, or stop with 304 and this tag, or with 412. */
  datatype Verdict = Proceed | NotModified(eTag: Option<string>) | PreconditionFailed

  /** A token of the comma list is the tag with blanks around it. */
  ghost predicate Listed(header: string, eTag: Option<string>) {
    eTag.Some? && exists k :: 0 <= k < |Tokens(header)| && Padded(Tokens(header)[k], eTag.value)
  }

  ghost predicate MatchHolds(req: Request, r: Resource) {
    req.ifMatch.Some? ==> '*' in req.ifMatch.value || Listed(req.ifMatch.value, ETag(r))
  }

  predicate ModifiedHolds(req: Request, r: Resource) {
    match req.ifModifiedSince
    case NotADate => true
    case Date(time) => time == -1 || req.ifNoneMatch.Some? || r.lastModified >= Long(time + 1000)
  }

  ghost predicate NoneMatchHolds(req: Request, r: Resource) {
    req.ifNoneMatch.Some? ==> req.ifNoneMatch.value != "*" && !Listed(req.ifNoneMatch.value, ETag(r))
  }

  predicate UnmodifiedHolds(req: Request, r: Resource) {
    match req.ifUnmodifiedSince
    case NotADate => true
    case Date(time) => time == -1 || r.lastModified < Long(time + 1000)
  }

  /** What a request gets: the first condition that fails decides. */
  ghost function Decision(req: Request, r: Resource): Verdict {
    if !MatchHolds(req, r) then PreconditionFailed
    else if !ModifiedHolds(req, r) then NotModified(ETag(r))
    else if !NoneMatchHolds(req, r) then (if req.get then NotModified(ETag(r)) else PreconditionFailed)
    else if !UnmodifiedHolds(req, r) then PreconditionFailed
    else Proceed
  }

  /** The token loop of checkIfMatch and checkIfNoneMatch. */
  method AnyToken(headerValue: string, eTag: Option<string>) returns (conditionSatisfied: bool)
    requires eTag.Some? ==> Tight(eTag.value)
    ensures conditionSatisfied <==> Listed(headerValue, eTag)
  {
    var tokens := Tokens(headerValue);
    var i := 0;
    conditionSatisfied := false;
    while !conditionSatisfied && i < |tokens|
      invariant 0 <= i <= |tokens|
      invariant conditionSatisfied <==> eTag.Some? && exists k :: 0 <= k < i && Padded(tokens[k], eTag.value)
    {
      var currentToken := tokens[i];
      if eTag.Some? { TrimPadded(currentToken, eTag.value); }
      if Some(Trim(currentToken)) == eTag {
        conditionSatisfied := true;
      }
      i := i + 1;
    }
  }

  method CheckIfMatch(req: Request, r: Resource) returns (v: Verdict)
    ensures v == if MatchHolds(req, r) then Proceed else PreconditionFailed
  {
    var eTag := ETag(r);
    TagTight(r);
    if req.ifMatch.Some? {
      var headerValue := req.ifMatch.value;
      if IndexOf(headerValue, '*') == -1 {
        var conditionSatisfied := AnyToken(headerValue, eTag);
        if !conditionSatisfied {
          return PreconditionFailed;
        }
      }
    }
    return Proceed;
  }

  method CheckIfModifiedSince(req: Request, r: Resource) returns (v: Verdict)
    ensures v == if ModifiedHolds(req, r) then Proceed else NotModified(ETag(r))
  {
    if req.ifModifiedSince.NotADate? {
      return Proceed;
    }
    var headerValue := req.ifModifiedSince.time;
    if headerValue != -1 {
      if req.ifNoneMatch.None? && r.lastModified < Long(headerValue + 1000) {
        return NotModified(ETag(r));
      }
    }
    return Proceed;
  }

  method CheckIfNoneMatch(req: Request, r: Resource) returns (v: Verdict)
    ensures v == if NoneMatchHolds(req, r) then Proceed
                 else if req.get then NotModified(ETag(r)) else PreconditionFailed
  {
    var eTag := ETag(r);
    TagTight(r);
    if req.ifNoneMatch.Some? {
      var headerValue := req.ifNoneMatch.value;
      var conditionSatisfied := false;
      if headerValue != "*" {
        conditionSatisfied := AnyToken(headerValue, eTag);
      } else {
        conditionSatisfied := true;
      }
      if conditionSatisfied {
        if req.get {
          return NotModified(eTag);
        }
        return PreconditionFailed;
      }
    }
    return Proceed;
  }

  method CheckIfUnmodifiedSince(req: Request, r: Resource) returns (v: Verdict)
    ensures v == if UnmodifiedHolds(req, r) then Proceed else PreconditionFailed
  {
    if req.ifUnmodifiedSince.NotADate? {
      return Proceed;
    }
    var headerValue := req.ifUnmodifiedSince.time;
    if headerValue != -1 {
      if r.lastModified >= Long(headerValue + 1000) {
        return PreconditionFailed;
      }
    }
    return Proceed;
  }

  method CheckIfHeaders(req: Request, r: Resource) returns (v: Verdict)
    ensures v == Decision(req, r)
  {
    v := CheckIfMatch(req, r);
    if v != Proceed {
      return;
    }
    v := CheckIfModifiedSince(req, r);
    if v != Proceed {
      return;
    }
    v := CheckIfNoneMatch(req, r);
    if v != Proceed {
      return;
    }
    v := CheckIfUnmodifiedSince(req, r);
  }

  // ---- Echoes ----

  /** Each item is the tag of the version beside it, with blanks around it. */
  ghost predicate Tagged(items: seq<string>, versions: seq<Resource>) {
    && |items| == |versions|
    && forall i {:trigger items[i]} :: 0 <= i < |items| ==> IsTag(items[i], versions[i])
  }

  ghost predicate IsTag(item: string, version: Resource) {
    ETag(version).Some? && Padded(item, ETag(version).value)
  }

  lemma TagItem(item: string, version: Resource)
    requires IsTag(item, version)
    ensures Item(item) && '*' !in item
  {
    TagPlain(version, ',');
    TagPlain(version, '*');
    PaddedKeeps(item, ETag(version).value, ',');
    PaddedKeeps(item, ETag(version).value, '*');
  }

  /** An item is the tag of one version only. */
  lemma TagOnly(item: string, version: Resource, r: Resource)
    requires IsTag(item, version)
    ensures IsTag(item, r) <==> r == version
  {
    if IsTag(item, r) {
      TagTight(version);
      TagTight(r);
      TrimPadded(item, ETag(version).value);
      TrimPadded(item, ETag(r).value);
      ETagInjective(r, version);
    }
  }

  /** The tag of a resource is in a list of tags exactly if the resource is one of the versions. */
  lemma ListedVersion(items: seq<string>, versions: seq<Resource>, r: Resource)
    requires Tagged(items, versions)
    ensures Listed(Join(items), ETag(r)) <==> r in versions
    ensures '*' !in Join(items)
  {
    forall i {:trigger items[i]} | 0 <= i < |items|
      ensures Item(items[i]) && '*' !in items[i] && (IsTag(items[i], r) <==> r == versions[i])
    {
      TagItem(items[i], versions[i]);
      TagOnly(items[i], versions[i], r);
    }
    TokensJoin(items);
    JoinKeeps(items, '*');
    if r in versions {
      var k :| 0 <= k < |versions| && versions[k] == r;
      assert IsTag(items[k], r);
    }
  }

  /**
   * If-Match with any list of tags, beside any other header fields: 412 unless the resource is
   * listed, and then the other fields decide.
   */
  lemma MatchEcho(items: seq<string>, versions: seq<Resource>, req: Request, r: Resource)
    requires Tagged(items, versions) && req.ifMatch == Some(Join(items))
    ensures Decision(req, r) == if r in versions then Decision(req.(ifMatch := None), r) else PreconditionFailed
  {
    ListedVersion(items, versions, r);
  }

  /**
   * If-None-Match with any list of tags: 304 on GET and HEAD, else 412, exactly if the resource
   * is listed. The field puts If-Modified-Since out of force.
   */
  lemma NoneMatchEcho(items: seq<string>, versions: seq<Resource>, req: Request, r: Resource)
    requires Tagged(items, versions) && req.ifMatch.None? && req.ifNoneMatch == Some(Join(items))
    ensures Decision(req, r) ==
      if r !in versions then Decision(Request(req.get, None, None, Date(-1), req.ifUnmodifiedSince), r)
      else if req.get then NotModified(ETag(r))
      else PreconditionFailed
  {
    ListedVersion(items, versions, r);
  }

  /** A star anywhere in If-Match lets everything through; If-None-Match is a star as a whole only. */
  lemma Stars(req: Request, r: Resource)
    ensures req.ifMatch.Some? && '*' in req.ifMatch.value ==> Decision(req, r) == Decision(req.(ifMatch := None), r)
    ensures req.ifMatch.None? && req.ifNoneMatch == Some("*") ==>
              Decision(req, r) == if req.get then NotModified(ETag(r)) else PreconditionFailed
  {
  }

  /** Without tags the dates decide, If-Modified-Since first; no date, or -1, is no condition. */
  lemma DatesDecide(since: DateHeader, unless: DateHeader, r: Resource, get: bool)
    ensures var d := Decision(Request(get, None, None, since, unless), r);
      && (d.NotModified? <==> since.Date? && since.time != -1 && r.lastModified < Long(since.time + 1000))
      && (d.NotModified? ==> d.eTag == ETag(r))
      && (d.Proceed? ==> unless.NotADate? || unless.time == -1 || r.lastModified < Long(unless.time + 1000))
      && (d.PreconditionFailed? ==> unless.Date? && unless.time != -1 && r.lastModified >= Long(unless.time + 1000))
  {
  }

  /** Last-Modified as it is sent: whole seconds. */
  function Seconds(time: nat): nat {
    time / 1000 * 1000
  }

  /** Echoing Last-Modified: 304 exactly if the resource did not change in a later second. */
  lemma ModifiedEcho(was: nat, r: Resource, get: bool)
    requires IsLong(was + 1000)
    ensures var req := Request(get, None, None, Date(Seconds(was)), Date(-1));
      Decision(req, r) == if r.lastModified / 1000 <= was / 1000 then NotModified(ETag(r)) else Proceed
  {
    LongFits(Seconds(was) + 1000);
  }

  /** The same for If-Unmodified-Since: it goes on exactly if there was no change in a later second. */
  lemma UnmodifiedEcho(was: nat, r: Resource, get: bool)
    requires IsLong(was + 1000)
    ensures var req := Request(get, None, None, Date(-1), Date(Seconds(was)));
      Decision(req, r) == if r.lastModified / 1000 <= was / 1000 then Proceed else PreconditionFailed
  {
    LongFits(Seconds(was) + 1000);
  }

  /** A client that sends back both the tag and the date of a version gets 304 exactly if that version is current. */
  lemma EchoBoth(was: Resource, r: Resource)
    requires ETag(was).Some? && was.lastModified >= 0
    ensures var req := Request(true, None, ETag(was), Date(Seconds(was.lastModified)), Date(-1));
      Decision(req, r) == if r == was then NotModified(ETag(r)) else Proceed
  {
    TagAlone(was);
    ListedVersion([ETag(was).value], [was], r);
    assert Join([ETag(was).value]) == ETag(was).value;
  }

  lemma TagAlone(r: Resource)
    requires ETag(r).Some?
    ensures IsTag(ETag(r).value, r)
  {
    assert PaddedBy(ETag(r).value, "", ETag(r).value, "");
  }

  /** With the same date in both date headers one of them always refuses. */
  lemma SinceExclusive(req: Request, r: Resource)
    requires req.ifNoneMatch.None? && req.ifModifiedSince == req.ifUnmodifiedSince
    ensures Decision(req, r) == Proceed ==> req.ifModifiedSince in {NotADate, Date(-1)}
  {
  }
}
