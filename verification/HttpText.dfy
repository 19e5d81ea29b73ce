/** Header text: decimal numbers as Java prints and parses them, trimming, and comma lists. */
module HttpText {
  import opened Basics

  const MAX_LONG := 0x7fff_ffff_ffff_ffff
  const MIN_LONG := -0x8000_0000_0000_0000

  predicate IsLong(i: int) {
    MIN_LONG <= i <= MAX_LONG
  }

  /** The result of 64-bit arithmetic. */
  function Long(i: int): int {
    if IsLong(i) then i else (i - MIN_LONG) % 0x1_0000_0000_0000_0000 + MIN_LONG
  }

  /** It wraps around: it is a long, and differs from the exact result by a multiple of 2^64. */
  lemma LongWraps(i: int)
    ensures -0x8000_0000_0000_0000 <= Long(i) < 0x8000_0000_0000_0000
    ensures (Long(i) - i) % 0x1_0000_0000_0000_0000 == 0
  {
  }

  lemma LongFits(i: int)
    ensures IsLong(Long(i))
    ensures IsLong(i) ==> Long(i) == i
  {
  }

  // ---- Numbers ----

  predicate IsDigit(c: char) {
    '0' <= c <= '9'
  }

  predicate AllDigits(s: string) {
    forall i {:trigger IsDigit(s[i])} :: 0 <= i < |s| ==> IsDigit(s[i])
  }

  lemma NoOther(s: string, c: char)
    requires AllDigits(s) && !IsDigit(c)
    ensures c !in s
  {
    forall i | 0 <= i < |s| ensures s[i] != c {
      assert IsDigit(s[i]);
    }
  }

  function ValueOf(s: string): nat
    requires AllDigits(s)
  {
    if s == "" then 0 else (assert IsDigit(s[|s| - 1]); ValueOf(s[..|s| - 1]) * 10 + (s[|s| - 1] as int - '0' as int))
  }

  /** The value of s if it consists of digits. */
  function Digits(s: string): Option<nat> {
    if s == "" then Some(0)
    else
      var n := Digits(s[..|s| - 1]);
      if n.None? || !IsDigit(s[|s| - 1]) then None else Some(n.value * 10 + (s[|s| - 1] as int - '0' as int))
  }

  lemma {:induction false} DigitsValue(s: string)
    requires AllDigits(s)
    ensures Digits(s) == Some(ValueOf(s))
    decreases |s|
  {
    if s != "" {
      assert IsDigit(s[|s| - 1]);
      DigitsValue(s[..|s| - 1]);
    }
  }

  /** Long.parseLong on ASCII text; None is a NumberFormatException. */
  function ParseLong(s: string): Option<int> {
    if s == "" then None
    else
      var digits := if s[0] == '-' || s[0] == '+' then s[1..] else s;
      var n := Digits(digits);
      if digits == "" || n.None? then None
      else Ranged(if s[0] == '-' then 0 - n.value else n.value)
  }

  function Ranged(i: int): Option<int> {
    if IsLong(i) then Some(i) else None
  }

  function PrintNat(n: nat): string {
    (if n < 10 then "" else PrintNat(n / 10)) + [(n % 10 + '0' as int) as char]
  }

  function Print(i: int): string {
    if i < 0 then "-" + PrintNat(-i) else PrintNat(i)
  }

  lemma {:induction false} PrintDigits(n: nat)
    ensures PrintNat(n) != "" && AllDigits(PrintNat(n)) && ValueOf(PrintNat(n)) == n
    decreases n
  {
    var p := PrintNat(n);
    if n >= 10 {
      PrintDigits(n / 10);
      assert p[..|p| - 1] == PrintNat(n / 10);
    } else {
      assert p[..|p| - 1] == "";
    }
  }

  lemma ParseDigits(d: string)
    requires d != "" && AllDigits(d)
    ensures ParseLong(d) == Ranged(ValueOf(d))
    ensures ParseLong("-" + d) == Ranged(0 - ValueOf(d))
  {
    assert IsDigit(d[0]);
    assert ("-" + d)[1..] == d;
    DigitsValue(d);
  }

  lemma {:induction false} DigitsIff(s: string)
    ensures Digits(s).Some? <==> AllDigits(s)
    decreases |s|
  {
    if s != "" {
      DigitsIff(s[..|s| - 1]);
      assert s == s[..|s| - 1] + [s[|s| - 1]];
      if AllDigits(s) {
        assert IsDigit(s[|s| - 1]);
      }
    }
  }

  /** sign + digits, with the value of the digits, negative after a dash. */
  predicate SignedDigits(s: string, sign: string, digits: string, v: int) {
    s == sign + digits && sign in {"", "-", "+"} && digits != "" &&
    (forall i :: 0 <= i < |digits| ==> '0' <= digits[i] <= '9') &&
    v == (if sign == "-" then 0 - DecimalValue(digits) else DecimalValue(digits))
  }

  /** The value of decimal digits. */
  function DecimalValue(s: string): int {
    if s == "" then 0 else DecimalValue(s[..|s| - 1]) * 10 + (s[|s| - 1] as int - '0' as int)
  }

  lemma {:induction false} ValueDecimal(s: string)
    requires AllDigits(s)
    ensures ValueOf(s) == DecimalValue(s)
    decreases |s|
  {
    if s != "" {
      assert IsDigit(s[|s| - 1]);
      ValueDecimal(s[..|s| - 1]);
    }
  }

  lemma ParsedText(s: string) returns (sign: string, digits: string)
    requires ParseLong(s).Some?
    ensures SignedDigits(s, sign, digits, ParseLong(s).value) && IsLong(ParseLong(s).value)
  {
    sign := if s[0] == '-' || s[0] == '+' then [s[0]] else "";
    digits := s[|sign|..];
    DigitsIff(digits);
    DigitsValue(digits);
    ValueDecimal(digits);
    assert s == sign + digits;
    assert forall i :: 0 <= i < |digits| ==> IsDigit(digits[i]);
  }

  lemma TextParsed(s: string, sign: string, digits: string, v: int)
    requires SignedDigits(s, sign, digits, v)
    ensures ParseLong(s) == Ranged(v)
  {
    assert AllDigits(digits) && IsDigit(digits[0]);
    DigitsValue(digits);
    ValueDecimal(digits);
    assert s[|sign|..] == digits;
    assert s[0] == if sign == "" then digits[0] else sign[0];
  }

  /** Exactly what parses: an optional sign, digits, and a value of 64 bits. */
  lemma ParseLongIff(s: string, v: int)
    ensures ParseLong(s) == Some(v) <==>
            -0x8000_0000_0000_0000 <= v < 0x8000_0000_0000_0000 &&
            exists sign, digits :: SignedDigits(s, sign, digits, v)
  {
    if ParseLong(s) == Some(v) {
      var sign, digits := ParsedText(s);
    }
    if sign, digits :| SignedDigits(s, sign, digits, v) {
      TextParsed(s, sign, digits, v);
    }
  }

  /** How numbers are printed: a dash for negative ones, digits, no leading zero. */
  lemma PrintText(n: nat)
    ensures Print(n) != "" && (forall i :: 0 <= i < |Print(n)| ==> '0' <= Print(n)[i] <= '9')
    ensures Print(n)[0] == '0' ==> Print(n) == "0"
    ensures n > 0 ==> Print(0 - n) == "-" + Print(n)
  {
    PrintDigits(n);
    assert forall i :: 0 <= i < |Print(n)| ==> IsDigit(PrintNat(n)[i]);
    PrintLead(n);
  }

  lemma {:induction false} PrintLead(n: nat)
    ensures PrintNat(n) != "" && (PrintNat(n)[0] == '0' <==> n == 0) && (n < 10 ==> |PrintNat(n)| == 1)
    decreases n
  {
    if n >= 10 {
      PrintLead(n / 10);
    }
  }

  /** Printing a long and parsing it back; a natural number out of range does not parse. */
  lemma PrintParse(i: int)
    ensures ParseLong(Print(i)) == Ranged(i)
  {
    PrintDigits(if i < 0 then -i else i);
    ParseDigits(PrintNat(if i < 0 then -i else i));
  }

  // ---- Searching ----

  lemma DashFirst(d: string, rest: string)
    requires AllDigits(d)
    ensures d + ("-" + rest) == d + "-" + rest
    ensures IndexOf(d + "-" + rest, '-') == |d|
  {
    NoOther(d, '-');
    assert d + ("-" + rest) == d + "-" + rest;
    assert (d + "-" + rest)[..|d|] == d;
    IndexOfIs(d + "-" + rest, '-', |d|);
  }

  predicate Blank(c: char) {
    c <= ' '
  }

  /** String.trim. */
  function Trim(s: string): string {
    if s == "" then s
    else if Blank(s[0]) then Trim(s[1..])
    else if Blank(s[|s| - 1]) then Trim(s[..|s| - 1])
    else s
  }

  lemma TrimNothing(s: string)
    requires s == "" || (!Blank(s[0]) && !Blank(s[|s| - 1]))
    ensures Trim(s) == s
  {
  }

  /** t is core with blanks in front and behind. */
  ghost predicate Padded(t: string, core: string) {
    exists a, b :: PaddedBy(t, a, core, b)
  }

  predicate PaddedBy(t: string, a: string, core: string, b: string) {
    t == a + core + b && (forall i :: 0 <= i < |a| ==> a[i] <= ' ') && (forall i :: 0 <= i < |b| ==> b[i] <= ' ')
  }

  predicate Tight(core: string) {
    core != "" && core[0] > ' ' && core[|core| - 1] > ' '
  }

  lemma PadFront(x: char, s: string, a: string, t: string, b: string)
    requires PaddedBy(s, a, t, b) && x <= ' '
    ensures PaddedBy([x] + s, [x] + a, t, b)
  {
    assert [x] + (a + t + b) == ([x] + a) + t + b;
  }

  lemma PadBack(x: char, s: string, a: string, t: string, b: string)
    requires PaddedBy(s, a, t, b) && x <= ' '
    ensures PaddedBy(s + [x], a, t, b + [x])
  {
    assert (a + t + b) + [x] == a + t + (b + [x]);
  }

  lemma {:induction false} TrimPads(s: string) returns (a: string, b: string)
    ensures PaddedBy(s, a, Trim(s), b) && (Trim(s) != "" ==> Tight(Trim(s)))
    decreases |s|
  {
    a, b := "", "";
    if s != "" && Blank(s[0]) {
      var r := s[1..];
      a, b := TrimPads(r);
      PadFront(s[0], r, a, Trim(r), b);
      assert s == [s[0]] + r;
      a := [s[0]] + a;
    } else if s != "" && Blank(s[|s| - 1]) {
      var r := s[..|s| - 1];
      a, b := TrimPads(r);
      PadBack(s[|s| - 1], r, a, Trim(r), b);
      assert s == r + [s[|s| - 1]];
      b := b + [s[|s| - 1]];
    } else {
      assert "" + s + "" == s;
    }
  }

  /** Trimming takes blanks and control characters away at both ends, all of them and nothing else. */
  lemma TrimIs(s: string) returns (a: string, b: string)
    ensures s == a + Trim(s) + b
    ensures (forall i :: 0 <= i < |a| ==> a[i] <= ' ') && (forall i :: 0 <= i < |b| ==> b[i] <= ' ')
    ensures Trim(s) != "" ==> Trim(s)[0] > ' ' && Trim(s)[|Trim(s)| - 1] > ' '
  {
    a, b := TrimPads(s);
  }

  /** Trimming finds what was padded. */
  lemma TrimPadded(t: string, core: string)
    requires Tight(core)
    ensures Padded(t, core) <==> Trim(t) == core
  {
    if a, b :| PaddedBy(t, a, core, b) {
      TrimBetween(a, core, b);
    }
    if Trim(t) == core {
      var a, b := TrimPads(t);
    }
  }

  lemma {:induction false} TrimBetween(a: string, core: string, b: string)
    requires Tight(core) && PaddedBy(a + core + b, a, core, b)
    ensures Trim(a + core + b) == core
    decreases |a| + |b|
  {
    var t := a + core + b;
    if a != "" {
      assert t[0] == a[0] && t[1..] == a[1..] + core + b;
      TrimBetween(a[1..], core, b);
    } else if b != "" {
      assert t[0] == core[0] && t[|t| - 1] == b[|b| - 1] && t[..|t| - 1] == a + core + b[..|b| - 1];
      TrimBetween(a, core, b[..|b| - 1]);
    } else {
      assert t == core;
    }
  }

  /** Padding adds no visible character. */
  lemma PaddedKeeps(t: string, core: string, c: char)
    requires Padded(t, core) && c > ' '
    ensures c in t <==> c in core
  {
    var a, b :| PaddedBy(t, a, core, b);
  }

  // ---- Comma lists ----

  /** StringTokenizer(s, ","): the pieces between commas that are not empty. */
  function Tokens(s: string): seq<string>
    decreases |s|
  {
    var i := IndexOf(s, ',');
    if i < 0 then (if s == "" then [] else [s])
    else (if i == 0 then [] else [s[..i]]) + Tokens(s[i + 1..])
  }

  function Join(items: seq<string>): string {
    if items == [] then "" else if |items| == 1 then items[0] else items[0] + "," + Join(items[1..])
  }

  predicate Item(s: string) {
    s != "" && ',' !in s
  }

  /** The items that are not empty. */
  function NonEmpty(items: seq<string>): seq<string> {
    if items == [] then [] else (if items[0] == "" then [] else [items[0]]) + NonEmpty(items[1..])
  }

  lemma TokensAfter(item: string, rest: string)
    requires ',' !in item
    ensures Tokens(item + "," + rest) == (if item == "" then [] else [item]) + Tokens(rest)
  {
    var s := item + [','] + rest;
    IndexOfFirst(item, ',', rest);
    assert s[..|item|] == item && s[|item| + 1..] == rest;
  }

  /** Tokenizing undoes joining, but for empty items, which are lost. */
  lemma {:induction false} TokensOfJoin(items: seq<string>)
    requires forall i :: 0 <= i < |items| ==> ',' !in items[i]
    ensures Tokens(Join(items)) == NonEmpty(items)
    decreases |items|
  {
    if |items| == 1 {
      assert IndexOf(items[0], ',') < 0 && NonEmpty(items[1..]) == [];
    } else if items != [] {
      TokensAfter(items[0], Join(items[1..]));
      TokensOfJoin(items[1..]);
    }
  }

  lemma {:induction false} NonEmptyAll(items: seq<string>)
    requires forall i :: 0 <= i < |items| ==> items[i] != ""
    ensures NonEmpty(items) == items
    decreases |items|
  {
    if items != [] {
      NonEmptyAll(items[1..]);
      assert items == [items[0]] + items[1..];
    }
  }

  lemma TokensJoin(items: seq<string>)
    requires forall i :: 0 <= i < |items| ==> Item(items[i])
    ensures Tokens(Join(items)) == items
  {
    TokensOfJoin(items);
    NonEmptyAll(items);
  }
}
