/** CaimitoUtil.normalize: string rewriting to a fixpoint, against a single scan with a stack. */
module Rewriting {

  /** StringUtil.replaceSubstring, taken to replace all leftmost non-overlapping occurrences. */
  function Replace(s: string, from: string, to: string): string
    requires from != ""
  {
    if |s| < |from| then s
    else if s[..|from|] == from then to + Replace(s[|from|..], from, to)
    else [s[0]] + Replace(s[1..], from, to)
  }

  /** s.indexOf(t) >= 0. */
  predicate Occurs(s: string, t: string) {
    |t| <= |s| && (s[..|t|] == t || (s != "" && Occurs(s[1..], t)))
  }

  ghost predicate Contains(s: string, t: string) {
    exists a, b :: s == a + t + b
  }

  lemma {:induction false} OccursIff(s: string, t: string)
    ensures Occurs(s, t) <==> Contains(s, t)
    decreases |s|
  {
    if |t| <= |s| && s[..|t|] == t {
      assert s == "" + t + s[|t|..];
    } else if s != "" {
      OccursIff(s[1..], t);
      if a, b :| s[1..] == a + t + b {
        assert s == ([s[0]] + a) + t + b;
      }
      if a, b :| s == a + t + b {
        assert a != "" && s[1..] == a[1..] + t + b;
      }
    }
  }

  // ---- The scan ----

  predicate EndsIn(st: string, c: char) {
    st != "" && st[|st| - 1] == c
  }

  /** One character: ":" is dropped, "\" is read as "/", "." cancels ".", "/" merges with "/". */
  function Push(st: string, c: char): string {
    if c == ':' then st
    else if c == '/' || c == '\\' then (if EndsIn(st, '/') then st else st + "/")
    else if c == '.' then (if EndsIn(st, '.') then st[..|st| - 1] else st + ".")
    else st + [c]
  }

  function ScanFrom(st: string, s: string): string
    decreases |s|
  {
    if s == "" then st else ScanFrom(Push(st, s[0]), s[1..])
  }

  function Scan(s: string): string {
    ScanFrom("", s)
  }

  predicate Pair(s: string, i: int)
    requires 0 <= i && i + 1 < |s|
  {
    s[i] == s[i + 1] && (s[i] == '.' || s[i] == '/')
  }

  /** Nothing left to rewrite. */
  predicate IsNormal(s: string) {
    (forall i :: 0 <= i < |s| ==> s[i] != ':' && s[i] != '\\') &&
    (forall i :: 0 <= i < |s| - 1 ==> !Pair(s, i))
  }

  lemma PushNormal(st: string, c: char)
    requires IsNormal(st)
    ensures IsNormal(Push(st, c))
  {
    var r := Push(st, c);
    forall i | 0 <= i < |r| - 1 ensures !Pair(r, i) {
      if i < |st| - 1 { assert !Pair(st, i); }
    }
  }

  lemma {:induction false} ScanFromNormal(st: string, s: string)
    requires IsNormal(st)
    ensures IsNormal(ScanFrom(st, s))
    decreases |s|
  {
    if s != "" {
      PushNormal(st, s[0]);
      ScanFromNormal(Push(st, s[0]), s[1..]);
    }
  }

  lemma {:induction false} ScanConcat(st: string, a: string, b: string)
    ensures ScanFrom(st, a + b) == ScanFrom(ScanFrom(st, a), b)
    decreases |a|
  {
    if a == "" {
      assert a + b == b;
    } else {
      assert (a + b)[1..] == a[1..] + b;
      ScanConcat(Push(st, a[0]), a[1..], b);
    }
  }

  /** A normal continuation of a normal string is kept as it is. */
  lemma {:induction false} ScanKeeps(st: string, s: string)
    requires IsNormal(st + s)
    ensures ScanFrom(st, s) == st + s
    decreases |s|
  {
    if s == "" {
      assert st + s == st;
    } else {
      var t := st + s;
      assert t[|st|] == s[0];
      if st != "" { assert !Pair(t, |st| - 1); }
      assert Push(st, s[0]) == st + [s[0]];
      assert t == (st + [s[0]]) + s[1..];
      ScanKeeps(st + [s[0]], s[1..]);
    }
  }

  lemma ScanOfNormal(s: string)
    requires IsNormal(s)
    ensures Scan(s) == s
  {
    assert "" + s == s;
    ScanKeeps("", s);
  }

  // ---- The rules ----

  predicate Rule(from: string, to: string) {
    (from == ".." && to == "") || (from == "//" && to == "\\") ||
    (from == "\\" && to == "/") || (from == ":" && to == "")
  }

  lemma ScanTwo(st: string, c: char, d: char)
    ensures ScanFrom(st, [c, d]) == Push(Push(st, c), d)
    ensures ScanFrom(st, [c]) == Push(st, c)
  {
    assert [c, d][1..] == [d];
    assert [c][1..] == "";
    assert ScanFrom(Push(st, c), [d]) == ScanFrom(Push(Push(st, c), d), [d][1..]);
  }

  /** No rule changes what the scan makes of a string. */
  lemma RuleSound(st: string, from: string, to: string)
    requires IsNormal(st) && Rule(from, to)
    ensures ScanFrom(st, from) == ScanFrom(st, to)
  {
    if from == ".." {
      ScanTwo(st, '.', '.');
      if EndsIn(st, '.') {
        if |st| > 1 { assert !Pair(st, |st| - 2); }
      }
    } else if from == "//" {
      ScanTwo(st, '/', '/');
      ScanTwo(st, '\\', '/');
    } else if from == "\\" {
      ScanTwo(st, '\\', '/');
      ScanTwo(st, '/', '/');
    } else {
      ScanTwo(st, ':', ':');
    }
  }

  lemma {:induction false} ReplaceScan(st: string, s: string, from: string, to: string)
    requires IsNormal(st) && Rule(from, to)
    ensures ScanFrom(st, Replace(s, from, to)) == ScanFrom(st, s)
    decreases |s|
  {
    if |s| < |from| {
    } else if s[..|from|] == from {
      var rest := s[|from|..];
      assert s == from + rest;
      ScanConcat(st, from, rest);
      ScanConcat(st, to, Replace(rest, from, to));
      RuleSound(st, from, to);
      ScanFromNormal(st, to);
      ReplaceScan(ScanFrom(st, to), rest, from, to);
    } else {
      assert s == [s[0]] + s[1..];
      var r := Replace(s[1..], from, to);
      assert ([s[0]] + r)[1..] == r;
      PushNormal(st, s[0]);
      ReplaceScan(Push(st, s[0]), s[1..], from, to);
    }
  }

  // ---- Termination ----

  function Count(s: string, c: char): nat {
    if s == "" then 0 else (if s[0] == c then 1 else 0) + Count(s[1..], c)
  }

  lemma {:induction false} CountConcat(a: string, b: string, c: char)
    ensures Count(a + b, c) == Count(a, c) + Count(b, c)
  {
    if a == "" {
      assert a + b == b;
    } else {
      assert (a + b)[1..] == a[1..] + b;
      CountConcat(a[1..], b, c);
    }
  }

  lemma {:induction false} ReplaceLength(s: string, from: string, to: string)
    requires |to| <= |from| && from != ""
    ensures |Replace(s, from, to)| <= |s|
    ensures !Occurs(s, from) ==> Replace(s, from, to) == s
    ensures Occurs(s, from) && |to| < |from| ==> |Replace(s, from, to)| < |s|
    decreases |s|
  {
    if |s| < |from| {
    } else if s[..|from|] == from {
      ReplaceLength(s[|from|..], from, to);
    } else {
      ReplaceLength(s[1..], from, to);
      assert s == [s[0]] + s[1..];
    }
  }

  lemma {:induction false} ReplaceCount(s: string, from: string, to: string)
    requires Rule(from, to)
    ensures from == "\\" ==> Count(Replace(s, from, to), '\\') == 0
    ensures from == ":" && Count(s, '\\') == 0 ==> Count(Replace(s, from, to), '\\') == 0
    ensures from == "\\" && Count(s, '\\') == 0 ==> !Occurs(s, from)
    decreases |s|
  {
    if |s| < |from| {
    } else if s[..|from|] == from {
      assert s == from + s[|from|..];
      CountConcat(from, s[|from|..], '\\');
      CountConcat(to, Replace(s[|from|..], from, to), '\\');
      ReplaceCount(s[|from|..], from, to);
    } else {
      var r := Replace(s[1..], from, to);
      assert ([s[0]] + r)[1..] == r;
      ReplaceCount(s[1..], from, to);
    }
  }

  /** The exit test of the loop holds of the normal strings and no others. */
  lemma {:induction false} ExitIsNormal(s: string)
    ensures !Occurs(s, "..") && !Occurs(s, "//") && !Occurs(s, "\\") && !Occurs(s, ":") <==> IsNormal(s)
    decreases |s|
  {
    if s != "" {
      ExitIsNormal(s[1..]);
      assert forall i :: 0 <= i < |s| - 1 ==> s[1..][i] == s[i + 1];
      if IsNormal(s) {
        forall i | 0 <= i < |s| - 2 ensures !Pair(s[1..], i) { assert !Pair(s, i + 1); }
        if |s| > 1 { assert !Pair(s, 0); }
      }
      if IsNormal(s[1..]) && (|s| > 1 ==> !Pair(s, 0)) && s[0] != ':' && s[0] != '\\' {
        forall i | 0 <= i < |s| - 1 ensures !Pair(s, i) {
          if i > 0 { assert !Pair(s[1..], i - 1); }
        }
        forall i | 0 <= i < |s| ensures s[i] != ':' && s[i] != '\\' {
          if i > 0 { assert s[1..][i - 1] == s[i]; }
        }
      }
      if |s| > 1 { assert s[..2] == [s[0], s[1]]; }
      assert s[..1] == [s[0]];
    }
  }

  /** The loop: every round shortens the string, or keeps its length and removes its backslashes. */
  method Normalize(input: string) returns (result: string)
    ensures result == Scan(input) && IsNormal(result)
  {
    result := input;
    while true
      invariant Scan(result) == Scan(input)
      decreases |result|, Count(result, '\\')
    {
      ExitIsNormal(result);
      if !Occurs(result, "..") && !Occurs(result, "//") && !Occurs(result, "\\") && !Occurs(result, ":") {
        break;
      }
      RoundScan(result);
      RoundShrinks(result);
      result := Replace(result, "..", "");
      result := Replace(result, "//", "\\");
      result := Replace(result, "\\", "/");
      result := Replace(result, ":", "");
    }
    ScanOfNormal(result);
  }

  function Round(s: string): string {
    Replace(Replace(Replace(Replace(s, "..", ""), "//", "\\"), "\\", "/"), ":", "")
  }

  lemma RoundScan(s: string)
    ensures Scan(Round(s)) == Scan(s)
  {
    var a := Replace(s, "..", "");
    var b := Replace(a, "//", "\\");
    var c := Replace(b, "\\", "/");
    ReplaceScan("", s, "..", "");
    ReplaceScan("", a, "//", "\\");
    ReplaceScan("", b, "\\", "/");
    ReplaceScan("", c, ":", "");
  }

  lemma RoundShrinks(s: string)
    requires Occurs(s, "..") || Occurs(s, "//") || Occurs(s, "\\") || Occurs(s, ":")
    ensures |Round(s)| < |s| || (|Round(s)| == |s| && Count(Round(s), '\\') < Count(s, '\\'))
  {
    var a := Replace(s, "..", "");
    var b := Replace(a, "//", "\\");
    var c := Replace(b, "\\", "/");
    ReplaceLength(s, "..", "");
    ReplaceLength(a, "//", "\\");
    ReplaceLength(b, "\\", "/");
    ReplaceLength(c, ":", "");
    ReplaceCount(b, "\\", "/");
    ReplaceCount(c, ":", "");
    ReplaceCount(s, "\\", "/");
    if !Occurs(s, "..") && !Occurs(s, "//") && !Occurs(s, "\\") {
      ReplaceLength(s, "\\", "/");
      assert c == s;
    }
  }

  // ---- What it means ----

  /** One rule applied anywhere. */
  ghost predicate Rewrites(s: string, t: string) {
    exists a, from, to, b :: Rule(from, to) && s == a + from + b && t == a + to + b
  }

  lemma RewriteScan(s: string, t: string)
    requires Rewrites(s, t)
    ensures Scan(s) == Scan(t)
  {
    var a, from, to, b :| Rule(from, to) && s == a + from + b && t == a + to + b;
    ScanFromNormal("", a);
    RuleSound(Scan(a), from, to);
    ScanConcat("", a, from);
    ScanConcat("", a + from, b);
    ScanConcat("", a, to);
    ScanConcat("", a + to, b);
  }

  /** Unique normal form: rewriting in any order and any place can only end in what `Normalize` returns. */
  lemma {:induction false} UniqueNormalForm(steps: seq<string>)
    requires |steps| > 0 && IsNormal(steps[|steps| - 1])
    requires forall i :: 0 <= i < |steps| - 1 ==> Rewrites(steps[i], steps[i + 1])
    ensures steps[|steps| - 1] == Scan(steps[0])
    decreases |steps|
  {
    if |steps| == 1 {
      ScanOfNormal(steps[0]);
    } else {
      RewriteScan(steps[0], steps[1]);
      assert forall i :: 0 <= i < |steps| - 2 ==> Rewrites(steps[1..][i], steps[1..][i + 1]) by {
        forall i | 0 <= i < |steps| - 2 ensures Rewrites(steps[1..][i], steps[1..][i + 1]) {
          assert Rewrites(steps[i + 1], steps[i + 1 + 1]);
        }
      }
      UniqueNormalForm(steps[1..]);
    }
  }

  /** Normalising a first part early makes no difference; in particular normalising is idempotent. */
  lemma ScanPrefix(a: string, b: string)
    ensures Scan(a + b) == Scan(Scan(a) + b)
    ensures Scan(Scan(a)) == Scan(a)
  {
    ScanFromNormal("", a);
    ScanOfNormal(Scan(a));
    ScanConcat("", a, b);
    ScanConcat("", Scan(a), b);
  }
}
