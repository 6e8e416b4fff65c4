/** The few Python built-ins the pipeline leans on, over `string` (a sequence of
    Unicode code points, as a Python `str` is): `str.isspace`, `str.strip`,
    `str.split(" ")`, `" ".join`, `str.startswith`, `str.replace(p, "")`,
    decimal rendering of `int`, and the clamping slice `s[:k]`. */
module Py {

  datatype Option<T> = None | Some(value: T)

  function Min(a: int, b: int): int { if a <= b then a else b }
  function Max(a: int, b: int): int { if a >= b then a else b }

  /** The code points for which `str.isspace()` holds: the characters
      Python's `strip()` removes and the regular expression class `\s`
      matches. */
  const SpaceCodes: set<int> := {9, 10, 11, 12, 13, 28, 29, 30, 31, 32, 0x85, 0xA0, 0x1680,
    0x2000, 0x2001, 0x2002, 0x2003, 0x2004, 0x2005, 0x2006, 0x2007, 0x2008, 0x2009, 0x200A,
    0x2028, 0x2029, 0x202F, 0x205F, 0x3000}

  predicate IsSpace(c: char) { c as int in SpaceCodes }

  /** No visible ASCII character is whitespace. */
  lemma VisibleNotSpace(c: char)
    requires 33 <= c as int <= 126
    ensures !IsSpace(c)
  {
  }

  predicate AllSpace(s: string) {
    forall i :: 0 <= i < |s| ==> IsSpace(s[i])
  }

  /** Drops the leading whitespace run (`str.lstrip()`). */
  function StripLeft(s: string): (r: string)
    ensures |r| <= |s| && (s != [] && IsSpace(s[0]) ==> |r| < |s|)
    ensures r != [] ==> !IsSpace(r[0])
  {
    if s != [] && IsSpace(s[0]) then StripLeft(s[1..]) else s
  }

  /** What `lstrip` drops is a whitespace prefix; what it keeps is the rest. */
  lemma {:induction false} StripLeftSplits(s: string)
    ensures var r := StripLeft(s);
      r == s[|s| - |r|..] && AllSpace(s[..|s| - |r|])
  {
    if s != [] && IsSpace(s[0]) {
      StripLeftSplits(s[1..]);
      var r := StripLeft(s);
      assert s[..|s| - |r|] == [s[0]] + s[1..][..|s| - 1 - |r|];
    }
  }

  /** Drops the trailing whitespace run (`str.rstrip()`). */
  function StripRight(s: string): (r: string)
    ensures |r| <= |s|
    ensures r != [] ==> !IsSpace(r[|r| - 1]) && r[0] == s[0]
  {
    if s != [] && IsSpace(s[|s| - 1]) then StripRight(s[..|s| - 1]) else s
  }

  /** What `rstrip` drops is a whitespace suffix; what it keeps is the rest. */
  lemma {:induction false} StripRightSplits(s: string)
    ensures var r := StripRight(s);
      r == s[..|r|] && AllSpace(s[|r|..])
  {
    if s != [] && IsSpace(s[|s| - 1]) {
      StripRightSplits(s[..|s| - 1]);
      var r := StripRight(s);
      assert s[|r|..] == s[..|s| - 1][|r|..] + [s[|s| - 1]];
    }
  }

  /** `str.strip()`. */
  function Strip(s: string): (r: string)
    ensures r != [] ==> !IsSpace(r[0]) && !IsSpace(r[|r| - 1])
  {
    StripRight(StripLeft(s))
  }

  /** `s` is some whitespace, then `s.strip()`, then some more whitespace. */
  lemma StripSplits(s: string)
    ensures exists a, b :: s == a + Strip(s) + b && AllSpace(a) && AllSpace(b)
  {
    var l := StripLeft(s);
    var r := StripRight(l);
    StripLeftSplits(s);
    StripRightSplits(l);
    assert s == s[..|s| - |l|] + r + l[|r|..];
  }

  /** `lstrip` of whitespace followed by text that does not start with
      whitespace is that text. */
  lemma {:induction false} StripLeftSpaces(a: string, t: string)
    requires AllSpace(a) && (t == [] || !IsSpace(t[0]))
    ensures StripLeft(a + t) == t
  {
    if a == [] {
      assert a + t == t;
    } else {
      assert (a + t)[0] == a[0] && (a + t)[1..] == a[1..] + t;
      StripLeftSpaces(a[1..], t);
    }
  }

  /** `rstrip` of text that does not end with whitespace followed by
      whitespace is that text. */
  lemma {:induction false} StripRightSpaces(t: string, b: string)
    requires AllSpace(b) && (t == [] || !IsSpace(t[|t| - 1]))
    ensures StripRight(t + b) == t
  {
    if b == [] {
      assert t + b == t;
    } else {
      var tb := t + b;
      assert tb[|tb| - 1] == b[|b| - 1];
      assert tb[..|tb| - 1] == t + b[..|b| - 1];
      StripRightSpaces(t, b[..|b| - 1]);
    }
  }

  /** `strip` removes exactly the whitespace around text whose ends are not
      whitespace. */
  lemma StripAround(a: string, t: string, b: string)
    requires AllSpace(a) && AllSpace(b)
    requires t == [] || (!IsSpace(t[0]) && !IsSpace(t[|t| - 1]))
    ensures Strip(a + t + b) == t
  {
    if t == [] {
      assert AllSpace(a + b) by {
        forall i | 0 <= i < |a + b| ensures IsSpace((a + b)[i]) {
          if i >= |a| { assert (a + b)[i] == b[i - |a|]; }
        }
      }
      assert a + t + b == (a + b) + [];
      StripLeftSpaces(a + b, []);
    } else {
      assert a + t + b == a + (t + b);
      StripLeftSpaces(a, t + b);
      StripRightSpaces(t, b);
    }
  }

  /** `s.split(" ")`: cuts at every single space, so `|s.split(" ")|` is one
      more than the number of spaces in `s`, and `"".split(" ") == [""]`. */
  function Split(s: string): (ws: seq<string>)
    ensures |ws| >= 1
  {
    if s == [] then [[]]
    else
      var rest := Split(s[1..]);
      if s[0] == ' ' then [[]] + rest
      else [[s[0]] + rest[0]] + rest[1..]
  }

  /** `" ".join(ws)`. */
  function Join(ws: seq<string>): string {
    if ws == [] then []
    else if |ws| == 1 then ws[0]
    else ws[0] + " " + Join(ws[1..])
  }

  /** `sep.join(ws)` for an arbitrary separator. */
  function JoinWith(ws: seq<string>, sep: string): string {
    if ws == [] then []
    else if |ws| == 1 then ws[0]
    else ws[0] + sep + JoinWith(ws[1..], sep)
  }

  lemma JoinCons(w: string, rest: seq<string>)
    requires rest != []
    ensures Join([w] + rest) == w + " " + Join(rest)
  {
    assert ([w] + rest)[1..] == rest;
  }

  /** Prepending a character to the first word prepends it to the join. */
  lemma JoinPrepend(c: char, ws: seq<string>)
    requires ws != []
    ensures Join([[c] + ws[0]] + ws[1..]) == [c] + Join(ws)
  {
    if |ws| > 1 {
      JoinCons([c] + ws[0], ws[1..]);
      JoinCons(ws[0], ws[1..]);
      assert ws == [ws[0]] + ws[1..];
    }
  }

  /** `" ".join(s.split(" ")) == s`. */
  lemma {:induction false} JoinSplit(s: string)
    ensures Join(Split(s)) == s
  {
    if s != [] {
      JoinSplit(s[1..]);
      var rest := Split(s[1..]);
      if s[0] == ' ' {
        JoinCons([], rest);
      } else {
        JoinPrepend(s[0], rest);
      }
      assert s == [s[0]] + s[1..];
    }
  }

  predicate StartsWith(s: string, p: string) {
    |p| <= |s| && s[..|p|] == p
  }

  /** `s.replace(p, "")`: one left-to-right pass removing non-overlapping
      occurrences of `p`. */
  function RemoveAll(s: string, p: string): (r: string)
    requires p != []
    ensures |r| <= |s|
    decreases |s|
  {
    if s == [] then []
    else if StartsWith(s, p) then RemoveAll(s[|p|..], p)
    else [s[0]] + RemoveAll(s[1..], p)
  }

  /** `p` occurs nowhere in `s`. */
  predicate Absent(s: string, p: string) {
    forall i :: 0 <= i <= |s| ==> !StartsWith(s[i..], p)
  }

  /** Removing a pattern that does not occur changes nothing. */
  lemma {:induction false} RemoveAllAbsent(s: string, p: string)
    requires p != [] && Absent(s, p)
    ensures RemoveAll(s, p) == s
  {
    if s != [] {
      assert !StartsWith(s, p) by {
        assert s[0..] == s;
      }
      assert Absent(s[1..], p) by {
        forall i | 0 <= i <= |s[1..]| ensures !StartsWith(s[1..][i..], p) {
          assert s[1..][i..] == s[i + 1..];
        }
      }
      RemoveAllAbsent(s[1..], p);
      assert s == [s[0]] + s[1..];
    }
  }

  /** A leading occurrence is removed, and the pass continues after it. */
  lemma RemoveAllPrefix(p: string, x: string)
    requires p != []
    ensures RemoveAll(p + x, p) == RemoveAll(x, p)
  {
    assert StartsWith(p + x, p) && (p + x)[|p|..] == x;
    if x == [] {
      assert RemoveAll(x, p) == [];
    }
  }

  predicate IsDigit(c: char) { '0' <= c <= '9' }

  predicate AllDigits(s: string) {
    forall i :: 0 <= i < |s| ==> IsDigit(s[i])
  }

  function DigitChar(d: nat): char
    requires d < 10
  {
    "0123456789"[d]
  }

  /** `str(n)` (f-string `{n}`) for any `int`. */
  function IntToString(n: int): string
    decreases if n < 0 then 1 - n else n
  {
    if n < 0 then "-" + IntToString(-n)
    else if n < 10 then [DigitChar(n)]
    else IntToString(n / 10) + [DigitChar(n % 10)]
  }

  /** `str(n)` of a non-negative `n` is a non-empty run of digits. */
  lemma {:induction false} IntToStringDigits(n: nat)
    ensures |IntToString(n)| >= 1 && AllDigits(IntToString(n))
    decreases n
  {
    var d := n % 10;
    assert IsDigit(DigitChar(d)) by {
      assert d == 0 || d == 1 || d == 2 || d == 3 || d == 4 || d == 5 || d == 6 || d == 7 || d == 8 || d == 9;
    }
    if n >= 10 {
      IntToStringDigits(n / 10);
    }
  }

  /** Python's `s[:k]`: a negative `k` counts from the end, and both ends are
      clamped to the sequence. */
  function PyPrefix<T>(s: seq<T>, k: int): (r: seq<T>)
    ensures k >= 0 ==> |r| == Min(k, |s|)
    ensures k < 0 ==> |r| == Max(0, |s| + k)
    ensures r == s[..|r|]
  {
    if k >= 0 then s[..Min(k, |s|)] else s[..Max(0, |s| + k)]
  }
}
