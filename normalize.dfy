/** `_normalize_ws` of rag.py: strip, then replace every whitespace run by a
    single space. Every later stage (extraction fallbacks, chunking) decides on
    text in this form. */
module Whitespace {
  import opened Py

  /** Replaces each maximal whitespace run by one `' '` (`re.sub(r"\s+", " ", s)`). */
  function Collapse(s: string): string
    decreases |s|
  {
    if s == [] then []
    else if IsSpace(s[0]) then [' '] + Collapse(StripLeft(s))
    else [s[0]] + Collapse(s[1..])
  }

  function NormalizeWs(s: string): string {
    Collapse(Strip(s))
  }

  /** The shape `_normalize_ws` produces: the only whitespace is a single
      `' '` standing strictly inside the text, never next to another one. */
  ghost predicate Normalized(r: string) {
    SingleSpaced(r) && (r != [] ==> !IsSpace(r[0]))
  }

  /** Every whitespace character is a `' '` followed by a non-whitespace one. */
  ghost predicate SingleSpaced(r: string) {
    forall i :: 0 <= i < |r| && IsSpace(r[i]) ==>
      r[i] == ' ' && i < |r| - 1 && !IsSpace(r[i + 1])
  }

  lemma SingleSpacedTail(s: string)
    requires s != [] && SingleSpaced(s)
    ensures SingleSpaced(s[1..])
  {
    var t := s[1..];
    forall i | 0 <= i < |t| && IsSpace(t[i])
      ensures t[i] == ' ' && i < |t| - 1 && !IsSpace(t[i + 1])
    {
      assert t[i] == s[i + 1];
    }
  }

  /** The non-whitespace characters of `s`, in order. */
  function Dense(s: string): string {
    if s == [] then []
    else if IsSpace(s[0]) then Dense(s[1..])
    else [s[0]] + Dense(s[1..])
  }

  lemma {:induction false} DenseAppend(a: string, b: string)
    ensures Dense(a + b) == Dense(a) + Dense(b)
  {
    if a == [] {
      assert a + b == b;
    } else {
      var ab := a + b;
      assert ab[0] == a[0] && ab[1..] == a[1..] + b;
      DenseAppend(a[1..], b);
      if IsSpace(a[0]) {
        assert Dense(ab) == Dense(a[1..] + b);
      } else {
        assert Dense(ab) == [a[0]] + Dense(a[1..] + b);
      }
    }
  }

  lemma {:induction false} DenseAllSpace(s: string)
    ensures Dense(s) == [] <==> AllSpace(s)
  {
    if s != [] {
      DenseAllSpace(s[1..]);
      if IsSpace(s[0]) {
        assert AllSpace(s[1..]) ==> AllSpace(s) by {
          if AllSpace(s[1..]) {
            forall i | 0 <= i < |s| ensures IsSpace(s[i]) {
              if i > 0 { assert s[i] == s[1..][i - 1]; }
            }
          }
        }
      }
    }
  }

  /** Collapsing keeps a string without trailing whitespace in the normalized
      shape, except that a leading run becomes one leading `' '`. */
  lemma {:induction false} CollapseShape(s: string)
    requires s == [] || !IsSpace(s[|s| - 1])
    ensures var r := Collapse(s);
      && (r == [] <==> s == [])
      && (s != [] ==> (IsSpace(r[0]) <==> IsSpace(s[0])))
      && (r != [] ==> !IsSpace(r[|r| - 1]))
      && SingleSpaced(r)
  {
    if s != [] {
      if IsSpace(s[0]) {
        var t := StripLeft(s);
        StripLeftSplits(s);
        assert t != [];
        assert t[|t| - 1] == s[|s| - 1];
        CollapseShape(t);
        var r := Collapse(s);
        assert r == [' '] + Collapse(t);
        forall i | 0 <= i < |r| && IsSpace(r[i])
          ensures r[i] == ' ' && i < |r| - 1 && !IsSpace(r[i + 1])
        {
          if i > 0 { assert r[i] == Collapse(t)[i - 1]; }
        }
      } else {
        var t := s[1..];
        assert t == [] || t[|t| - 1] == s[|s| - 1];
        CollapseShape(t);
        var r := Collapse(s);
        assert r == [s[0]] + Collapse(t);
        forall i | 0 <= i < |r| && IsSpace(r[i])
          ensures r[i] == ' ' && i < |r| - 1 && !IsSpace(r[i + 1])
        {
          assert i > 0;
          assert r[i] == Collapse(t)[i - 1];
        }
      }
    }
  }

  lemma {:induction false} CollapseDense(s: string)
    ensures Dense(Collapse(s)) == Dense(s)
    decreases |s|
  {
    if s != [] {
      if IsSpace(s[0]) {
        var t := StripLeft(s);
        StripLeftSplits(s);
        CollapseDense(t);
        var a := s[..|s| - |t|];
        assert s == a + t;
        DenseAppend(a, t);
        DenseAllSpace(a);
        DenseAppend([' '], Collapse(t));
        assert Dense([' ']) == [];
      } else {
        CollapseDense(s[1..]);
      }
    }
  }

  /** On a string already in normalized shape, collapsing changes nothing. */
  lemma {:induction false} CollapseNormalized(s: string)
    requires SingleSpaced(s)
    ensures Collapse(s) == s
  {
    if s != [] {
      var t := s[1..];
      SingleSpacedTail(s);
      CollapseNormalized(t);
      if IsSpace(s[0]) {
        assert t != [] && !IsSpace(t[0]);
        assert StripLeft(t) == t;
        assert StripLeft(s) == t;
        assert Collapse(s) == [' '] + Collapse(t);
      } else {
        assert Collapse(s) == [s[0]] + t;
      }
      assert s == [s[0]] + t;
    }
  }

  /** `_normalize_ws` always yields the normalized shape: no leading or
      trailing whitespace and no two whitespace characters in a row. */
  lemma NormalizeWsShape(s: string)
    ensures Normalized(NormalizeWs(s))
  {
    var t := Strip(s);
    CollapseShape(t);
  }

  /** `_normalize_ws` keeps every non-whitespace character, in order. */
  lemma NormalizeWsDense(s: string)
    ensures Dense(NormalizeWs(s)) == Dense(s)
  {
    var t := Strip(s);
    CollapseDense(t);
    StripSplits(s);
    var a, b :| s == a + t + b && AllSpace(a) && AllSpace(b);
    DenseAppend(a + t, b);
    DenseAppend(a, t);
    DenseAllSpace(a);
    DenseAllSpace(b);
  }

  /** The result is empty exactly when the input is empty or only whitespace
      (`(text or "").strip()` is falsy). */
  lemma NormalizeWsEmpty(s: string)
    ensures NormalizeWs(s) == [] <==> AllSpace(s)
  {
    NormalizeWsDense(s);
    DenseAllSpace(s);
    DenseAllSpace(NormalizeWs(s));
    NormalizeWsShape(s);
  }

  /** Text already in normalized shape is returned unchanged. */
  lemma NormalizeWsFixed(s: string)
    requires Normalized(s)
    ensures NormalizeWs(s) == s
  {
    assert s == [] || (!IsSpace(s[0]) && !IsSpace(s[|s| - 1]));
    assert StripLeft(s) == s;
    assert StripRight(s) == s;
    CollapseNormalized(s);
  }

  /** Normalizing twice is normalizing once. */
  lemma NormalizeWsIdempotent(s: string)
    ensures NormalizeWs(NormalizeWs(s)) == NormalizeWs(s)
  {
    NormalizeWsShape(s);
    NormalizeWsFixed(NormalizeWs(s));
  }

  /** The words of `s`: its maximal runs of non-whitespace characters, in
      order. A non-whitespace character joins the word the next character
      starts, or is a word of its own when whitespace or the end follows. */
  function Words(s: string): (ws: seq<string>)
    ensures s != [] && !IsSpace(s[0]) ==> ws != []
  {
    if s == [] then []
    else
      var rest := Words(s[1..]);
      if IsSpace(s[0]) then rest
      else if |s| > 1 && !IsSpace(s[1]) then [[s[0]] + rest[0]] + rest[1..]
      else [[s[0]]] + rest
  }

  /** Every word is non-empty and holds no whitespace. */
  lemma {:induction false} WordsShape(s: string)
    ensures forall i :: 0 <= i < |Words(s)| ==>
      Words(s)[i] != [] && forall j :: 0 <= j < |Words(s)[i]| ==> !IsSpace(Words(s)[i][j])
  {
    if s != [] {
      WordsShape(s[1..]);
    }
  }

  /** Leading whitespace adds no word. */
  lemma {:induction false} WordsLeading(a: string, t: string)
    requires AllSpace(a)
    ensures Words(a + t) == Words(t)
  {
    if a != [] {
      assert (a + t)[0] == a[0] && (a + t)[1..] == a[1..] + t;
      WordsLeading(a[1..], t);
    } else {
      assert a + t == t;
    }
  }

  /** Trailing whitespace adds no word. */
  lemma {:induction false} WordsTrailing(t: string, b: string)
    requires AllSpace(b)
    ensures Words(t + b) == Words(t)
  {
    if t == [] {
      assert t + b == b + [];
      WordsLeading(b, []);
    } else {
      var tb := t + b;
      assert tb[0] == t[0] && tb[1..] == t[1..] + b;
      WordsTrailing(t[1..], b);
      if |t| == 1 {
        assert t[1..] + b == b + [];
        WordsLeading(b, []);
      } else {
        assert tb[1] == t[1];
      }
    }
  }

  /** `strip()` keeps the words. */
  lemma WordsStrip(s: string)
    ensures Words(Strip(s)) == Words(s)
  {
    var t := Strip(s);
    StripSplits(s);
    var a, b :| s == a + t + b && AllSpace(a) && AllSpace(b);
    assert s == a + (t + b);
    WordsLeading(a, t + b);
    WordsTrailing(t, b);
  }

  /** Collapsing starts with whitespace exactly when its input does. */
  lemma CollapseHead(s: string)
    requires s != []
    ensures Collapse(s) != [] && (IsSpace(Collapse(s)[0]) <==> IsSpace(s[0]))
  {
  }

  /** Collapsing whitespace runs keeps the words. */
  lemma {:induction false} WordsCollapse(s: string)
    ensures Words(Collapse(s)) == Words(s)
    decreases |s|
  {
    if s != [] {
      if IsSpace(s[0]) {
        var t := StripLeft(s);
        StripLeftSplits(s);
        WordsCollapse(t);
        var c := Collapse(t);
        assert ([' '] + c)[1..] == c;
        assert s == s[..|s| - |t|] + t;
        WordsLeading(s[..|s| - |t|], t);
      } else {
        var t := s[1..];
        WordsCollapse(t);
        var c := Collapse(t);
        var r := [s[0]] + c;
        assert Collapse(s) == r && r[1..] == c;
        if t != [] {
          CollapseHead(t);
          assert r[1] == c[0];
        }
      }
    }
  }

  /** Splitting single-spaced text at `' '` gives its words, with one empty
      word in front when it starts with the space. */
  lemma {:induction false} SplitWords(r: string)
    requires SingleSpaced(r)
    ensures Split(r) == if r != [] && !IsSpace(r[0]) then Words(r) else [[]] + Words(r)
  {
    if r != [] {
      var t := r[1..];
      SingleSpacedTail(r);
      SplitWords(t);
      var rest := Split(t);
      if IsSpace(r[0]) {
        assert r[0] == ' ' && t != [] && !IsSpace(t[0]);
        assert Split(r) == [[]] + rest;
      } else {
        assert r[0] != ' ' by { assert IsSpace(' '); }
        assert Split(r) == [[r[0]] + rest[0]] + rest[1..];
        if t == [] {
          assert rest == [[]] && [r[0]] + rest[0] == [r[0]];
          assert Words(r) == [[r[0]]] + Words(t);
        } else if IsSpace(t[0]) {
          assert rest == [[]] + Words(t);
          assert rest[0] == [] && rest[1..] == Words(t);
          assert [r[0]] + rest[0] == [r[0]];
          assert r[1] == t[0];
          assert Words(r) == [[r[0]]] + Words(t);
        } else {
          assert rest == Words(t);
          assert r[1] == t[0];
        }
      }
    }
  }

  /** The words `chunk_text` splits the normalized text into are the words of
      the input text. */
  lemma NormalizeWsWords(s: string)
    requires NormalizeWs(s) != []
    ensures Split(NormalizeWs(s)) == Words(s)
  {
    NormalizeWsShape(s);
    SplitWords(NormalizeWs(s));
    WordsCollapse(Strip(s));
    WordsStrip(s);
  }
}
