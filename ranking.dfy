/** The ranking step of `retrieve_bm25` in rag.py. BM25 itself is outside the
    model: the scores, one per loaded row, are an input. The rows are ordered
    by `sorted(..., key=score, reverse=True)`, which is stable, then cut with
    `[:top_k]`. A stable sort has exactly one possible output, so the model
    computes it with an insertion sort on row indices and proves that output
    is a permutation ordered by `Before` (higher score first, ties in row
    order). */
module Ranking {
  import opened Py
  import opened DocStore

  datatype RetrievedChunk = RetrievedChunk(documentId: int, chunkIndex: int, text: string, score: real)

  /** The row indices `lo, lo+1, ..., n-1`. */
  function Order(lo: nat, n: nat): seq<nat>
    decreases n - lo
  {
    if lo >= n then [] else [lo] + Order(lo + 1, n)
  }

  ghost predicate InBounds(s: seq<nat>, n: nat) {
    forall k :: 0 <= k < |s| ==> s[k] < n
  }

  /** Row `a` is listed before row `b` in the stable descending order. */
  ghost predicate Before(scores: seq<real>, a: nat, b: nat)
    requires a < |scores| && b < |scores|
  {
    scores[a] > scores[b] || (scores[a] == scores[b] && a < b)
  }

  ghost predicate SortedBy(scores: seq<real>, s: seq<nat>)
    requires InBounds(s, |scores|)
  {
    forall i, j :: 0 <= i < j < |s| ==> Before(scores, s[i], s[j])
  }

  /** Places `x` in front of the first index whose score is not above its own. */
  function Insert(scores: seq<real>, x: nat, s: seq<nat>): (r: seq<nat>)
    requires x < |scores| && InBounds(s, |scores|)
    ensures InBounds(r, |scores|)
    ensures multiset(r) == multiset(s) + multiset{x}
  {
    if s == [] then [x]
    else if scores[s[0]] <= scores[x] then [x] + s
    else
      assert s == [s[0]] + s[1..];
      [s[0]] + Insert(scores, x, s[1..])
  }

  function SortDesc(scores: seq<real>, xs: seq<nat>): (r: seq<nat>)
    requires InBounds(xs, |scores|)
    ensures InBounds(r, |scores|)
    ensures multiset(r) == multiset(xs)
  {
    if xs == [] then []
    else
      assert xs == [xs[0]] + xs[1..];
      Insert(scores, xs[0], SortDesc(scores, xs[1..]))
  }

  /** The row indices in the order `sorted(zip(range(n), scores), key=score,
      reverse=True)` lists them. */
  function Ranked(scores: seq<real>): (r: seq<nat>)
    ensures InBounds(r, |scores|)
  {
    OrderBounds(0, |scores|);
    SortDesc(scores, Order(0, |scores|))
  }

  lemma {:induction false} OrderBounds(lo: nat, n: nat)
    ensures InBounds(Order(lo, n), n)
    ensures forall k :: 0 <= k < |Order(lo, n)| ==> Order(lo, n)[k] == lo + k
    ensures |Order(lo, n)| == if lo >= n then 0 else n - lo
    decreases n - lo
  {
    if lo < n {
      OrderBounds(lo + 1, n);
    }
  }

  /** A row listed before `x` and before every row of `s` is listed before
      every row of `Insert(x, s)`. */
  lemma {:induction false} InsertAfter(scores: seq<real>, a: nat, x: nat, s: seq<nat>)
    requires a < |scores| && x < |scores| && InBounds(s, |scores|)
    requires Before(scores, a, x)
    requires forall k :: 0 <= k < |s| ==> Before(scores, a, s[k])
    ensures forall k :: 0 <= k < |Insert(scores, x, s)| ==> Before(scores, a, Insert(scores, x, s)[k])
  {
    if s != [] && scores[s[0]] > scores[x] {
      InsertAfter(scores, a, x, s[1..]);
    }
  }

  /** A row listed before every row of a sorted list heads a sorted list. */
  lemma SortedCons(scores: seq<real>, a: nat, s: seq<nat>)
    requires a < |scores| && InBounds(s, |scores|) && SortedBy(scores, s)
    requires forall k :: 0 <= k < |s| ==> Before(scores, a, s[k])
    ensures InBounds([a] + s, |scores|) && SortedBy(scores, [a] + s)
  {
    var r := [a] + s;
    forall i, j | 0 <= i < j < |r| ensures Before(scores, r[i], r[j]) {
      assert r[j] == s[j - 1];
      if i > 0 {
        assert r[i] == s[i - 1];
      }
    }
  }

  lemma InsertSorted(scores: seq<real>, x: nat, s: seq<nat>)
    requires x < |scores| && InBounds(s, |scores|)
    requires SortedBy(scores, s)
    requires forall k :: 0 <= k < |s| ==> x < s[k]
    ensures SortedBy(scores, Insert(scores, x, s))
    decreases |s|
  {
    if s == [] {
    } else if scores[s[0]] <= scores[x] {
      forall k | 0 <= k < |s| ensures Before(scores, x, s[k]) {
        if k > 0 {
          assert Before(scores, s[0], s[k]);
        }
      }
      SortedCons(scores, x, s);
    } else {
      InsertSorted(scores, x, s[1..]);
      InsertAfter(scores, s[0], x, s[1..]);
      SortedCons(scores, s[0], Insert(scores, x, s[1..]));
    }
  }

  /** Sorting indices listed in increasing order yields the stable order. */
  lemma {:induction false} SortDescSorted(scores: seq<real>, xs: seq<nat>)
    requires InBounds(xs, |scores|)
    requires forall i, j :: 0 <= i < j < |xs| ==> xs[i] < xs[j]
    ensures SortedBy(scores, SortDesc(scores, xs))
  {
    if xs != [] {
      var tail := xs[1..];
      var rest := SortDesc(scores, tail);
      SortDescSorted(scores, tail);
      forall k | 0 <= k < |rest| ensures xs[0] < rest[k] {
        assert rest[k] in multiset(tail);
        var j :| 0 <= j < |tail| && tail[j] == rest[k];
        assert xs[j + 1] == rest[k];
      }
      InsertSorted(scores, xs[0], rest);
    }
  }

  /** `Ranked` lists every row index exactly once, higher scores first and
      equal scores in row order. */
  lemma RankedSpec(scores: seq<real>)
    ensures multiset(Ranked(scores)) == multiset(Order(0, |scores|))
    ensures |Ranked(scores)| == |scores|
    ensures SortedBy(scores, Ranked(scores))
  {
    OrderBounds(0, |scores|);
    var o := Order(0, |scores|);
    assert |multiset(Ranked(scores))| == |multiset(o)|;
    SortDescSorted(scores, o);
  }

  function Result(row: Row, score: real): RetrievedChunk {
    RetrievedChunk(row.documentId, row.chunkIndex, row.text, score)
  }

  /** The loop that builds `out`: one result per kept index, in order. */
  function Results(rows: seq<Row>, scores: seq<real>, ix: seq<nat>): (r: seq<RetrievedChunk>)
    requires |scores| == |rows| && InBounds(ix, |rows|)
    ensures |r| == |ix|
    ensures forall k :: 0 <= k < |ix| ==> r[k] == Result(rows[ix[k]], scores[ix[k]])
  {
    if ix == [] then []
    else [Result(rows[ix[0]], scores[ix[0]])] + Results(rows, scores, ix[1..])
  }

  /** `retrieve_bm25` over the loaded `rows` with their BM25 `scores`: no
      rows, no results; otherwise the ranked rows cut by `[:top_k]`. */
  function Retrieve(rows: seq<Row>, scores: seq<real>, topK: int): (r: seq<RetrievedChunk>)
    requires |scores| == |rows|
    ensures topK >= 0 ==> |r| == Min(topK, |rows|)
    ensures topK < 0 ==> |r| == Max(0, |rows| + topK)
  {
    if rows == [] then []
    else
      var ix := Kept(scores, topK);
      RankedSpec(scores);
      assert InBounds(ix, |rows|) by {
        forall k | 0 <= k < |ix| ensures ix[k] < |rows| {
          assert ix[k] == Ranked(scores)[k];
        }
      }
      Results(rows, scores, ix)
  }

  /** The indices `Retrieve` keeps: a prefix of `Ranked`. */
  function Kept(scores: seq<real>, topK: int): (ix: seq<nat>) {
    PyPrefix(Ranked(scores), topK)
  }

  /** The kept indices are valid rows, listed in the stable descending order. */
  lemma KeptSorted(scores: seq<real>, topK: int)
    ensures InBounds(Kept(scores, topK), |scores|)
    ensures forall i, j :: 0 <= i < j < |Kept(scores, topK)| ==> Before(scores, Kept(scores, topK)[i], Kept(scores, topK)[j])
  {
    var ranked := Ranked(scores);
    RankedSpec(scores);
    var ix := Kept(scores, topK);
    forall k | 0 <= k < |ix| ensures ix[k] == ranked[k] {
    }
  }

  /** Result `k` is row `Kept[k]` with its score and fields; the results run
      in descending score, equal scores in row order, no row twice. */
  lemma RetrieveOrdered(rows: seq<Row>, scores: seq<real>, topK: int)
    requires |scores| == |rows| && rows != []
    ensures var r := Retrieve(rows, scores, topK);
      var ix := Kept(scores, topK);
      && |ix| == |r|
      && (forall k :: 0 <= k < |r| ==> ix[k] < |rows| && r[k] == Result(rows[ix[k]], scores[ix[k]]))
      && (forall i, j :: 0 <= i < j < |r| ==> r[i].score >= r[j].score)
      && (forall i, j :: 0 <= i < j < |r| && r[i].score == r[j].score ==> ix[i] < ix[j])
      && (forall i, j :: 0 <= i < j < |r| ==> ix[i] != ix[j])
  {
    KeptSorted(scores, topK);
    var ix := Kept(scores, topK);
    var r := Retrieve(rows, scores, topK);
    assert r == Results(rows, scores, ix);
  }

  /** Truncation keeps the best: a row left out scores no higher than any
      row kept. */
  lemma RetrieveTop(rows: seq<Row>, scores: seq<real>, topK: int, j: nat)
    requires |scores| == |rows| && j < |rows|
    requires j !in Kept(scores, topK)
    ensures forall k :: 0 <= k < |Retrieve(rows, scores, topK)| ==>
      Retrieve(rows, scores, topK)[k].score >= scores[j]
  {
    var ranked := Ranked(scores);
    RankedSpec(scores);
    OrderBounds(0, |scores|);
    var o := Order(0, |scores|);
    assert o[j] == j;
    assert j in multiset(ranked);
    var p :| 0 <= p < |ranked| && ranked[p] == j;
    var ix := Kept(scores, topK);
    assert p >= |ix|;
    var r := Retrieve(rows, scores, topK);
    forall k | 0 <= k < |r| ensures r[k].score >= scores[j] {
      assert ix[k] == ranked[k];
      assert Before(scores, ranked[k], ranked[p]);
    }
  }
}
