/** `make_context` of rag.py: packs retrieved chunks into one context block
    under a global character budget and a per-chunk cap. The limits that the
    source reads from the environment (`RAG_CONTEXT_CHARS`,
    `RAG_PER_CHUNK_MAX_CHARS`) are parameters here. */
module Packing {
  import opened Py
  import opened Ranking

  /** One packed part before it is rendered: the chunk's ids and the text kept. */
  datatype Piece = Piece(documentId: int, chunkIndex: int, body: string)

  /** The characters set aside for each part's tag. */
  const Overhead: int := 50

  /** The per-chunk cap (when positive), then the budget: what is kept is
      the longest prefix that fits both. */
  function Cut(s: string, cap: int, budget: int): (b: string)
    requires budget > 0
    ensures |b| == Min(|s|, if cap > 0 then Min(cap, budget) else budget)
    ensures b == s[..|b|]
  {
    var s1 := if cap > 0 && |s| > cap then s[..cap] else s;
    if |s1| > budget then s1[..budget] else s1
  }

  /** Each chunk's text after `strip()`. */
  function Stripped(chunks: seq<RetrievedChunk>): (r: seq<string>)
    ensures |r| == |chunks|
  {
    if chunks == [] then [] else [Strip(chunks[0].text)] + Stripped(chunks[1..])
  }

  lemma {:induction false} StrippedAt(chunks: seq<RetrievedChunk>, k: nat)
    requires k < |chunks|
    ensures Stripped(chunks)[k] == Strip(chunks[k].text)
  {
    if k > 0 {
      StrippedAt(chunks[1..], k - 1);
    }
  }

  /** The parts the loop packs from chunk `i` on, with `total` characters
      already counted and `bodies` the stripped chunk texts: blank chunks are
      skipped, the first chunk met with no budget left ends the packing. */
  function Pack(chunks: seq<RetrievedChunk>, bodies: seq<string>, i: nat, maxChars: int, cap: int, total: int): seq<Piece>
    requires |bodies| == |chunks|
    decreases |chunks| - i
  {
    if i >= |chunks| then []
    else
      var s := bodies[i];
      if s == [] then Pack(chunks, bodies, i + 1, maxChars, cap, total)
      else
        var budget := maxChars - total - Overhead;
        if budget <= 0 then []
        else
          var body := Cut(s, cap, budget);
          [Piece(chunks[i].documentId, chunks[i].chunkIndex, body)]
          + Pack(chunks, bodies, i + 1, maxChars, cap, total + |body| + 1)
  }

  /** `f"[doc={document_id} chunk={chunk_index}] {s}"`. */
  function Tag(p: Piece): string {
    "[doc=" + IntToString(p.documentId) + " chunk=" + IntToString(p.chunkIndex) + "] " + p.body
  }

  function Tags(ps: seq<Piece>): (ts: seq<string>)
    ensures |ts| == |ps|
  {
    if ps == [] then [] else [Tag(ps[0])] + Tags(ps[1..])
  }

  /** The parts `make_context(chunks, maxChars)` packs under cap `cap`. */
  function Packed(chunks: seq<RetrievedChunk>, maxChars: int, cap: int): seq<Piece> {
    Pack(chunks, Stripped(chunks), 0, maxChars, cap, 0)
  }

  /** What `make_context(chunks, maxChars)` returns under cap `cap`. */
  function Context(chunks: seq<RetrievedChunk>, maxChars: int, cap: int): string {
    JoinWith(Tags(Packed(chunks, maxChars, cap)), "\n\n")
  }

  lemma {:induction false} TagsSnoc(ps: seq<Piece>, p: Piece)
    ensures Tags(ps + [p]) == Tags(ps) + [Tag(p)]
  {
    if ps != [] {
      TagsSnoc(ps[1..], p);
      assert (ps + [p])[1..] == ps[1..] + [p];
    } else {
      assert [] + [p] == [p];
    }
  }

  /** What one turn of the loop decides for chunk `i`. */
  datatype Turn = Skip | Stop | Keep(piece: Piece)

  /** The body of the `for` loop up to the append: strip the text, skip it
      when blank, stop when no budget is left, else cut it to the cap and to
      the budget. */
  method NextPiece(chunks: seq<RetrievedChunk>, ghost bodies: seq<string>, i: nat,
                   maxChars: int, cap: int, total: int) returns (t: Turn)
    requires bodies == Stripped(chunks) && i < |chunks|
    ensures t.Skip? ==> Pack(chunks, bodies, i, maxChars, cap, total) == Pack(chunks, bodies, i + 1, maxChars, cap, total)
    ensures t.Stop? ==> Pack(chunks, bodies, i, maxChars, cap, total) == []
    ensures t.Keep? ==> Pack(chunks, bodies, i, maxChars, cap, total)
                        == [t.piece] + Pack(chunks, bodies, i + 1, maxChars, cap, total + |t.piece.body| + 1)
  {
    var s := Strip(chunks[i].text);
    StrippedAt(chunks, i);
    if s == [] {
      return Skip;
    }
    var budget := maxChars - total - 50;
    if budget <= 0 {
      return Stop;
    }
    if cap > 0 && |s| > cap {
      s := s[..cap];
    }
    if |s| > budget {
      s := s[..budget];
    }
    assert s == Cut(bodies[i], cap, budget);
    return Keep(Piece(chunks[i].documentId, chunks[i].chunkIndex, s));
  }

  /** Moving the next part from the pending list to the packed one. */
  lemma Shift(done: seq<Piece>, p: Piece, rest: seq<Piece>, all: seq<Piece>)
    requires done + ([p] + rest) == all
    ensures (done + [p]) + rest == all
  {
    assert (done + [p]) + rest == done + ([p] + rest);
  }

  /** The `for` loop of `make_context`; the ghost `done` holds the parts
      packed so far. */
  method MakeContext(chunks: seq<RetrievedChunk>, maxChars: int, cap: int) returns (ctx: string)
    ensures ctx == Context(chunks, maxChars, cap)
  {
    var parts: seq<string> := [];
    var total := 0;
    ghost var bodies := Stripped(chunks);
    ghost var all := Pack(chunks, bodies, 0, maxChars, cap, 0);
    ghost var done: seq<Piece> := [];
    for i := 0 to |chunks|
      invariant done + Pack(chunks, bodies, i, maxChars, cap, total) == all
      invariant parts == Tags(done)
    {
      var t := NextPiece(chunks, bodies, i, maxChars, cap, total);
      if t.Skip? {
        continue;
      }
      if t.Stop? {
        assert done + [] == done;
        break;
      }
      var p := t.piece;
      Shift(done, p, Pack(chunks, bodies, i + 1, maxChars, cap, total + |p.body| + 1), all);
      TagsSnoc(done, p);
      parts := parts + [Tag(p)];
      done := done + [p];
      total := total + |p.body| + 1;
    }
    assert done == all;
    ctx := JoinWith(parts, "\n\n");
  }

  /** The characters the loop adds to `total` for the parts: each kept text
      plus one. */
  function Used(ps: seq<Piece>): (n: int)
    ensures n >= |ps|
  {
    if ps == [] then 0 else |ps[0].body| + 1 + Used(ps[1..])
  }

  /** Part `q` was cut from chunk `c` whose stripped text is `s`: same ids,
      and its text is a non-empty prefix of `s`, within the cap when there is
      one. */
  ghost predicate CutOf(q: Piece, c: RetrievedChunk, s: string, cap: int) {
    && q.documentId == c.documentId && q.chunkIndex == c.chunkIndex
    && q.body != [] && |q.body| <= |s| && q.body == s[..|q.body|]
    && (cap > 0 ==> |q.body| <= cap)
  }

  /** The chunk index each part of `Pack` is cut from. */
  ghost function Origins(chunks: seq<RetrievedChunk>, bodies: seq<string>, i: nat,
                         maxChars: int, cap: int, total: int): seq<nat>
    requires |bodies| == |chunks|
    decreases |chunks| - i
  {
    if i >= |chunks| then []
    else if bodies[i] == [] then Origins(chunks, bodies, i + 1, maxChars, cap, total)
    else
      var budget := maxChars - total - Overhead;
      if budget <= 0 then []
      else [i] + Origins(chunks, bodies, i + 1, maxChars, cap, total + |Cut(bodies[i], cap, budget)| + 1)
  }

  /** With the budget spent, nothing more is packed. */
  lemma {:induction false} PackSpent(chunks: seq<RetrievedChunk>, bodies: seq<string>, i: nat,
                                     maxChars: int, cap: int, total: int)
    requires |bodies| == |chunks| && maxChars - total - Overhead <= 0
    ensures Pack(chunks, bodies, i, maxChars, cap, total) == []
    decreases |chunks| - i
  {
    if i < |chunks| && bodies[i] == [] {
      PackSpent(chunks, bodies, i + 1, maxChars, cap, total);
    }
  }

  /** Once anything is packed, the running total ends at most
      `maxChars - Overhead + 1`. */
  lemma {:induction false} PackBudget(chunks: seq<RetrievedChunk>, bodies: seq<string>, i: nat,
                                      maxChars: int, cap: int, total: int)
    requires |bodies| == |chunks|
    ensures var ps := Pack(chunks, bodies, i, maxChars, cap, total);
      ps != [] ==> total + Used(ps) <= maxChars - Overhead + 1
    decreases |chunks| - i
  {
    if i < |chunks| {
      if bodies[i] == [] {
        PackBudget(chunks, bodies, i + 1, maxChars, cap, total);
      } else if maxChars - total - Overhead > 0 {
        var body := Cut(bodies[i], cap, maxChars - total - Overhead);
        PackBudget(chunks, bodies, i + 1, maxChars, cap, total + |body| + 1);
      }
    }
  }

  /** Part `j` is cut from chunk `Origins[j]`; the origins are at or after
      `i` and strictly increasing. */
  lemma {:induction false} PackOrigins(chunks: seq<RetrievedChunk>, bodies: seq<string>, i: nat,
                                       maxChars: int, cap: int, total: int)
    requires |bodies| == |chunks|
    ensures var ps := Pack(chunks, bodies, i, maxChars, cap, total);
      var ks := Origins(chunks, bodies, i, maxChars, cap, total);
      && |ks| == |ps|
      && (forall j :: 0 <= j < |ks| ==> i <= ks[j] < |chunks| && CutOf(ps[j], chunks[ks[j]], bodies[ks[j]], cap))
      && (forall j1, j2 :: 0 <= j1 < j2 < |ks| ==> ks[j1] < ks[j2])
    decreases |chunks| - i
  {
    if i < |chunks| {
      if bodies[i] == [] {
        PackOrigins(chunks, bodies, i + 1, maxChars, cap, total);
      } else if maxChars - total - Overhead > 0 {
        var body := Cut(bodies[i], cap, maxChars - total - Overhead);
        PackOrigins(chunks, bodies, i + 1, maxChars, cap, total + |body| + 1);
        PackOriginsCons(chunks, bodies, i, cap, Piece(chunks[i].documentId, chunks[i].chunkIndex, body),
                        Pack(chunks, bodies, i + 1, maxChars, cap, total + |body| + 1),
                        Origins(chunks, bodies, i + 1, maxChars, cap, total + |body| + 1));
      }
    }
  }

  lemma PackOriginsCons(chunks: seq<RetrievedChunk>, bodies: seq<string>, i: nat, cap: int,
                        q: Piece, ps: seq<Piece>, ks: seq<nat>)
    requires |bodies| == |chunks| && i < |chunks| && CutOf(q, chunks[i], bodies[i], cap)
    requires |ks| == |ps|
    requires forall j :: 0 <= j < |ks| ==> i + 1 <= ks[j] < |chunks| && CutOf(ps[j], chunks[ks[j]], bodies[ks[j]], cap)
    requires forall j1, j2 :: 0 <= j1 < j2 < |ks| ==> ks[j1] < ks[j2]
    ensures var ps', ks' := [q] + ps, [i] + ks;
      && (forall j :: 0 <= j < |ks'| ==> i <= ks'[j] < |chunks| && CutOf(ps'[j], chunks[ks'[j]], bodies[ks'[j]], cap))
      && (forall j1, j2 :: 0 <= j1 < j2 < |ks'| ==> ks'[j1] < ks'[j2])
  {
    var ps', ks' := [q] + ps, [i] + ks;
    forall j | 0 < j < |ks'| ensures ks'[j] == ks[j - 1] && ps'[j] == ps[j - 1] { }
  }

  lemma UsedCons(q: Piece, ps: seq<Piece>, j: nat)
    requires 0 < j <= |ps| + 1
    ensures Used(([q] + ps)[..j]) == |q.body| + 1 + Used(ps[..j - 1])
  {
    assert ([q] + ps)[..j] == [q] + ps[..j - 1];
    assert ([q] + ps[..j - 1])[1..] == ps[..j - 1];
  }

  /** Part `j` was cut from chunk `ks[j]` to `Min(|text|, cap, room)`
      characters (the cap only when positive), where the room left before
      it, `maxChars - 50 - total` less what the earlier parts used, was
      positive. */
  ghost predicate Sized(ps: seq<Piece>, ks: seq<nat>, bodies: seq<string>, maxChars: int, cap: int, total: int) {
    |ks| == |ps| && forall j :: 0 <= j < |ps| ==> SizedAt(ps, ks, bodies, maxChars, cap, total, j)
  }

  ghost predicate SizedAt(ps: seq<Piece>, ks: seq<nat>, bodies: seq<string>, maxChars: int, cap: int, total: int, j: nat)
    requires j < |ps| && |ks| == |ps|
  {
    && ks[j] < |bodies|
    && var room := maxChars - Overhead - total - Used(ps[..j]);
       room > 0 && |ps[j].body| == Min(|bodies[ks[j]]|, if cap > 0 then Min(cap, room) else room)
  }

  lemma SizedCons(q: Piece, ps: seq<Piece>, ks: seq<nat>, i: nat, bodies: seq<string>,
                  maxChars: int, cap: int, total: int)
    requires i < |bodies| && maxChars - Overhead - total > 0
    requires |q.body| == Min(|bodies[i]|, if cap > 0 then Min(cap, maxChars - Overhead - total) else maxChars - Overhead - total)
    requires Sized(ps, ks, bodies, maxChars, cap, total + |q.body| + 1)
    ensures Sized([q] + ps, [i] + ks, bodies, maxChars, cap, total)
  {
    var ps', ks' := [q] + ps, [i] + ks;
    forall j | 0 <= j < |ps'| ensures SizedAt(ps', ks', bodies, maxChars, cap, total, j) {
      if j == 0 {
        assert ps'[..0] == [];
      } else {
        UsedCons(q, ps, j);
        assert ps'[j] == ps[j - 1] && ks'[j] == ks[j - 1];
        assert SizedAt(ps, ks, bodies, maxChars, cap, total + |q.body| + 1, j - 1);
      }
    }
  }


  /** One kept part: `Pack` and `Origins` from `i` on, spelled out. */
  lemma PackKeep(chunks: seq<RetrievedChunk>, bodies: seq<string>, i: nat, maxChars: int, cap: int, total: int)
    requires |bodies| == |chunks| && i < |chunks| && bodies[i] != [] && maxChars - total - Overhead > 0
    ensures var body := Cut(bodies[i], cap, maxChars - total - Overhead);
      var t := total + |body| + 1;
      && Pack(chunks, bodies, i, maxChars, cap, total)
         == [Piece(chunks[i].documentId, chunks[i].chunkIndex, body)] + Pack(chunks, bodies, i + 1, maxChars, cap, t)
      && Origins(chunks, bodies, i, maxChars, cap, total) == [i] + Origins(chunks, bodies, i + 1, maxChars, cap, t)
  {
  }

  lemma SizedKeep(chunks: seq<RetrievedChunk>, bodies: seq<string>, i: nat, maxChars: int, cap: int, total: int)
    requires |bodies| == |chunks| && i < |chunks| && bodies[i] != [] && maxChars - total - Overhead > 0
    requires var t := total + |Cut(bodies[i], cap, maxChars - total - Overhead)| + 1;
      Sized(Pack(chunks, bodies, i + 1, maxChars, cap, t), Origins(chunks, bodies, i + 1, maxChars, cap, t),
            bodies, maxChars, cap, t)
    ensures Sized(Pack(chunks, bodies, i, maxChars, cap, total), Origins(chunks, bodies, i, maxChars, cap, total),
                  bodies, maxChars, cap, total)
  {
    var body := Cut(bodies[i], cap, maxChars - total - Overhead);
    var t := total + |body| + 1;
    PackKeep(chunks, bodies, i, maxChars, cap, total);
    SizedCons(Piece(chunks[i].documentId, chunks[i].chunkIndex, body),
              Pack(chunks, bodies, i + 1, maxChars, cap, t), Origins(chunks, bodies, i + 1, maxChars, cap, t),
              i, bodies, maxChars, cap, total);
  }

  /** The parts of `Pack` are sized by the room left before each. */
  lemma {:induction false} PackLengths(chunks: seq<RetrievedChunk>, bodies: seq<string>, i: nat,
                                       maxChars: int, cap: int, total: int)
    requires |bodies| == |chunks|
    ensures Sized(Pack(chunks, bodies, i, maxChars, cap, total), Origins(chunks, bodies, i, maxChars, cap, total),
                  bodies, maxChars, cap, total)
    decreases |chunks| - i
  {
    if i < |chunks| && bodies[i] == [] {
      PackLengths(chunks, bodies, i + 1, maxChars, cap, total);
    } else if i < |chunks| && maxChars - total - Overhead > 0 {
      PackLengths(chunks, bodies, i + 1, maxChars, cap, total + |Cut(bodies[i], cap, maxChars - total - Overhead)| + 1);
      SizedKeep(chunks, bodies, i, maxChars, cap, total);
    } else {
      assert Pack(chunks, bodies, i, maxChars, cap, total) == [];
      assert Origins(chunks, bodies, i, maxChars, cap, total) == [];
    }
  }

  /** A chunk from `i` on that is not blank and that no part comes from lies
      after every packed chunk, and no room was left after the parts. */
  ghost predicate Complete(ps: seq<Piece>, ks: seq<nat>, bodies: seq<string>, i: nat, maxChars: int, total: int) {
    forall k :: i <= k < |bodies| && bodies[k] != [] && k !in ks ==>
      && (forall j :: 0 <= j < |ks| ==> ks[j] < k)
      && maxChars - Overhead - total - Used(ps) <= 0
  }

  lemma CompleteCons(q: Piece, ps: seq<Piece>, ks: seq<nat>, i: nat, bodies: seq<string>, maxChars: int, total: int)
    requires Complete(ps, ks, bodies, i + 1, maxChars, total + |q.body| + 1)
    ensures Complete([q] + ps, [i] + ks, bodies, i, maxChars, total)
  {
    assert ([q] + ps)[1..] == ps;
    forall j | 0 < j < |[i] + ks| ensures ([i] + ks)[j] == ks[j - 1] { }
  }

  /** The chunks `Pack` leaves out that are not blank come after the parts,
      once the budget is spent. */
  lemma {:induction false} PackComplete(chunks: seq<RetrievedChunk>, bodies: seq<string>, i: nat,
                                        maxChars: int, cap: int, total: int)
    requires |bodies| == |chunks|
    ensures Complete(Pack(chunks, bodies, i, maxChars, cap, total), Origins(chunks, bodies, i, maxChars, cap, total),
                     bodies, i, maxChars, total)
    decreases |chunks| - i
  {
    if i < |chunks| && bodies[i] == [] {
      PackComplete(chunks, bodies, i + 1, maxChars, cap, total);
      CompleteSkip(Pack(chunks, bodies, i, maxChars, cap, total), Origins(chunks, bodies, i, maxChars, cap, total),
                   bodies, i, maxChars, total);
    } else if i < |chunks| && maxChars - total - Overhead > 0 {
      PackComplete(chunks, bodies, i + 1, maxChars, cap, total + |Cut(bodies[i], cap, maxChars - total - Overhead)| + 1);
      CompleteKeep(chunks, bodies, i, maxChars, cap, total);
    } else {
      assert Pack(chunks, bodies, i, maxChars, cap, total) == [];
      assert Origins(chunks, bodies, i, maxChars, cap, total) == [];
    }
  }

  lemma CompleteSkip(ps: seq<Piece>, ks: seq<nat>, bodies: seq<string>, i: nat, maxChars: int, total: int)
    requires i < |bodies| && bodies[i] == [] && Complete(ps, ks, bodies, i + 1, maxChars, total)
    ensures Complete(ps, ks, bodies, i, maxChars, total)
  {
  }

  lemma CompleteKeep(chunks: seq<RetrievedChunk>, bodies: seq<string>, i: nat, maxChars: int, cap: int, total: int)
    requires |bodies| == |chunks| && i < |chunks| && bodies[i] != [] && maxChars - total - Overhead > 0
    requires var t := total + |Cut(bodies[i], cap, maxChars - total - Overhead)| + 1;
      Complete(Pack(chunks, bodies, i + 1, maxChars, cap, t), Origins(chunks, bodies, i + 1, maxChars, cap, t),
               bodies, i + 1, maxChars, t)
    ensures Complete(Pack(chunks, bodies, i, maxChars, cap, total), Origins(chunks, bodies, i, maxChars, cap, total),
                     bodies, i, maxChars, total)
  {
    var body := Cut(bodies[i], cap, maxChars - total - Overhead);
    var t := total + |body| + 1;
    PackKeep(chunks, bodies, i, maxChars, cap, total);
    CompleteCons(Piece(chunks[i].documentId, chunks[i].chunkIndex, body),
                 Pack(chunks, bodies, i + 1, maxChars, cap, t), Origins(chunks, bodies, i + 1, maxChars, cap, t),
                 i, bodies, maxChars, total);
  }

  /** Nothing is packed exactly when the budget is spent before the first
      part (`maxChars <= 50`) or every chunk is blank after stripping. */
  lemma {:induction false} PackEmpty(chunks: seq<RetrievedChunk>, bodies: seq<string>, i: nat,
                                     maxChars: int, cap: int, total: int)
    requires |bodies| == |chunks|
    ensures Pack(chunks, bodies, i, maxChars, cap, total) == []
        <==> maxChars - total - Overhead <= 0 || forall k :: i <= k < |chunks| ==> bodies[k] == []
    decreases |chunks| - i
  {
    if i < |chunks| && bodies[i] == [] {
      PackEmpty(chunks, bodies, i + 1, maxChars, cap, total);
      if forall k :: i + 1 <= k < |chunks| ==> bodies[k] == [] {
        assert forall k :: i <= k < |chunks| ==> bodies[k] == [];
      }
    }
  }

  /** Every part was cut, in chunk order, from a distinct chunk that is not
      blank after stripping: it carries that chunk's ids and a non-empty
      prefix of its stripped text, of at most `cap` characters when the cap
      is positive. */
  lemma ContextOrigins(chunks: seq<RetrievedChunk>, maxChars: int, cap: int)
    ensures var ps := Packed(chunks, maxChars, cap);
      var ks := Origins(chunks, Stripped(chunks), 0, maxChars, cap, 0);
      && |ks| == |ps|
      && (forall j :: 0 <= j < |ks| ==> ks[j] < |chunks| && CutOf(ps[j], chunks[ks[j]], Strip(chunks[ks[j]].text), cap))
      && (forall j1, j2 :: 0 <= j1 < j2 < |ks| ==> ks[j1] < ks[j2])
  {
    var bodies := Stripped(chunks);
    PackOrigins(chunks, bodies, 0, maxChars, cap, 0);
    forall k | 0 <= k < |chunks| ensures bodies[k] == Strip(chunks[k].text) {
      StrippedAt(chunks, k);
    }
  }

  /** `bodies` holds each chunk's text after `strip()`. */
  ghost predicate StrippedTexts(chunks: seq<RetrievedChunk>, bodies: seq<string>) {
    |bodies| == |chunks| && forall k :: 0 <= k < |chunks| ==> bodies[k] == Strip(chunks[k].text)
  }

  lemma StrippedIsStripped(chunks: seq<RetrievedChunk>)
    ensures StrippedTexts(chunks, Stripped(chunks))
  {
    forall k | 0 <= k < |chunks| ensures Stripped(chunks)[k] == Strip(chunks[k].text) {
      StrippedAt(chunks, k);
    }
  }

  /** Part `j` keeps `Min(|text|, cap, maxChars - 50 - Used(earlier parts))`
      characters of its chunk's stripped text, the cap counting only when
      positive, and that room is positive. */
  lemma ContextLengths(chunks: seq<RetrievedChunk>, maxChars: int, cap: int)
    ensures var ps := Packed(chunks, maxChars, cap);
      var ks := Origins(chunks, Stripped(chunks), 0, maxChars, cap, 0);
      && |ks| == |ps|
      && forall j :: 0 <= j < |ps| ==>
           && ks[j] < |chunks|
           && var room := maxChars - Overhead - Used(ps[..j]);
              room > 0 && |ps[j].body| == Min(|Strip(chunks[ks[j]].text)|, if cap > 0 then Min(cap, room) else room)
  {
    var bodies := Stripped(chunks);
    PackLengths(chunks, bodies, 0, maxChars, cap, 0);
    StrippedIsStripped(chunks);
    SizedTexts(chunks, bodies, Packed(chunks, maxChars, cap), Origins(chunks, bodies, 0, maxChars, cap, 0), maxChars, cap);
  }

  lemma SizedTexts(chunks: seq<RetrievedChunk>, bodies: seq<string>, ps: seq<Piece>, ks: seq<nat>, maxChars: int, cap: int)
    requires StrippedTexts(chunks, bodies) && Sized(ps, ks, bodies, maxChars, cap, 0)
    ensures forall j :: 0 <= j < |ps| ==>
      && ks[j] < |chunks|
      && var room := maxChars - Overhead - Used(ps[..j]);
         room > 0 && |ps[j].body| == Min(|Strip(chunks[ks[j]].text)|, if cap > 0 then Min(cap, room) else room)
  {
    forall j | 0 <= j < |ps|
      ensures && ks[j] < |chunks|
              && var room := maxChars - Overhead - Used(ps[..j]);
                 room > 0 && |ps[j].body| == Min(|Strip(chunks[ks[j]].text)|, if cap > 0 then Min(cap, room) else room)
    {
      assert SizedAt(ps, ks, bodies, maxChars, cap, 0, j);
      assert bodies[ks[j]] == Strip(chunks[ks[j]].text);
    }
  }

  /** The parts come from exactly the chunks not blank after stripping that
      precede the point where the budget ran out: such a chunk that no part
      comes from lies after every packed one, and no room was left. */
  lemma ContextComplete(chunks: seq<RetrievedChunk>, maxChars: int, cap: int)
    ensures var ps := Packed(chunks, maxChars, cap);
      var ks := Origins(chunks, Stripped(chunks), 0, maxChars, cap, 0);
      forall k :: 0 <= k < |chunks| && Strip(chunks[k].text) != [] && k !in ks ==>
        (forall j :: 0 <= j < |ks| ==> ks[j] < k) && maxChars - Overhead - Used(ps) <= 0
  {
    var bodies := Stripped(chunks);
    PackComplete(chunks, bodies, 0, maxChars, cap, 0);
    StrippedIsStripped(chunks);
    CompleteTexts(chunks, bodies, Packed(chunks, maxChars, cap), Origins(chunks, bodies, 0, maxChars, cap, 0), maxChars);
  }

  lemma CompleteTexts(chunks: seq<RetrievedChunk>, bodies: seq<string>, ps: seq<Piece>, ks: seq<nat>, maxChars: int)
    requires StrippedTexts(chunks, bodies) && Complete(ps, ks, bodies, 0, maxChars, 0)
    ensures forall k :: 0 <= k < |chunks| && Strip(chunks[k].text) != [] && k !in ks ==>
      (forall j :: 0 <= j < |ks| ==> ks[j] < k) && maxChars - Overhead - Used(ps) <= 0
  {
  }

  /** The running total never passes `maxChars - 49`: the kept texts plus
      one character each fit the budget. */
  lemma ContextBudget(chunks: seq<RetrievedChunk>, maxChars: int, cap: int)
    ensures Used(Packed(chunks, maxChars, cap)) <= Max(0, maxChars - Overhead + 1)
  {
    PackBudget(chunks, Stripped(chunks), 0, maxChars, cap, 0);
  }

  /** The context is "" exactly when no part is packed: `maxChars <= 50`, or
      every chunk is blank after stripping. */
  lemma ContextEmpty(chunks: seq<RetrievedChunk>, maxChars: int, cap: int)
    ensures Context(chunks, maxChars, cap) == []
        <==> maxChars <= Overhead || forall k :: 0 <= k < |chunks| ==> Strip(chunks[k].text) == []
  {
    var bodies := Stripped(chunks);
    PackEmpty(chunks, bodies, 0, maxChars, cap, 0);
    forall k | 0 <= k < |chunks| ensures bodies[k] == Strip(chunks[k].text) {
      StrippedAt(chunks, k);
    }
    var ts := Tags(Packed(chunks, maxChars, cap));
    if ts != [] {
      JoinWithHead(ts, "\n\n");
    }
  }

  /** A join of tagged parts is never "": it starts with the first tag. */
  lemma JoinWithHead(ts: seq<string>, sep: string)
    requires ts != []
    ensures |JoinWith(ts, sep)| >= |ts[0]| && JoinWith(ts, sep)[..|ts[0]|] == ts[0]
  {
    if |ts| > 1 {
      var w := ts[0] + sep + JoinWith(ts[1..], sep);
      assert w[..|ts[0]|] == ts[0];
    }
  }

  /** A chunk first in line whose stripped text alone fills the budget (and
      the cap, if any) gives the whole context: its first `maxChars - 50`
      characters under its tag. */
  lemma ContextFirstFills(chunks: seq<RetrievedChunk>, maxChars: int, cap: int)
    requires chunks != [] && maxChars > Overhead
    requires |Strip(chunks[0].text)| >= maxChars - Overhead
    requires cap <= 0 || cap >= maxChars - Overhead
    ensures Context(chunks, maxChars, cap)
         == Tag(Piece(chunks[0].documentId, chunks[0].chunkIndex, Strip(chunks[0].text)[..maxChars - Overhead]))
  {
    var bodies := Stripped(chunks);
    StrippedAt(chunks, 0);
    var body := Cut(bodies[0], cap, maxChars - Overhead);
    PackSpent(chunks, bodies, 1, maxChars, cap, |body| + 1);
    assert Packed(chunks, maxChars, cap) == [Piece(chunks[0].documentId, chunks[0].chunkIndex, body)];
  }

  /** The per-chunk cap comes before the budget: a first chunk longer than a
      positive cap that the budget can hold is packed as its first `cap`
      characters. */
  lemma ContextCapFirst(chunks: seq<RetrievedChunk>, maxChars: int, cap: int)
    requires chunks != [] && 0 < cap < |Strip(chunks[0].text)|
    requires cap <= maxChars - Overhead
    ensures var ps := Packed(chunks, maxChars, cap);
      ps != [] && ps[0] == Piece(chunks[0].documentId, chunks[0].chunkIndex, Strip(chunks[0].text)[..cap])
  {
    var bodies := Stripped(chunks);
    StrippedAt(chunks, 0);
    var body := Cut(bodies[0], cap, maxChars - Overhead);
    assert |body| == cap;
  }
}
