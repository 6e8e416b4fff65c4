/** `chunk_text` of rag.py: deterministic, overlapping word windows over the
    normalized text. The size and overlap that the source reads from the
    environment when the caller passes none are parameters here. */
module Chunker {
  import opened Py
  import opened Whitespace

  /** The clamped parameters: `chunk_size = max(50, chunk_size)`,
      `overlap = max(0, min(overlap, chunk_size - 1))`,
      `step = max(1, chunk_size - overlap)`. */
  datatype Params = Params(size: nat, overlap: nat, step: nat)

  function Clamp(chunkSize: int, overlap: int): (p: Params)
    ensures p.size >= 50 && p.size >= chunkSize
    ensures chunkSize >= 50 ==> p.size == chunkSize
    ensures chunkSize < 50 ==> p.size == 50
    ensures 0 <= p.overlap <= p.size - 1
    ensures 0 <= overlap <= p.size - 1 ==> p.overlap == overlap
    ensures overlap < 0 ==> p.overlap == 0
    ensures overlap > p.size - 1 ==> p.overlap == p.size - 1
    ensures 1 <= p.step <= p.size && p.step == p.size - p.overlap
  {
    var size := Max(50, chunkSize);
    var ov := Max(0, Min(overlap, size - 1));
    Params(size, ov, Max(1, size - ov))
  }

  /** `ceil(a / b)` for `a >= 0`, `b >= 1`. */
  function CeilDiv(a: nat, b: nat): nat
    requires b >= 1
  {
    (a + b - 1) / b
  }

  /** The word at which each chunk starts when the loop is at word `i` of
      `n`: `i` itself, then, unless that window reaches the last word, the
      starts from `i + step` on. */
  function Starts(n: nat, size: nat, step: nat, i: nat): seq<nat>
    requires step >= 1
    decreases n - i
  {
    if i >= n then []
    else [i] + (if i + size >= n then [] else Starts(n, size, step, i + step))
  }

  /** `" ".join(words[i : i + size])`, the slice clamped as Python clamps it. */
  function Window(words: seq<string>, size: nat, i: nat): string {
    Join(words[Min(i, |words|)..Min(i + size, |words|)])
  }

  /** The chunks at the given start words. */
  function Render(words: seq<string>, size: nat, st: seq<nat>): (r: seq<string>)
    ensures |r| == |st|
  {
    if st == [] then [] else [Window(words, size, st[0])] + Render(words, size, st[1..])
  }

  /** The result of `chunk_text(text, chunkSize, overlap)`. */
  function Chunks(text: string, chunkSize: int, overlap: int): seq<string> {
    var t := NormalizeWs(text);
    if t == [] then []
    else
      var p := Clamp(chunkSize, overlap);
      var words := Split(t);
      Render(words, p.size, Starts(|words|, p.size, p.step, 0))
  }

  lemma {:induction false} RenderSnoc(words: seq<string>, size: nat, st: seq<nat>, i: nat)
    ensures Render(words, size, st + [i]) == Render(words, size, st) + [Window(words, size, i)]
  {
    if st != [] {
      RenderSnoc(words, size, st[1..], i);
      assert (st + [i])[1..] == st[1..] + [i];
    } else {
      assert [] + [i] == [i];
    }
  }

  /** One turn of the loop: the start `i` moves from the pending starts to
      the emitted ones. */
  lemma StartsNext(n: nat, size: nat, step: nat, i: nat, done: seq<nat>, all: seq<nat>)
    requires step >= 1 && i < n
    requires done + Starts(n, size, step, i) == all
    ensures i + size >= n ==> done + [i] == all
    ensures i + size < n ==> (done + [i]) + Starts(n, size, step, i + step) == all
  {
    var rest := Starts(n, size, step, i + step);
    if i + size < n {
      assert Starts(n, size, step, i) == [i] + rest;
      assert (done + [i]) + rest == done + ([i] + rest);
    }
  }

  /** The `while` loop of `chunk_text`: windows of `size` words, advancing by
      `step`, until one reaches the last word. The ghost `done` holds the
      start words of the chunks emitted so far. */
  method SlideWindows(words: seq<string>, size: nat, step: nat) returns (chunks: seq<string>)
    requires step >= 1
    ensures chunks == Render(words, size, Starts(|words|, size, step, 0))
  {
    chunks := [];
    var i: nat := 0;
    ghost var all := Starts(|words|, size, step, 0);
    ghost var done: seq<nat> := [];
    while i < |words|
      invariant done + Starts(|words|, size, step, i) == all
      invariant chunks == Render(words, size, done)
    {
      chunks := chunks + [Window(words, size, i)];
      RenderSnoc(words, size, done, i);
      StartsNext(|words|, size, step, i, done, all);
      done := done + [i];
      if i + size >= |words| {
        break;
      }
      i := i + step;
    }
    assert done == all;
  }

  /** `chunk_text`: normalize, give up on blank text, clamp the parameters,
      split on spaces and slide the window. */
  method ChunkText(text: string, chunkSize: int, overlap: int) returns (chunks: seq<string>)
    ensures chunks == Chunks(text, chunkSize, overlap)
  {
    var t := NormalizeWs(text);
    if t == [] {
      return [];
    }
    var size: nat := Max(50, chunkSize);
    var ov: nat := Max(0, Min(overlap, size - 1));
    var words := Split(t);
    var step: nat := Max(1, size - ov);
    chunks := SlideWindows(words, size, step);
    assert Clamp(chunkSize, overlap) == Params(size, ov, step);
  }

  /** Integer division is determined by quotient and remainder. */
  lemma DivUnique(x: nat, s: nat, q: int, r: int)
    requires s >= 1 && x == q * s + r && 0 <= r < s
    ensures x / s == q
  {
    var d := q - x / s;
    assert d * s == x % s - r by {
      assert x == (x / s) * s + x % s;
      assert q * s - (x / s) * s == d * s;
    }
  }

  lemma CeilDivStep(a: nat, s: nat)
    requires a > 0 && s >= 1
    ensures CeilDiv(a, s) == CeilDiv(Max(0, a - s), s) + 1
  {
    var b := Max(0, a - s);
    var q, r := (b + s - 1) / s, (b + s - 1) % s;
    assert b + s - 1 == q * s + r;
    if a >= s {
      assert a + s - 1 == (q + 1) * s + r;
      DivUnique(a + s - 1, s, q + 1, r);
    } else {
      DivUnique(s - 1, s, 0, s - 1);
      DivUnique(a + s - 1, s, 1, a - 1);
    }
  }

  /** `k * step`, counted up one step at a time. */
  function Offset(k: nat, step: nat): nat {
    if k == 0 then 0 else Offset(k - 1, step) + step
  }

  lemma {:induction false} OffsetIsProduct(k: nat, step: nat)
    ensures Offset(k, step) == k * step
  {
    if k > 0 {
      OffsetIsProduct(k - 1, step);
      assert (k - 1) * step + step == k * step;
    }
  }

  ghost predicate InWindow(j: nat, k: nat, start: nat, size: nat, step: nat) {
    start + Offset(k, step) <= j < start + Offset(k, step) + size
  }

  /** How many windows of `size` words, advancing by `step`, it takes to
      reach the end when `rem` words lie beyond the first window. */
  function WindowCount(rem: nat, step: nat): (n: nat)
    requires step >= 1
    ensures n >= 1
    decreases rem
  {
    if rem == 0 then 1 else 1 + WindowCount(Max(0, rem - step), step)
  }

  lemma {:induction false} WindowCountIsCeil(rem: nat, step: nat)
    requires step >= 1
    ensures WindowCount(rem, step) == CeilDiv(rem, step) + 1
    decreases rem
  {
    if rem == 0 {
      DivUnique(step - 1, step, 0, step - 1);
    } else {
      WindowCountIsCeil(Max(0, rem - step), step);
      CeilDivStep(rem, step);
    }
  }

  /** From word `i` of `n` on there are `WindowCount(max(0, n-i-size), step)`
      chunks. */
  lemma {:induction false} StartsCount(n: nat, size: nat, step: nat, i: nat)
    requires 1 <= step <= size && i < n
    ensures |Starts(n, size, step, i)| == WindowCount(Max(0, n - i - size), step)
    decreases n - i
  {
    if i + size < n {
      StartsCount(n, size, step, i + step);
      assert Max(0, n - (i + step) - size) == Max(0, (n - i - size) - step);
    }
  }

  /** Chunk `k` from word `i` on starts at word `i + k*step`; only the last
      one reaches the final word. */
  lemma {:induction false} StartsAt(n: nat, size: nat, step: nat, i: nat, k: nat)
    requires 1 <= step <= size && k < |Starts(n, size, step, i)|
    ensures Starts(n, size, step, i)[k] == i + Offset(k, step) < n
    ensures k < |Starts(n, size, step, i)| - 1 <==> i + Offset(k, step) + size < n
    decreases k
  {
    if k > 0 {
      StartsAt(n, size, step, i + step, k - 1);
      assert i + step + Offset(k - 1, step) == i + Offset(k, step);
    }
  }

  /** Every word from `i` on lies inside some chunk. */
  lemma {:induction false} StartsCover(n: nat, size: nat, step: nat, i: nat, j: nat)
    requires 1 <= step <= size && i <= j < n
    ensures exists k :: 0 <= k < |Starts(n, size, step, i)| && InWindow(j, k, i, size, step)
    decreases n - i
  {
    var st := Starts(n, size, step, i);
    if j < i + size {
      assert 0 < |st| && InWindow(j, 0, i, size, step);
    } else {
      var rest := Starts(n, size, step, i + step);
      assert st == [i] + rest;
      StartsCover(n, size, step, i + step, j);
      var k :| 0 <= k < |rest| && InWindow(j, k, i + step, size, step);
      assert i + step + Offset(k, step) == i + Offset(k + 1, step);
      assert 0 <= k + 1 < |st| && InWindow(j, k + 1, i, size, step);
    }
  }

  lemma {:induction false} RenderAt(words: seq<string>, size: nat, st: seq<nat>, k: nat)
    requires k < |st|
    ensures Render(words, size, st)[k] == Window(words, size, st[k])
  {
    if k > 0 {
      RenderAt(words, size, st[1..], k - 1);
    }
  }

  /** No chunk exactly when the text is empty or only whitespace. */
  lemma ChunksEmpty(text: string, chunkSize: int, overlap: int)
    ensures Chunks(text, chunkSize, overlap) == [] <==> AllSpace(text)
  {
    NormalizeWsEmpty(text);
    var t := NormalizeWs(text);
    if t != [] {
      var p := Clamp(chunkSize, overlap);
      StartsCount(|Split(t)|, p.size, p.step, 0);
    }
  }

  /** With `N` words and clamped `size`/`step` there are
      `ceil(max(0, N-size)/step) + 1` chunks. */
  lemma ChunksCount(text: string, chunkSize: int, overlap: int)
    requires NormalizeWs(text) != []
    ensures |Chunks(text, chunkSize, overlap)|
         == CeilDiv(Max(0, |Split(NormalizeWs(text))| - Clamp(chunkSize, overlap).size),
                    Clamp(chunkSize, overlap).step) + 1
  {
    var p := Clamp(chunkSize, overlap);
    var words := Split(NormalizeWs(text));
    StartsCount(|words|, p.size, p.step, 0);
    WindowCountIsCeil(Max(0, |words| - p.size), p.step);
  }

  /** Chunk `k` of `words` is the window at word `k*step`. */
  lemma RenderStartsAt(words: seq<string>, size: nat, step: nat, k: nat)
    requires 1 <= step <= size && k < |Starts(|words|, size, step, 0)|
    ensures 0 <= k * step < |words|
    ensures Render(words, size, Starts(|words|, size, step, 0))[k] == Window(words, size, k * step)
    ensures k < |Starts(|words|, size, step, 0)| - 1 <==> k * step + size < |words|
  {
    var st := Starts(|words|, size, step, 0);
    StartsAt(|words|, size, step, 0, k);
    RenderAt(words, size, st, k);
    OffsetIsProduct(k, step);
  }

  /** Chunk `k` is the single-space join of the at most `size` words from
      word `k*step`; the last chunk ends at the final word, no earlier one
      does. */
  lemma ChunksAt(text: string, chunkSize: int, overlap: int, k: nat)
    requires k < |Chunks(text, chunkSize, overlap)|
    ensures var words := Split(NormalizeWs(text));
      var p := Clamp(chunkSize, overlap);
      var c := Chunks(text, chunkSize, overlap);
      var start := k * p.step;
      && 0 <= start < |words|
      && c[k] == Window(words, p.size, start)
      && (k < |c| - 1 <==> start + p.size < |words|)
  {
    var p := Clamp(chunkSize, overlap);
    var words := Split(NormalizeWs(text));
    assert Chunks(text, chunkSize, overlap) == Render(words, p.size, Starts(|words|, p.size, p.step, 0));
    RenderStartsAt(words, p.size, p.step, k);
  }

  /** Every word of the normalized text is in some chunk. */
  lemma ChunksCover(text: string, chunkSize: int, overlap: int, j: nat)
    requires j < |Split(NormalizeWs(text))| && NormalizeWs(text) != []
    ensures Covered(j, |Chunks(text, chunkSize, overlap)|, Clamp(chunkSize, overlap))
  {
    var p := Clamp(chunkSize, overlap);
    var words := Split(NormalizeWs(text));
    StartsCover(|words|, p.size, p.step, 0, j);
    var k :| 0 <= k < |Starts(|words|, p.size, p.step, 0)| && InWindow(j, k, 0, p.size, p.step);
    OffsetIsProduct(k, p.step);
  }

  /** Word `j` lies in one of the first `n` windows. */
  ghost predicate Covered(j: nat, n: nat, p: Params) {
    exists k: nat :: k < n && k * p.step <= j < k * p.step + p.size
  }

  /** Text of at most `size` words comes back as one chunk: the normalized text
      itself. */
  lemma ChunksSingle(text: string, chunkSize: int, overlap: int)
    requires NormalizeWs(text) != []
    requires |Split(NormalizeWs(text))| <= Clamp(chunkSize, overlap).size
    ensures Chunks(text, chunkSize, overlap) == [NormalizeWs(text)]
  {
    var t := NormalizeWs(text);
    var words := Split(t);
    assert words[0..|words|] == words;
    JoinSplit(t);
  }

  /** For text that is not blank, the windows run over the words of the text
      itself (its maximal non-whitespace runs), so the count, position and
      cover lemmas above speak about the input's words. */
  lemma ChunksOverWords(text: string, chunkSize: int, overlap: int)
    requires !AllSpace(text)
    ensures var p := Clamp(chunkSize, overlap);
      var words := Words(text);
      && Split(NormalizeWs(text)) == words
      && Chunks(text, chunkSize, overlap) == Render(words, p.size, Starts(|words|, p.size, p.step, 0))
  {
    NormalizeWsEmpty(text);
    NormalizeWsWords(text);
  }
}
