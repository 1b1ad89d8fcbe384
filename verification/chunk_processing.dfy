/**
 * `chunk_text_by_sentence` of src/chunk_processing.py: the text is split
 * into sentences by `re.split(r'(?<=[.?!])\s+', text)`, then the sentences
 * are packed greedily into chunks of about `n` characters.
 *
 * The packing is specified by the spans of sentence indices each chunk is
 * made of (`Spans`); the loop in `ChunkTextBySentence` is proved to build
 * exactly the chunks those spans describe, and the lemmas below state what
 * the spans promise: coverage, order, one sentence of overlap at every
 * overflow, the chunk count, and how the length bound `n` is (and is not)
 * respected.
 *
 * `find_best_chunk`, the other function of that file, normalises the
 * request and hands it to the chromadb query, which is a parameter here.
 */
module ChunkProcessing {
  import opened PyText
  import opened PyDict
  import opened Chroma
  import TextExtration

  // ---------------------------------------------------------------------
  // The sentence split
  // ---------------------------------------------------------------------

  predicate IsTerminator(c: char) {
    c == '.' || c == '?' || c == '!'
  }

  /** Position `i` of `t` is where the pattern `(?<=[.?!])\s+` can match:
      a sentence terminator just before and whitespace at `i`. */
  predicate IsBoundary(t: string, i: int) {
    0 < i < |t| && IsTerminator(t[i - 1]) && IsSpace(t[i])
  }

  ghost predicate NoBoundary(s: string) {
    forall i :: !IsBoundary(s, i)
  }

  predicate AllSpace(g: string) {
    forall i :: 0 <= i < |g| ==> IsSpace(g[i])
  }

  /** The leftmost match position at or after `i`, as the regex scan finds it. */
  function FirstBoundary(t: string, i: nat): (r: Option<nat>)
    requires i <= |t|
    ensures r.Some? ==> i <= r.value < |t| && IsBoundary(t, r.value)
    ensures r.Some? ==> forall k :: i <= k < r.value ==> !IsBoundary(t, k)
    ensures r.None? ==> forall k :: i <= k < |t| ==> !IsBoundary(t, k)
    decreases |t| - i
  {
    if i == |t| then None
    else if IsBoundary(t, i) then Some(i)
    else FirstBoundary(t, i + 1)
  }

  /** Where the greedy `\s+` starting at `i` stops. */
  function RunEnd(t: string, i: nat): (j: nat)
    requires i <= |t|
    ensures i <= j <= |t| && (j == |t| || !IsSpace(t[j]))
    ensures forall k :: i <= k < j ==> IsSpace(t[k])
    decreases |t| - i
  {
    if i < |t| && IsSpace(t[i]) then RunEnd(t, i + 1) else i
  }

  /** `re.split(r'(?<=[.?!])\s+', t)`: the pieces between the matches. The
      lookbehind of a later match can only see the whitespace of the previous
      one, so scanning the rest of the text on its own finds the same matches. */
  function Sentences(t: string): (ss: seq<string>)
    ensures |ss| >= 1 && ss[0] <= t
    decreases |t|
  {
    match FirstBoundary(t, 0)
    case None => [t]
    case Some(b) => [t[..b]] + Sentences(t[RunEnd(t, b)..])
  }

  /** The whitespace runs the split consumed, in order. */
  function Gaps(t: string): (gs: seq<string>)
    decreases |t|
  {
    match FirstBoundary(t, 0)
    case None => []
    case Some(b) => [t[b..RunEnd(t, b)]] + Gaps(t[RunEnd(t, b)..])
  }

  /** Sentences and separators put back together. */
  function Interleave(ss: seq<string>, gs: seq<string>): string
    requires |ss| == |gs| + 1
    decreases |gs|
  {
    if |gs| == 0 then ss[0] else ss[0] + gs[0] + Interleave(ss[1..], gs[1..])
  }

  /** What a split looks like: every separator is a non-empty whitespace run,
      every sentence before a separator ends with `.`, `?` or `!`, every
      sentence after one starts with a non-space (the run was maximal), and no
      sentence contains a terminator followed by whitespace. */
  ghost predicate SplitShape(ss: seq<string>, gs: seq<string>) {
    && |ss| == |gs| + 1
    && (forall k :: 0 <= k < |gs| ==> gs[k] != [] && AllSpace(gs[k]))
    && (forall k :: 0 <= k < |gs| ==> ss[k] != [] && IsTerminator(ss[k][|ss[k]| - 1]))
    && (forall k :: 0 < k < |ss| ==> ss[k] == [] || !IsSpace(ss[k][0]))
    && (forall k :: 0 <= k < |ss| ==> NoBoundary(ss[k]))
  }

  /** Prepending a sentence and a separator keeps the shape of a split. */
  lemma SplitShapeCons(s0: string, g0: string, ss: seq<string>, gs: seq<string>)
    requires SplitShape(ss, gs)
    requires s0 != [] && IsTerminator(s0[|s0| - 1]) && NoBoundary(s0)
    requires g0 != [] && AllSpace(g0)
    requires ss[0] == [] || !IsSpace(ss[0][0])
    ensures SplitShape([s0] + ss, [g0] + gs)
  {
    var ss', gs' := [s0] + ss, [g0] + gs;
    assert forall k :: 0 < k < |ss'| ==> ss'[k] == ss[k - 1];
    assert forall k :: 0 < k < |gs'| ==> gs'[k] == gs[k - 1];
  }

  /** Dropping the first sentence and separator keeps the shape of a split. */
  lemma SplitShapeTail(ss: seq<string>, gs: seq<string>)
    requires SplitShape(ss, gs) && |gs| > 0
    ensures SplitShape(ss[1..], gs[1..])
  {
    assert forall k :: 0 <= k < |ss| - 1 ==> ss[1..][k] == ss[k + 1];
    assert forall k :: 0 <= k < |gs| - 1 ==> gs[1..][k] == gs[k + 1];
  }

  lemma InterleaveCons(s0: string, g0: string, ss: seq<string>, gs: seq<string>)
    requires |ss| == |gs| + 1
    ensures Interleave([s0] + ss, [g0] + gs) == s0 + g0 + Interleave(ss, gs)
  {
    assert ([s0] + ss)[1..] == ss && ([g0] + gs)[1..] == gs;
  }

  /** The text before the first match is a sentence that ends with a terminator
      and holds no match; the match itself is a non-empty whitespace run. */
  lemma FirstPieces(t: string, b: nat, j: nat)
    requires FirstBoundary(t, 0) == Some(b) && j == RunEnd(t, b)
    ensures t[..b] != [] && IsTerminator(t[..b][b - 1]) && NoBoundary(t[..b])
    ensures t[b..j] != [] && AllSpace(t[b..j])
  {
    forall i | IsBoundary(t[..b], i) ensures false {
      assert IsBoundary(t, i);
    }
  }

  /** The split loses nothing: the sentences with the separators between them
      are the text, and they have the shape of a split. */
  lemma {:induction false} SentencesRebuildText(t: string)
    ensures |Sentences(t)| == |Gaps(t)| + 1
    ensures SplitShape(Sentences(t), Gaps(t))
    ensures Interleave(Sentences(t), Gaps(t)) == t
    decreases |t|
  {
    var fb := FirstBoundary(t, 0);
    if fb.None? {
      assert Sentences(t) == [t] && Gaps(t) == [];
      assert NoBoundary(t);
    } else {
      var b := fb.value;
      var j := RunEnd(t, b);
      SentencesRebuildText(t[j..]);
      RebuildStep(t, b, j);
    }
  }

  lemma RebuildStep(t: string, b: nat, j: nat)
    requires FirstBoundary(t, 0) == Some(b) && j == RunEnd(t, b)
    requires |Sentences(t[j..])| == |Gaps(t[j..])| + 1
    requires SplitShape(Sentences(t[j..]), Gaps(t[j..]))
    requires Interleave(Sentences(t[j..]), Gaps(t[j..])) == t[j..]
    ensures |Sentences(t)| == |Gaps(t)| + 1
    ensures SplitShape(Sentences(t), Gaps(t))
    ensures Interleave(Sentences(t), Gaps(t)) == t
  {
    var rest := t[j..];
    var ss', gs' := Sentences(rest), Gaps(rest);
    assert Sentences(t) == [t[..b]] + ss' && Gaps(t) == [t[b..j]] + gs';
    ShapeStep(t, b, j, ss', gs');
    InterleaveStep(t, b, j, ss', gs');
  }

  lemma ShapeStep(t: string, b: nat, j: nat, ss: seq<string>, gs: seq<string>)
    requires FirstBoundary(t, 0) == Some(b) && j == RunEnd(t, b)
    requires SplitShape(ss, gs) && ss[0] <= t[j..]
    ensures SplitShape([t[..b]] + ss, [t[b..j]] + gs)
  {
    FirstPieces(t, b, j);
    assert ss[0] == [] || !IsSpace(ss[0][0]) by {
      if ss[0] != [] { assert ss[0][0] == t[j..][0] == t[j]; }
    }
    SplitShapeCons(t[..b], t[b..j], ss, gs);
  }

  lemma InterleaveStep(t: string, b: nat, j: nat, ss: seq<string>, gs: seq<string>)
    requires b <= j <= |t| && |ss| == |gs| + 1 && Interleave(ss, gs) == t[j..]
    ensures Interleave([t[..b]] + ss, [t[b..j]] + gs) == t
  {
    InterleaveCons(t[..b], t[b..j], ss, gs);
    assert t[..b] + t[b..j] + t[j..] == t;
  }

  lemma FirstBoundaryIs(t: string, i: nat, b: nat)
    requires i <= b <= |t| && IsBoundary(t, b)
    requires forall k :: i <= k < b ==> !IsBoundary(t, k)
    ensures FirstBoundary(t, i) == Some(b)
  {
  }

  lemma RunEndIs(t: string, i: nat, j: nat)
    requires i <= j <= |t| && (j == |t| || !IsSpace(t[j]))
    requires forall k :: i <= k < j ==> IsSpace(t[k])
    ensures RunEnd(t, i) == j
  {
  }

  /** The first character after a separator is that of the next sentence. */
  lemma InterleaveStart(ss: seq<string>, gs: seq<string>)
    requires SplitShape(ss, gs)
    ensures var t := Interleave(ss, gs); t == [] || (ss[0] != [] && t[0] == ss[0][0])
    ensures ss[0] == [] ==> Interleave(ss, gs) == []
  {
    if |gs| > 0 {
      assert ss[0] != [];
    }
  }

  /** The converse: any sentences and separators of that shape, put together,
      split back into exactly those sentences and separators. With
      `SentencesRebuildText` this pins `Sentences` down completely; in
      particular "Dr." followed by a space ends a sentence. */
  lemma {:induction false} SplitOfInterleave(ss: seq<string>, gs: seq<string>)
    requires SplitShape(ss, gs)
    ensures Sentences(Interleave(ss, gs)) == ss
    ensures Gaps(Interleave(ss, gs)) == gs
    decreases |gs|
  {
    var t := Interleave(ss, gs);
    if |gs| == 0 {
      assert t == ss[0];
      assert NoBoundary(ss[0]);
      assert FirstBoundary(t, 0).None?;
    } else {
      var s0, g0 := ss[0], gs[0];
      var ss', gs' := ss[1..], gs[1..];
      var rest := Interleave(ss', gs');
      SplitShapeTail(ss, gs);
      InterleaveStart(ss', gs');
      assert t == s0 + g0 + rest;
      var b := |s0|;
      var j := b + |g0|;
      assert IsBoundary(t, b) by {
        assert t[b - 1] == s0[b - 1];
        assert t[b] == g0[0];
      }
      forall k | 0 <= k < b ensures !IsBoundary(t, k) {
        if 0 < k {
          assert t[k - 1] == s0[k - 1] && t[k] == s0[k];
          assert !IsBoundary(s0, k);
        }
      }
      FirstBoundaryIs(t, 0, b);
      forall k | b <= k < j ensures IsSpace(t[k]) {
        assert t[k] == g0[k - b];
      }
      assert j == |t| || !IsSpace(t[j]) by {
        if j < |t| { assert t[j] == rest[0]; }
      }
      RunEndIs(t, b, j);
      assert t[..b] == s0 && t[b..j] == g0 && t[j..] == rest;
      SplitOfInterleave(ss', gs');
      assert ss == [s0] + ss' && gs == [g0] + gs';
    }
  }

  // ---------------------------------------------------------------------
  // The greedy packing
  // ---------------------------------------------------------------------

  /** The accumulator `s_b + " " + ... + s_(e-1) + " "` that the loop builds
      with `current_chunk += sentence + " "`. */
  function Acc(ss: seq<string>, b: nat, e: nat): string
    requires b <= e <= |ss|
    decreases e - b
  {
    if e == b then "" else Acc(ss, b, e - 1) + ss[e - 1] + " "
  }

  /** The overflow test of the loop when the current chunk holds the sentences
      `b .. e - 1` and sentence `e` comes next:
      `len(current_chunk) + len(sentence) + 1 > n`. For `e > b` the current
      chunk is never empty, so this is the whole condition. */
  predicate Fires(ss: seq<string>, n: int, b: nat, e: nat)
    requires b <= e < |ss|
  {
    |Acc(ss, b, e)| + |ss[e]| + 1 > n
  }

  /** The first sentence at or after `i` at which the chunk started at `b` overflows. */
  function NextBreak(ss: seq<string>, n: int, b: nat, i: nat): (r: Option<nat>)
    requires b < i <= |ss|
    ensures r.Some? ==> i <= r.value < |ss| && Fires(ss, n, b, r.value)
    ensures r.Some? ==> forall k :: i <= k < r.value ==> !Fires(ss, n, b, k)
    ensures r.None? ==> forall k :: i <= k < |ss| ==> !Fires(ss, n, b, k)
    decreases |ss| - i
  {
    if i == |ss| then None
    else if Fires(ss, n, b, i) then Some(i)
    else NextBreak(ss, n, b, i + 1)
  }

  /** The chunks the loop emits once it has opened a chunk at sentence `b`:
      the chunk takes sentences until one overflows; that sentence closes it
      and opens the next chunk. Without an overflow the chunk runs to the end. */
  function ChunksFrom(ss: seq<string>, n: int, b: nat): (cs: seq<string>)
    requires b < |ss|
    ensures 1 <= |cs| <= |ss| - b
    decreases |ss| - b
  {
    match NextBreak(ss, n, b, b + 1)
    case None => [Strip(Acc(ss, b, |ss|))]
    case Some(e) => [Strip(Acc(ss, b, e + 1))] + ChunksFrom(ss, n, e)
  }

  /** The chunks of a non-empty list of sentences: at least one, and never
      more than there are sentences. */
  function Chunks(ss: seq<string>, n: int): (cs: seq<string>)
    requires |ss| >= 1
    ensures 1 <= |cs| <= |ss|
  {
    ChunksFrom(ss, n, 0)
  }

  /** `chunk_text_by_sentence(text, n)`, as a value. */
  function ChunkText(text: string, n: int): (cs: seq<string>)
    ensures 1 <= |cs| <= |Sentences(text)|
  {
    Chunks(Sentences(text), n)
  }

  // ---------------------------------------------------------------------
  // The loop of chunk_text_by_sentence
  // ---------------------------------------------------------------------

  /** One step of the search for the next overflow: at sentence `i` the chunk
      started at `b` either overflows there or the search goes on after `i`. */
  lemma BreakStep(ss: seq<string>, n: int, b: nat, i: nat)
    requires b < i < |ss|
    requires NextBreak(ss, n, b, b + 1) == NextBreak(ss, n, b, i)
    ensures Fires(ss, n, b, i) ==> NextBreak(ss, n, b, b + 1) == Some(i)
    ensures !Fires(ss, n, b, i) ==> NextBreak(ss, n, b, b + 1) == NextBreak(ss, n, b, i + 1)
  {
  }

  lemma AccSnoc(ss: seq<string>, b: nat, i: nat)
    requires b <= i < |ss|
    ensures Acc(ss, b, i + 1) == Acc(ss, b, i) + ss[i] + " "
    ensures b == i ==> Acc(ss, b, i + 1) == ss[i] + " "
  {
  }

  lemma AppendAssoc<T>(a: seq<T>, b: seq<T>, c: seq<T>)
    ensures a + (b + c) == (a + b) + c
  {
  }

  /** The state of the loop after sentences `0 .. i - 1`: `current` holds the
      sentences of the open chunk, which started at `b`, no overflow has
      happened since `b`, and the emitted `chunks` followed by the chunks from
      `b` on are all the chunks. */
  ghost predicate ChunkLoopInv(ss: seq<string>, n: int, i: nat, b: nat,
                               current: string, chunks: seq<string>)
  {
    && b <= i <= |ss| && (b < i || i == 0) && b < |ss|
    && current == Acc(ss, b, i)
    && chunks + ChunksFrom(ss, n, b) == Chunks(ss, n)
    && (b < i ==> NextBreak(ss, n, b, b + 1) == NextBreak(ss, n, b, i))
  }

  /** The sentence fits, or the chunk is empty: it joins the open chunk. */
  lemma ChunkLoopGrow(ss: seq<string>, n: int, i: nat, b: nat, current: string, chunks: seq<string>)
    requires i < |ss| && ChunkLoopInv(ss, n, i, b, current, chunks)
    requires !(|current| + |ss[i]| + 1 > n && current != "")
    ensures ChunkLoopInv(ss, n, i + 1, b, current + ss[i] + " ", chunks)
  {
    if b < i {
      BreakStep(ss, n, b, i);
    }
  }

  /** The sentence overflows a non-empty chunk: the chunk is emitted with the
      sentence in it, and the next chunk starts with the same sentence. */
  lemma ChunkLoopSeal(ss: seq<string>, n: int, i: nat, b: nat, current: string, chunks: seq<string>)
    requires i < |ss| && ChunkLoopInv(ss, n, i, b, current, chunks)
    requires |current| + |ss[i]| + 1 > n && current != ""
    ensures ChunkLoopInv(ss, n, i + 1, i, ss[i] + " ", chunks + [Strip(current + ss[i] + " ")])
  {
    BreakStep(ss, n, b, i);
    SealStep(ss, n, b, i, current);
    AccSnoc(ss, i, i);
    AppendAssoc(chunks, [Strip(current + ss[i] + " ")], ChunksFrom(ss, n, i));
  }

  lemma SealStep(ss: seq<string>, n: int, b: nat, i: nat, current: string)
    requires b < i < |ss| && current == Acc(ss, b, i)
    requires NextBreak(ss, n, b, b + 1) == Some(i)
    ensures ChunksFrom(ss, n, b) == [Strip(current + ss[i] + " ")] + ChunksFrom(ss, n, i)
  {
    AccSnoc(ss, b, i);
  }

  /** After the last sentence the open chunk is never empty, and it is the last chunk. */
  lemma ChunkLoopEnd(ss: seq<string>, n: int, b: nat, current: string, chunks: seq<string>)
    requires ChunkLoopInv(ss, n, |ss|, b, current, chunks)
    ensures current != "" && chunks + [Strip(current)] == Chunks(ss, n)
  {
    assert NextBreak(ss, n, b, b + 1).None?;
    AccSnoc(ss, b, |ss| - 1);
  }

  /** `chunk_text_by_sentence`: the loop of src/chunk_processing.py:19-31. */
  method ChunkTextBySentence(text: string, n: int) returns (chunks: seq<string>)
    ensures chunks == ChunkText(text, n)
  {
    var sentences := Sentences(text);
    chunks := [];
    var current := "";
    ghost var b: nat := 0;
    for i := 0 to |sentences|
      invariant ChunkLoopInv(sentences, n, i, b, current, chunks)
    {
      var sentence := sentences[i];
      if |current| + |sentence| + 1 > n && current != "" {
        ChunkLoopSeal(sentences, n, i, b, current, chunks);
        current := current + sentence + " ";
        chunks := chunks + [Strip(current)];
        current := sentence + " ";
        b := i;
      } else {
        ChunkLoopGrow(sentences, n, i, b, current, chunks);
        current := current + sentence + " ";
      }
    }
    ChunkLoopEnd(sentences, n, b, current, chunks);
    if current != "" {
      chunks := chunks + [Strip(current)];
    }
  }

  // ---------------------------------------------------------------------
  // Which sentences each chunk holds
  // ---------------------------------------------------------------------

  /** The accumulator is the sentences joined by single spaces, plus one space. */
  lemma {:induction false} AccIsJoin(ss: seq<string>, b: nat, e: nat)
    requires b < e <= |ss|
    ensures Acc(ss, b, e) == JoinSpace(ss[b..e]) + " "
    decreases e - b
  {
    if e == b + 1 {
      assert ss[b..e] == [ss[b]];
    } else {
      AccIsJoin(ss, b, e - 1);
      assert ss[b..e][..e - b - 1] == ss[b..e - 1];
    }
  }

  predicate SpansWithin(ss: seq<string>, sp: seq<(nat, nat)>) {
    forall j :: 0 <= j < |sp| ==> sp[j].0 < sp[j].1 <= |ss|
  }

  /** The half-open ranges of sentence indices the chunks from `b` on are made
      of, one range per chunk, the first starting at `b` and the last ending
      with the last sentence. */
  function Spans(ss: seq<string>, n: int, b: nat): (sp: seq<(nat, nat)>)
    requires b < |ss|
    ensures |sp| >= 1 && sp[0].0 == b && sp[|sp| - 1].1 == |ss|
    ensures SpansWithin(ss, sp)
    decreases |ss| - b
  {
    match NextBreak(ss, n, b, b + 1)
    case None => [(b, |ss|)]
    case Some(e) => [(b, e + 1)] + Spans(ss, n, e)
  }

  /** One chunk per span. */
  lemma {:induction false} ChunkCount(ss: seq<string>, n: int, b: nat)
    requires b < |ss|
    ensures |ChunksFrom(ss, n, b)| == |Spans(ss, n, b)|
    decreases |ss| - b
  {
    match NextBreak(ss, n, b, b + 1) {
      case None =>
      case Some(e) => ChunkCount(ss, n, e);
    }
  }

  lemma FirstChunk(ss: seq<string>, n: int, b: nat)
    requires b < |ss|
    ensures ChunksFrom(ss, n, b)[0] == Strip(JoinSpace(ss[b..Spans(ss, n, b)[0].1]))
  {
    var d := Spans(ss, n, b)[0].1;
    assert ChunksFrom(ss, n, b)[0] == Strip(Acc(ss, b, d));
    AccIsJoin(ss, b, d);
    StripDropsTrailingSpace(JoinSpace(ss[b..d]));
  }

  /** Chunk `j` is the trimmed `' '.join` of the sentences of span `j`: no
      sentence is ever cut, however long it is. */
  lemma {:induction false} ChunkOfSpan(ss: seq<string>, n: int, b: nat, j: nat)
    requires b < |ss| && j < |Spans(ss, n, b)|
    ensures j < |ChunksFrom(ss, n, b)|
    ensures var sp := Spans(ss, n, b)[j];
      ChunksFrom(ss, n, b)[j] == Strip(JoinSpace(ss[sp.0..sp.1]))
    decreases |ss| - b
  {
    ChunkCount(ss, n, b);
    if j == 0 {
      FirstChunk(ss, n, b);
    } else {
      var e := NextBreak(ss, n, b, b + 1).value;
      assert ChunksFrom(ss, n, b)[j] == ChunksFrom(ss, n, e)[j - 1];
      assert Spans(ss, n, b)[j] == Spans(ss, n, e)[j - 1];
      ChunkOfSpan(ss, n, e, j - 1);
    }
  }

  /** The spans are what the greedy loop makes of the sentences. Every span
      but the last holds at least two sentences and ends with the sentence at
      which its chunk overflowed, and the next span starts again on that same
      sentence; no sentence before that one overflowed the chunk. The last span
      runs to the end of the text without an overflow. */
  lemma {:induction false} SpanIsGreedy(ss: seq<string>, n: int, b: nat, j: nat)
    requires b < |ss| && j < |Spans(ss, n, b)|
    ensures var sp := Spans(ss, n, b); var c, d := sp[j].0, sp[j].1;
      j + 1 < |sp| ==> c + 1 < d && sp[j + 1].0 == d - 1 && Fires(ss, n, c, d - 1)
    ensures var sp := Spans(ss, n, b); var c, d := sp[j].0, sp[j].1;
      forall k :: c < k < (if j + 1 < |sp| then d - 1 else |ss|) ==> !Fires(ss, n, c, k)
    decreases |ss| - b
  {
    match NextBreak(ss, n, b, b + 1) {
      case None =>
      case Some(e) =>
        if j > 0 {
          SpanIsGreedy(ss, n, e, j - 1);
        }
    }
  }

  /** The span that holds sentence `k`. */
  lemma {:induction false} SpanOf(ss: seq<string>, n: int, b: nat, k: nat) returns (j: nat)
    requires b <= k < |ss|
    ensures j < |Spans(ss, n, b)| && Spans(ss, n, b)[j].0 <= k < Spans(ss, n, b)[j].1
    decreases |ss| - b
  {
    match NextBreak(ss, n, b, b + 1) {
      case None =>
        j := 0;
      case Some(e) =>
        if k <= e {
          j := 0;
        } else {
          var j' := SpanOf(ss, n, e, k);
          assert Spans(ss, n, b)[j' + 1] == Spans(ss, n, e)[j'];
          j := j' + 1;
        }
    }
  }

  /** Every sentence is in some chunk. */
  lemma EverySentenceInAChunk(ss: seq<string>, n: int, b: nat, k: nat)
    requires b <= k < |ss|
    ensures exists j :: 0 <= j < |Spans(ss, n, b)| && Spans(ss, n, b)[j].0 <= k < Spans(ss, n, b)[j].1
  {
    var j := SpanOf(ss, n, b, k);
  }

  /** The overflow test in terms of the chunk it would produce. */
  lemma FiresIffLong(ss: seq<string>, n: int, c: nat, k: nat)
    requires c <= k < |ss|
    ensures Fires(ss, n, c, k) <==> |JoinSpace(ss[c..k + 1])| + 1 > n
  {
    AccSnoc(ss, c, k);
    AccIsJoin(ss, c, k + 1);
  }

  /** How the bound `n` holds, measured on `current_chunk` when the chunk is
      emitted (the sentences joined by spaces, plus the trailing space); the
      stripped chunk itself may be shorter. For a chunk closed by an overflow
      that accumulator is longer than `n`, because the overflowing sentence is
      in it; without that sentence it fits, unless its first sentence alone was
      already too long. The accumulator of the last chunk fits unless it holds
      a single sentence. */
  lemma ChunkLength(ss: seq<string>, n: int, b: nat, j: nat)
    requires b < |ss| && j < |Spans(ss, n, b)|
    ensures var sp := Spans(ss, n, b); var c, d := sp[j].0, sp[j].1;
      j + 1 < |sp| ==> |JoinSpace(ss[c..d])| + 1 > n
    ensures var sp := Spans(ss, n, b); var c, d := sp[j].0, sp[j].1;
      j + 1 < |sp| && c + 2 < d ==> |JoinSpace(ss[c..d - 1])| + 1 <= n
    ensures var sp := Spans(ss, n, b); var c, d := sp[j].0, sp[j].1;
      j + 1 == |sp| && c + 1 < d ==> |JoinSpace(ss[c..d])| + 1 <= n
  {
    var sp := Spans(ss, n, b);
    var c, d := sp[j].0, sp[j].1;
    SpanIsGreedy(ss, n, b, j);
    if j + 1 < |sp| {
      FiresIffLong(ss, n, c, d - 1);
      if c + 2 < d {
        FiresIffLong(ss, n, c, d - 2);
      }
    } else if c + 1 < d {
      FiresIffLong(ss, n, c, d - 1);
    }
  }

  /** Without any overflow the text is one chunk, the trimmed `' '.join` of
      all its sentences; with one there are at least two chunks. */
  lemma SingleChunk(ss: seq<string>, n: int)
    requires |ss| >= 1
    ensures |Chunks(ss, n)| == 1 <==> forall k :: 0 < k < |ss| ==> !Fires(ss, n, 0, k)
    ensures |Chunks(ss, n)| == 1 ==> Chunks(ss, n) == [Strip(JoinSpace(ss))]
  {
    match NextBreak(ss, n, 0, 1) {
      case None =>
        AccIsJoin(ss, 0, |ss|);
        assert ss[0..|ss|] == ss;
        StripDropsTrailingSpace(JoinSpace(ss));
      case Some(e) =>
    }
  }

  /** When every sentence together with the one before it is too long for
      `n`, every sentence after the first overflows: one chunk per sentence. */
  lemma {:induction false} OneChunkPerSentence(ss: seq<string>, n: int, b: nat)
    requires b < |ss|
    requires forall k :: 0 < k < |ss| ==> |ss[k - 1]| + |ss[k]| + 2 > n
    ensures |ChunksFrom(ss, n, b)| == |ss| - b
    decreases |ss| - b
  {
    if b + 1 < |ss| {
      AccSnoc(ss, b, b);
      assert Fires(ss, n, b, b + 1);
      OneChunkPerSentence(ss, n, b + 1);
    }
  }

  /** Every chunk is trimmed at both ends. */
  lemma {:induction false} ChunksTrimmed(ss: seq<string>, n: int, b: nat)
    requires b < |ss|
    ensures forall c :: c in ChunksFrom(ss, n, b) ==> NoEdgeSpace(c)
    decreases |ss| - b
  {
    match NextBreak(ss, n, b, b + 1) {
      case None =>
        StripNoEdgeSpace(Acc(ss, b, |ss|));
      case Some(e) =>
        StripNoEdgeSpace(Acc(ss, b, e + 1));
        ChunksTrimmed(ss, n, e);
    }
  }

  /** The result is never empty, every chunk is trimmed, and the empty text
      gives one empty chunk. */
  lemma ChunkTextShape(text: string, n: int)
    ensures |ChunkText(text, n)| >= 1
    ensures forall c :: c in ChunkText(text, n) ==> NoEdgeSpace(c)
    ensures text == "" ==> ChunkText(text, n) == [""]
  {
    ChunksTrimmed(Sentences(text), n, 0);
    if text == "" {
      assert Sentences(text) == [""];
      assert Acc([""], 0, 1) == " ";
    }
  }

  /** Neighbouring sentences always share a chunk: an overflowing sentence
      is emitted together with the one before it. */
  lemma {:induction false} NeighboursShareAChunk(ss: seq<string>, n: int, b: nat, k: nat)
    requires b < k < |ss|
    ensures exists j :: 0 <= j < |Spans(ss, n, b)| && Spans(ss, n, b)[j].0 < k < Spans(ss, n, b)[j].1
    decreases |ss| - b
  {
    match NextBreak(ss, n, b, b + 1) {
      case None =>
        assert Spans(ss, n, b)[0] == (b, |ss|);
      case Some(e) =>
        if k <= e {
          assert Spans(ss, n, b)[0] == (b, e + 1);
        } else {
          NeighboursShareAChunk(ss, n, e, k);
          var j :| 0 <= j < |Spans(ss, n, e)| && Spans(ss, n, e)[j].0 < k < Spans(ss, n, e)[j].1;
          assert Spans(ss, n, b)[j + 1] == Spans(ss, n, e)[j];
        }
    }
  }

  /** A sentence that ends with a terminator and holds no match, followed by
      a whitespace run, is split off on its own; the rest is split as if it
      stood alone. */
  lemma SentenceThen(s0: string, g: string, rest: string)
    requires s0 != [] && IsTerminator(s0[|s0| - 1]) && NoBoundary(s0)
    requires g != [] && AllSpace(g) && (rest == [] || !IsSpace(rest[0]))
    ensures Sentences(s0 + g + rest) == [s0] + Sentences(rest)
  {
    SentencesRebuildText(rest);
    var ss, gs := Sentences(rest), Gaps(rest);
    assert ss[0] == [] || !IsSpace(ss[0][0]) by {
      InterleaveStart(ss, gs);
    }
    SplitShapeCons(s0, g, ss, gs);
    InterleaveCons(s0, g, ss, gs);
    SplitOfInterleave([s0] + ss, [g] + gs);
  }

  /** A text without a match is one sentence. */
  lemma LastSentence(s: string)
    requires NoBoundary(s)
    ensures Sentences(s) == [s]
  {
    assert SplitShape([s], []);
    SplitOfInterleave([s], []);
  }

  /** Words without a terminator, closed by one, hold no match. */
  lemma NoBoundaryBeforeLast(w: string, t: char)
    requires forall i :: 0 <= i < |w| ==> !IsTerminator(w[i])
    ensures NoBoundary(w + [t])
  {
    forall i ensures !IsBoundary(w + [t], i) {
      if 0 < i <= |w| {
        assert (w + [t])[i - 1] == w[i - 1];
      }
    }
  }

  /** A terminator followed by whitespace ends a sentence even when it belongs
      to an abbreviation: the text after "Dr." and a whitespace run is split
      on its own. */
  lemma AbbreviationEndsSentence(g: string, rest: string)
    requires g != [] && AllSpace(g) && (rest == [] || !IsSpace(rest[0]))
    ensures Sentences("Dr." + g + rest) == ["Dr."] + Sentences(rest)
  {
    NoBoundaryBeforeLast("Dr", '.');
    assert "Dr" + ['.'] == "Dr.";
    SentenceThen("Dr.", g, rest);
  }

  /** Splitting undoes `' '.join` on sentences that could come out of a
      split: none holds a match, each but the last ends with a terminator,
      and each after the first starts with a character other than whitespace. */
  lemma {:induction false} SplitJoin(ss: seq<string>)
    requires |ss| >= 1
    requires forall k :: 0 <= k < |ss| ==> NoBoundary(ss[k])
    requires forall k :: 0 <= k < |ss| - 1 ==> ss[k] != [] && IsTerminator(ss[k][|ss[k]| - 1])
    requires forall k :: 0 < k < |ss| ==> ss[k] != [] && !IsSpace(ss[k][0])
    ensures Sentences(JoinSpace(ss)) == ss
    decreases |ss|
  {
    if |ss| == 1 {
      LastSentence(ss[0]);
    } else {
      var tail := ss[1..];
      JoinSpaceCons(ss);
      JoinSpaceStart(tail);
      SplitJoin(tail);
      SentenceThen(ss[0], " ", JoinSpace(tail));
      assert ss == [ss[0]] + tail;
    }
  }

  /** The text "Dr. Smith is here. He will meet you at noon.", written as
      its pieces, splits into three sentences, the first of them "Dr.". */
  lemma AbbreviationSplit()
    ensures Sentences("Dr." + " " + "Smith is here." + " " + "He will meet you at noon.")
      == ["Dr.", "Smith is here.", "He will meet you at noon."]
  {
    var ss := ["Dr.", "Smith is here.", "He will meet you at noon."];
    NoBoundaryBeforeLast("Dr", '.');
    NoBoundaryBeforeLast("Smith is here", '.');
    NoBoundaryBeforeLast("He will meet you at noon", '.');
    assert "Dr" + ['.'] == "Dr.";
    assert "Smith is here" + ['.'] == "Smith is here.";
    assert "He will meet you at noon" + ['.'] == "He will meet you at noon.";
    SplitJoin(ss);
    JoinSpaceThree("Dr.", "Smith is here.", "He will meet you at noon.");
    assert JoinSpace(ss) == "Dr." + " " + "Smith is here." + " " + "He will meet you at noon.";
  }

  /** When the first two sentences do not fit together, the first chunk is
      those two sentences: the overflowing one is emitted with the first. */
  lemma FirstTwoOverflow(ss: seq<string>, n: int)
    requires |ss| >= 2 && |ss[0]| + |ss[1]| + 2 > n
    ensures Chunks(ss, n)[0] == Strip(ss[0] + " " + ss[1])
  {
    assert Acc(ss, 0, 1) == ss[0] + " ";
    assert Fires(ss, n, 0, 1);
    assert Acc(ss, 0, 2) == ss[0] + " " + ss[1] + " ";
    StripDropsTrailingSpace(ss[0] + " " + ss[1]);
  }

  /** With `n = 10`, indeed with any `n` up to 18, the first chunk of that
      text is exactly "Dr. Smith is here.", abbreviation included. */
  lemma AbbreviationExample(n: int)
    requires n <= 18
    ensures ChunkText("Dr." + " " + "Smith is here." + " " + "He will meet you at noon.", n)[0]
      == "Dr." + " " + "Smith is here."
  {
    AbbreviationSplit();
    FirstTwoOverflow(["Dr.", "Smith is here.", "He will meet you at noon."], n);
    StripNoEdgeSpace("Dr." + " " + "Smith is here.");
  }

  /** The text "Question? Exclamation! Statement. Another one.", written as
      its pieces, splits at each of its three terminators. */
  lemma PunctuationSplit()
    ensures Sentences("Question?" + " " + "Exclamation!" + " " + "Statement." + " " + "Another one.")
      == ["Question?", "Exclamation!", "Statement.", "Another one."]
  {
    var ss := ["Question?", "Exclamation!", "Statement.", "Another one."];
    NoBoundaryBeforeLast("Question", '?');
    NoBoundaryBeforeLast("Exclamation", '!');
    NoBoundaryBeforeLast("Statement", '.');
    NoBoundaryBeforeLast("Another one", '.');
    assert "Question" + ['?'] == "Question?";
    assert "Exclamation" + ['!'] == "Exclamation!";
    assert "Statement" + ['.'] == "Statement.";
    assert "Another one" + ['.'] == "Another one.";
    SplitJoin(ss);
    JoinSpaceFour("Question?", "Exclamation!", "Statement.", "Another one.");
    assert JoinSpace(ss) == "Question?" + " " + "Exclamation!" + " " + "Statement." + " " + "Another one.";
  }

  /** With `n = 10`, indeed with any `n` up to 22, no two neighbouring
      sentences of that text fit together, and it gives four chunks. */
  lemma PunctuationExample(n: int)
    requires n <= 22
    ensures |ChunkText("Question?" + " " + "Exclamation!" + " " + "Statement." + " " + "Another one.", n)| == 4
  {
    PunctuationSplit();
    OneChunkPerSentence(["Question?", "Exclamation!", "Statement.", "Another one."], n, 0);
  }

  // ---------------------------------------------------------------------
  // The best chunk of a collection
  // ---------------------------------------------------------------------

  /** `find_best_chunk(collection, request)`: the request is normalised the
      way the chunks were, and the query's nearest chunk and its distance
      are returned. */
  method FindBestChunk(kit: TextExtration.Toolkit, query: Query, collection: Collection, request: string)
    returns (bestChunk: string, bestDistance: real)
    ensures (bestChunk, bestDistance) == query(collection, TextExtration.Normalize(kit, request))
  {
    var cleaned := TextExtration.TextExtraction.LemmatizationAndPunctClean(kit, request);
    var results := query(collection, cleaned);
    bestDistance := results.1;
    bestChunk := results.0;
  }
}
