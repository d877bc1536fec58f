/**
 * The keyword highlighter of the assistant chat view: find every occurrence
 * of the configured keywords in the lower-cased answer, sort the hits by
 * start, merge overlapping or touching hits in one sweep, and cut the
 * original text into plain and marked pieces.
 */
module Highlighter {
  import opened Strings

  /** A half-open interval [start, end) of the answer text. */
  datatype Span = Span(start: int, end: int)

  /** A piece of the rendered answer; a marked piece is drawn highlighted. */
  datatype Segment = Plain(text: string) | Marked(text: string)

  /**
   * What the renderer returns: the answer string itself when no keyword
   * occurs, otherwise the list of pieces.
   */
  datatype Rendering = Unchanged(text: string) | Pieces(parts: seq<Segment>)

  /** The configured keywords, all lower case. */
  const HighlightKeywords: seq<string> := ["pendorya", "özkaynak", "nav", "portföy", "kira", "değer"]

  predicate NonEmptyWords(kws: seq<string>) {
    forall k :: 0 <= k < |kws| ==> kws[k] != []
  }

  // ---------------------------------------------------------------------
  // Scanning
  // ---------------------------------------------------------------------

  /** The span `h` is an occurrence of `w` in `s`. */
  predicate IsMatch(s: string, w: string, h: Span) {
    h.end == h.start + |w| && OccursAt(s, w, h.start)
  }

  /**
   * The hits of one keyword from position `from` on: each search resumes
   * at the end of the previous hit.
   */
  function Hits(s: string, w: string, from: nat): seq<Span>
    requires w != [] && from <= |s|
    decreases |s| - from
  {
    var i := IndexOf(s, w, from);
    if i == -1 then [] else [Span(i, i + |w|)] + Hits(s, w, i + |w|)
  }

  /** The hits still to come once the search has found `idx` (or -1: none). */
  function HitsFrom(s: string, w: string, idx: int): seq<Span>
    requires w != [] && (idx == -1 || OccursAt(s, w, idx))
  {
    if idx == -1 then [] else [Span(idx, idx + |w|)] + Hits(s, w, idx + |w|)
  }

  /** All hits, keyword after keyword, in the order they are recorded. */
  function AllHits(s: string, kws: seq<string>): seq<Span>
    requires NonEmptyWords(kws)
  {
    if kws == [] then [] else AllHits(s, kws[..|kws| - 1]) + Hits(s, kws[|kws| - 1], 0)
  }

  /** No keyword occurs anywhere in `s`. */
  predicate NoKeywordIn(s: string, kws: seq<string>) {
    forall k, i :: 0 <= k < |kws| && 0 <= i <= |s| ==> !OccursAt(s, kws[k], i)
  }

  /**
   * Every hit of one keyword is an occurrence of it at or after `from`, and
   * the hits come in order without overlapping each other.
   */
  lemma {:induction false} HitsAreMatches(s: string, w: string, from: nat)
    requires w != [] && from <= |s|
    ensures forall j :: 0 <= j < |Hits(s, w, from)| ==>
      from <= Hits(s, w, from)[j].start && IsMatch(s, w, Hits(s, w, from)[j])
    ensures forall j :: 0 < j < |Hits(s, w, from)| ==> Hits(s, w, from)[j - 1].end <= Hits(s, w, from)[j].start
    decreases |s| - from
  {
    var i := IndexOf(s, w, from);
    if i != -1 {
      HitsAreMatches(s, w, i + |w|);
      var rest := Hits(s, w, i + |w|);
      assert Hits(s, w, from) == [Span(i, i + |w|)] + rest;
      if |rest| > 0 {
        assert i + |w| <= rest[0].start;
      }
    }
  }

  /** Every occurrence at or after `from` starts inside some hit of the same keyword. */
  lemma {:induction false} HitsCover(s: string, w: string, from: nat, p: int)
    requires w != [] && from <= |s|
    requires from <= p && OccursAt(s, w, p)
    ensures exists j :: 0 <= j < |Hits(s, w, from)| && Hits(s, w, from)[j].start <= p < Hits(s, w, from)[j].end
    decreases |s| - from
  {
    var i := IndexOf(s, w, from);
    assert i != -1 && i <= p;
    var hs := Hits(s, w, from);
    if p < i + |w| {
      assert hs[0].start <= p < hs[0].end;
    } else {
      HitsCover(s, w, i + |w|, p);
      var rest := Hits(s, w, i + |w|);
      var j :| 0 <= j < |rest| && rest[j].start <= p < rest[j].end;
      assert hs[j + 1] == rest[j];
    }
  }

  /** The span `h` is an occurrence of one of the keywords. */
  predicate MatchesKeyword(s: string, kws: seq<string>, h: Span) {
    exists k :: 0 <= k < |kws| && IsMatch(s, kws[k], h)
  }

  /** Every recorded hit is an occurrence of one of the keywords. */
  lemma {:induction false} AllHitsAreMatches(s: string, kws: seq<string>)
    requires NonEmptyWords(kws)
    ensures forall j :: 0 <= j < |AllHits(s, kws)| ==> MatchesKeyword(s, kws, AllHits(s, kws)[j])
  {
    if kws != [] {
      var n := |kws| - 1;
      var init := kws[..n];
      AllHitsAreMatches(s, init);
      HitsAreMatches(s, kws[n], 0);
      var a, b := AllHits(s, init), Hits(s, kws[n], 0);
      assert AllHits(s, kws) == a + b;
      forall j | 0 <= j < |a + b| ensures MatchesKeyword(s, kws, (a + b)[j]) {
        if j < |a| {
          var k :| 0 <= k < |init| && IsMatch(s, init[k], a[j]);
          assert kws[k] == init[k] && (a + b)[j] == a[j];
        } else {
          assert (a + b)[j] == b[j - |a|];
          assert IsMatch(s, kws[n], (a + b)[j]);
        }
      }
    }
  }

  /** Every occurrence of any keyword starts inside some recorded hit. */
  lemma {:induction false} AllHitsCover(s: string, kws: seq<string>, k: int, p: int)
    requires NonEmptyWords(kws)
    requires 0 <= k < |kws| && OccursAt(s, kws[k], p)
    ensures exists j :: 0 <= j < |AllHits(s, kws)| && AllHits(s, kws)[j].start <= p < AllHits(s, kws)[j].end
  {
    var n := |kws| - 1;
    var init := kws[..n];
    var a, b := AllHits(s, init), Hits(s, kws[n], 0);
    assert AllHits(s, kws) == a + b;
    if k < n {
      assert init[k] == kws[k];
      AllHitsCover(s, init, k, p);
      var j :| 0 <= j < |a| && a[j].start <= p < a[j].end;
      assert (a + b)[j] == a[j];
    } else {
      HitsCover(s, kws[n], 0, p);
      var j :| 0 <= j < |b| && b[j].start <= p < b[j].end;
      assert (a + b)[|a| + j] == b[j];
    }
  }

  /** No hit is recorded exactly when no keyword occurs. */
  lemma AllHitsEmpty(s: string, kws: seq<string>)
    requires NonEmptyWords(kws)
    ensures AllHits(s, kws) == [] <==> NoKeywordIn(s, kws)
  {
    if AllHits(s, kws) == [] {
      forall k, i | 0 <= k < |kws| && 0 <= i <= |s| ensures !OccursAt(s, kws[k], i) {
        if OccursAt(s, kws[k], i) {
          AllHitsCover(s, kws, k, i);
        }
      }
    } else {
      AllHitsAreMatches(s, kws);
      assert MatchesKeyword(s, kws, AllHits(s, kws)[0]);
      var k :| 0 <= k < |kws| && IsMatch(s, kws[k], AllHits(s, kws)[0]);
      assert OccursAt(s, kws[k], AllHits(s, kws)[0].start);
    }
  }

  /** The search restarted after a hit finds the rest of the hits. */
  lemma HitsFromStep(s: string, w: string, idx: int)
    requires w != [] && OccursAt(s, w, idx)
    ensures HitsFrom(s, w, idx) == [Span(idx, idx + |w|)] + HitsFrom(s, w, IndexOf(s, w, idx + |w|))
  {
  }

  /** Appends the hits of one keyword: search, record, resume after the hit. */
  method AppendHits(indices: seq<Span>, lower: string, kw: string) returns (out: seq<Span>)
    requires kw != []
    ensures out == indices + Hits(lower, kw, 0)
  {
    out := indices;
    var idx := IndexOf(lower, kw, 0);
    while idx != -1
      invariant idx == -1 || OccursAt(lower, kw, idx)
      invariant out + HitsFrom(lower, kw, idx) == indices + Hits(lower, kw, 0)
      decreases if idx == -1 then 0 else |lower| + 1 - idx
    {
      HitsFromStep(lower, kw, idx);
      out := out + [Span(idx, idx + |kw|)];
      idx := IndexOf(lower, kw, idx + |kw|);
    }
  }

  /** Records every hit of every keyword, in keyword order. */
  method CollectHits(lower: string, keywords: seq<string>) returns (indices: seq<Span>)
    requires NonEmptyWords(keywords)
    ensures indices == AllHits(lower, keywords)
  {
    indices := [];
    for k := 0 to |keywords|
      invariant indices == AllHits(lower, keywords[..k])
    {
      indices := AppendHits(indices, lower, keywords[k]);
      assert keywords[..k + 1][..k] == keywords[..k];
    }
    assert keywords[..|keywords|] == keywords;
  }

  // ---------------------------------------------------------------------
  // Sorting
  // ---------------------------------------------------------------------

  predicate SortedByStart(spans: seq<Span>) {
    forall i, j :: 0 <= i < j < |spans| ==> spans[i].start <= spans[j].start
  }

  method Swap(a: array<Span>, i: int, j: int)
    requires 0 <= i < j < a.Length
    modifies a
    ensures a[i] == old(a[j]) && a[j] == old(a[i])
    ensures forall k :: 0 <= k < a.Length && k != i && k != j ==> a[k] == old(a[k])
    ensures multiset(a[..]) == multiset(old(a[..]))
  {
    a[i], a[j] := a[j], a[i];
  }

  /** Sorts the hits by start in place (insertion sort by adjacent swaps). */
  method SortByStart(a: array<Span>)
    modifies a
    ensures SortedByStart(a[..])
    ensures multiset(a[..]) == multiset(old(a[..]))
  {
    for i := 0 to a.Length
      invariant forall p, q :: 0 <= p < q < i ==> a[p].start <= a[q].start
      invariant multiset(a[..]) == multiset(old(a[..]))
    {
      var j := i;
      while j > 0 && a[j - 1].start > a[j].start
        invariant 0 <= j <= i
        invariant multiset(a[..]) == multiset(old(a[..]))
        invariant forall p, q :: 0 <= p < q <= i && q != j ==> a[p].start <= a[q].start
        invariant 0 < j < i ==> a[j - 1].start <= a[j + 1].start
      {
        Swap(a, j - 1, j);
        j := j - 1;
      }
    }
  }

  // ---------------------------------------------------------------------
  // Positions covered by spans, and merging
  // ---------------------------------------------------------------------

  /** Position `p` lies inside one of the spans. */
  predicate Covers(spans: seq<Span>, p: int) {
    exists j :: 0 <= j < |spans| && spans[j].start <= p < spans[j].end
  }

  lemma CoversAppend(spans: seq<Span>, h: Span)
    ensures forall p :: Covers(spans + [h], p) <==> Covers(spans, p) || h.start <= p < h.end
  {
    forall p ensures Covers(spans + [h], p) <==> Covers(spans, p) || h.start <= p < h.end {
      if Covers(spans + [h], p) {
        var j :| 0 <= j < |spans + [h]| && (spans + [h])[j].start <= p < (spans + [h])[j].end;
        if j < |spans| {
          assert spans[j] == (spans + [h])[j];
        }
      }
      if Covers(spans, p) {
        var j :| 0 <= j < |spans| && spans[j].start <= p < spans[j].end;
        assert (spans + [h])[j] == spans[j];
      }
      if h.start <= p < h.end {
        assert (spans + [h])[|spans|] == h;
      }
    }
  }

  /** Covered positions depend only on which spans occur, not on their order. */
  lemma CoversSameSpans(xs: seq<Span>, ys: seq<Span>)
    requires multiset(xs) == multiset(ys)
    ensures forall p :: Covers(xs, p) <==> Covers(ys, p)
  {
    forall p ensures Covers(xs, p) ==> Covers(ys, p) {
      if Covers(xs, p) {
        var j :| 0 <= j < |xs| && xs[j].start <= p < xs[j].end;
        assert xs[j] in multiset(ys);
        var k :| 0 <= k < |ys| && ys[k] == xs[j];
      }
    }
    forall p ensures Covers(ys, p) ==> Covers(xs, p) {
      if Covers(ys, p) {
        var j :| 0 <= j < |ys| && ys[j].start <= p < ys[j].end;
        assert ys[j] in multiset(xs);
        var k :| 0 <= k < |xs| && xs[k] == ys[j];
      }
    }
  }

  /**
   * Non-empty spans in increasing order with at least one uncovered
   * position between consecutive ones.
   */
  predicate Separated(spans: seq<Span>) {
    (forall j :: 0 <= j < |spans| ==> spans[j].start < spans[j].end)
    && (forall j :: 0 < j < |spans| ==> spans[j - 1].end < spans[j].start)
  }

  /**
   * One step of the sweep: `r` (not starting before the last merged span)
   * either extends the last merged span or is pushed as a new one.
   */
  function MergeStep(merged: seq<Span>, r: Span): seq<Span> {
    if merged == [] || r.start > merged[|merged| - 1].end then merged + [r]
    else if r.end > merged[|merged| - 1].end then merged[|merged| - 1 := Span(merged[|merged| - 1].start, r.end)]
    else merged
  }

  /** The sweep step keeps the spans separated and adds exactly the positions of `r`. */
  lemma MergeStepCovers(merged: seq<Span>, r: Span)
    requires Separated(merged) && r.start < r.end
    requires merged != [] ==> merged[|merged| - 1].start <= r.start
    ensures Separated(MergeStep(merged, r))
    ensures forall p :: Covers(MergeStep(merged, r), p) <==> Covers(merged, p) || r.start <= p < r.end
  {
    CoversAppend(merged, r);
    if merged != [] && r.start <= merged[|merged| - 1].end {
      var n := |merged| - 1;
      var last := merged[n];
      assert merged == merged[..n] + [last];
      CoversAppend(merged[..n], last);
      if r.end > last.end {
        var grown := Span(last.start, r.end);
        assert merged[..n] + [grown] == merged[n := grown];
        CoversAppend(merged[..n], grown);
      }
    }
  }

  /** Two lists of spans cover the same positions. */
  ghost predicate SameCoverage(a: seq<Span>, b: seq<Span>) {
    forall p :: Covers(a, p) <==> Covers(b, p)
  }

  /** Merging hit `k` into spans that cover the first `k` hits covers the first `k + 1`. */
  lemma MergeStepExtends(merged: seq<Span>, sorted: seq<Span>, k: nat)
    requires k < |sorted| && sorted[k].start < sorted[k].end && Separated(merged)
    requires merged != [] ==> merged[|merged| - 1].start <= sorted[k].start
    requires SameCoverage(merged, sorted[..k])
    ensures Separated(MergeStep(merged, sorted[k]))
    ensures SameCoverage(MergeStep(merged, sorted[k]), sorted[..k + 1])
  {
    MergeStepCovers(merged, sorted[k]);
    CoversAppend(sorted[..k], sorted[k]);
    assert sorted[..k + 1] == sorted[..k] + [sorted[k]];
  }

  /**
   * Merges sorted hits into separated spans: a hit that starts at or before
   * the end of the last merged span extends it, any other starts a new one.
   */
  method MergeSpans(sorted: seq<Span>) returns (merged: seq<Span>)
    requires SortedByStart(sorted)
    requires forall j :: 0 <= j < |sorted| ==> sorted[j].start < sorted[j].end
    ensures Separated(merged)
    ensures forall p :: Covers(merged, p) <==> Covers(sorted, p)
    ensures |merged| <= |sorted|
    ensures merged == [] <==> sorted == []
  {
    merged := [];
    for k := 0 to |sorted|
      invariant Separated(merged)
      invariant SameCoverage(merged, sorted[..k])
      invariant |merged| <= k
      invariant merged == [] <==> k == 0
      invariant k > 0 ==> merged[|merged| - 1].start <= sorted[k - 1].start
    {
      var r := sorted[k];
      ghost var previous := merged;
      MergeStepExtends(merged, sorted, k);
      if merged == [] || r.start > merged[|merged| - 1].end {
        merged := merged + [r];
      } else if r.end > merged[|merged| - 1].end {
        merged := merged[|merged| - 1 := Span(merged[|merged| - 1].start, r.end)];
      }
      assert merged == MergeStep(previous, r);
    }
    assert sorted[..|sorted|] == sorted;
  }

  // ---------------------------------------------------------------------
  // Cutting the text into pieces
  // ---------------------------------------------------------------------

  /** The text of the pieces, in order. */
  function Flatten(parts: seq<Segment>): string {
    if parts == [] then [] else Flatten(parts[..|parts| - 1]) + parts[|parts| - 1].text
  }

  /** For each character of `Flatten(parts)`, whether it lies in a marked piece. */
  function Mask(parts: seq<Segment>): (m: seq<bool>)
    ensures |m| == |Flatten(parts)|
  {
    if parts == [] then []
    else
      var last := parts[|parts| - 1];
      Mask(parts[..|parts| - 1]) + seq(|last.text|, _ => last.Marked?)
  }

  /** No piece is empty and plain and marked pieces alternate. */
  predicate Alternating(parts: seq<Segment>) {
    (forall j :: 0 <= j < |parts| ==> parts[j].text != [])
    && (forall j :: 0 < j < |parts| ==> parts[j - 1].Marked? != parts[j].Marked?)
  }

  lemma AppendPiece(parts: seq<Segment>, x: Segment)
    ensures Flatten(parts + [x]) == Flatten(parts) + x.text
    ensures Mask(parts + [x]) == Mask(parts) + seq(|x.text|, _ => x.Marked?)
  {
    assert (parts + [x])[..|parts|] == parts;
  }

  /** In separated spans every span ends before every later one starts. */
  lemma {:induction false} SeparatedEnds(spans: seq<Span>, i: int, j: int)
    requires Separated(spans) && 0 <= i < j < |spans|
    ensures spans[i].end < spans[j].start
    decreases j - i
  {
    if i + 1 < j {
      SeparatedEnds(spans, i, j - 1);
      SeparatedEnds(spans, j - 1, j);
    }
  }

  /** Emitting the gap before span `r` and `r` itself. */
  lemma EmitSpan(text: string, parts: seq<Segment>, cursor: int, r: Span)
    requires 0 <= cursor <= r.start < r.end <= |text|
    requires Flatten(parts) == text[..cursor]
    ensures var gap := if cursor < r.start then [Plain(text[cursor..r.start])] else [];
      var parts' := parts + gap + [Marked(text[r.start..r.end])];
      && Flatten(parts') == text[..r.end]
      && (forall p :: 0 <= p < cursor ==> Mask(parts')[p] == Mask(parts)[p])
      && (forall p :: cursor <= p < r.end ==> Mask(parts')[p] == (r.start <= p))
  {
    var gap := if cursor < r.start then [Plain(text[cursor..r.start])] else [];
    var mid := parts + gap;
    if cursor < r.start {
      AppendPiece(parts, Plain(text[cursor..r.start]));
    } else {
      assert mid == parts;
    }
    AppendPiece(mid, Marked(text[r.start..r.end]));
    assert text[..r.end] == text[..cursor] + text[cursor..r.start] + text[r.start..r.end];
  }

  /** What holds after the first `i` merged spans have been emitted, up to `cursor`. */
  ghost predicate Emitted(text: string, merged: seq<Span>, i: int, parts: seq<Segment>, cursor: int)
    requires 0 <= i <= |merged|
  {
    && cursor == (if i == 0 then 0 else merged[i - 1].end)
    && 0 <= cursor <= |text|
    && Flatten(parts) == text[..cursor]
    && Alternating(parts)
    && (i > 0 ==> parts != [] && parts[|parts| - 1].Marked?)
    && (forall p :: Covers(merged[..i], p) ==> p < cursor)
    && (forall p :: 0 <= p < cursor ==> (Mask(parts)[p] <==> Covers(merged[..i], p)))
  }

  /** Emitting the gap before the next merged span and the span itself keeps `Emitted`. */
  lemma EmitNext(text: string, merged: seq<Span>, i: int, parts: seq<Segment>, cursor: int)
    requires Separated(merged) && 0 <= i < |merged|
    requires forall j :: 0 <= j < |merged| ==> 0 <= merged[j].start && merged[j].end <= |text|
    requires Emitted(text, merged, i, parts, cursor)
    ensures var r := merged[i];
      var gap := if cursor < r.start then [Plain(text[cursor..r.start])] else [];
      Emitted(text, merged, i + 1, parts + gap + [Marked(text[r.start..r.end])], r.end)
  {
    var r := merged[i];
    if i > 0 {
      SeparatedEnds(merged, i - 1, i);
    }
    EmitSpan(text, parts, cursor, r);
    CoversAppend(merged[..i], r);
    assert merged[..i + 1] == merged[..i] + [r];
  }

  /**
   * Emits, for each merged span, the plain gap before it (when non-empty)
   * and the marked span, then the plain rest of the text (when non-empty).
   */
  method Segments(text: string, merged: seq<Span>) returns (parts: seq<Segment>)
    requires merged != [] && Separated(merged)
    requires forall j :: 0 <= j < |merged| ==> 0 <= merged[j].start && merged[j].end <= |text|
    ensures Flatten(parts) == text
    ensures Alternating(parts)
    ensures forall p :: 0 <= p < |text| ==> (Mask(parts)[p] <==> Covers(merged, p))
  {
    parts := [];
    var cursor := 0;
    for i := 0 to |merged|
      invariant Emitted(text, merged, i, parts, cursor)
    {
      var r := merged[i];
      EmitNext(text, merged, i, parts, cursor);
      if cursor < r.start {
        parts := parts + [Plain(text[cursor..r.start])];
      }
      parts := parts + [Marked(text[r.start..r.end])];
      cursor := r.end;
    }
    assert merged[..|merged|] == merged;
    if cursor < |text| {
      AppendPiece(parts, Plain(text[cursor..]));
      parts := parts + [Plain(text[cursor..])];
      assert text == text[..cursor] + text[cursor..];
    }
  }

  // ---------------------------------------------------------------------
  // The renderer
  // ---------------------------------------------------------------------

  /** The text a rendering shows. */
  function Shown(out: Rendering): string {
    match out
    case Unchanged(t) => t
    case Pieces(ps) => Flatten(ps)
  }

  /** Covered positions of recorded hits lie inside the scanned text. */
  lemma HitsWithin(s: string, kws: seq<string>, p: int)
    requires NonEmptyWords(kws)
    requires Covers(AllHits(s, kws), p)
    ensures 0 <= p < |s|
  {
    AllHitsAreMatches(s, kws);
  }

  /** A reordering of the recorded hits consists of non-empty spans inside the text. */
  lemma ReorderedHits(s: string, kws: seq<string>, sorted: seq<Span>)
    requires NonEmptyWords(kws)
    requires multiset(sorted) == multiset(AllHits(s, kws))
    ensures forall j :: 0 <= j < |sorted| ==> sorted[j].start < sorted[j].end
    ensures forall p :: Covers(sorted, p) <==> Covers(AllHits(s, kws), p)
  {
    var hits := AllHits(s, kws);
    AllHitsAreMatches(s, kws);
    CoversSameSpans(sorted, hits);
    forall j | 0 <= j < |sorted| ensures sorted[j].start < sorted[j].end {
      assert sorted[j] in multiset(hits);
      var k :| 0 <= k < |hits| && hits[k] == sorted[j];
      assert MatchesKeyword(s, kws, hits[k]);
      var w :| 0 <= w < |kws| && IsMatch(s, kws[w], hits[k]);
    }
  }

  /** Spans covering only positions of recorded hits lie inside the text. */
  lemma MergedWithin(s: string, kws: seq<string>, merged: seq<Span>)
    requires NonEmptyWords(kws) && Separated(merged)
    requires forall p :: Covers(merged, p) <==> Covers(AllHits(s, kws), p)
    ensures forall j :: 0 <= j < |merged| ==> 0 <= merged[j].start && merged[j].end <= |s|
  {
    forall j | 0 <= j < |merged| ensures 0 <= merged[j].start && merged[j].end <= |s| {
      assert Covers(merged, merged[j].start) && Covers(merged, merged[j].end - 1);
      HitsWithin(s, kws, merged[j].start);
      HitsWithin(s, kws, merged[j].end - 1);
    }
  }

  /**
   * Highlights the configured keywords in an answer. `fold` is the
   * per-character lower-casing used for matching only.
   */
  method RenderHighlightedText(text: string, fold: char -> char) returns (out: Rendering)
    ensures Shown(out) == text
    ensures out.Unchanged? <==> NoKeywordIn(Lower(text, fold), HighlightKeywords)
    ensures out.Pieces? ==> Alternating(out.parts)
    ensures out.Pieces? ==> forall p :: 0 <= p < |text| ==>
      (Mask(out.parts)[p] <==> Covers(AllHits(Lower(text, fold), HighlightKeywords), p))
  {
    var lower := Lower(text, fold);
    var indices := CollectHits(lower, HighlightKeywords);
    AllHitsEmpty(lower, HighlightKeywords);
    if indices == [] {
      return Unchanged(text);
    }
    var a := new Span[|indices|](j requires 0 <= j < |indices| => indices[j]);
    assert a[..] == indices;
    SortByStart(a);
    var sorted := a[..];
    ReorderedHits(lower, HighlightKeywords, sorted);
    var merged := MergeSpans(sorted);
    MergedWithin(lower, HighlightKeywords, merged);
    var parts := Segments(text, merged);
    out := Pieces(parts);
  }
}
