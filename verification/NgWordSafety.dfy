/**
  What masking achieves (model/ng_word.go): which words are never found in a masked text (exactly
  those that an inserted mask cannot make up), that the result does not depend on the order or
  repetition of the words, and that clean text is returned unchanged.

  The only facts taken from Unicode are in `PerSegment`: the mask is its own normal form, and
  normalising a text that was put together from segments and masks normalises each piece alone.
 */
module NgWordSafety {
  import opened Sequences
  import opened Wrappers
  import opened NgWordText
  import opened NgWordMask

  /** The redacted text as a list of pieces: kept segments and masks. */
  ghost function Pieces(u: Unicode, text: string, spans: set<Span>, start: nat): seq<string>
    requires Sane(u) && start <= |text|
    decreases |text| - start
  {
    if start == |text| then [] else
      var end := SegmentEnd(u, text, start);
      var rest := Pieces(u, text, spans, end);
      if !Covered(spans, start) then [text[start..end]] + rest
      else if Joined(spans, start) then rest
      else [MASK] + rest
  }

  ghost function Join(pieces: seq<string>): string {
    if pieces == [] then "" else pieces[0] + Join(pieces[1..])
  }

  ghost function JoinNormalized(u: Unicode, pieces: seq<string>): string {
    if pieces == [] then "" else u.normalize(pieces[0]) + JoinNormalized(u, pieces[1..])
  }

  /** Normalisation works piece by piece on every redaction of a text (the text itself included). */
  ghost predicate PerSegment(u: Unicode) {
    && Sane(u)
    && u.normalize(MASK) == MASK
    && forall text: string, spans: set<Span> | Aligned(u, text, spans) ::
         u.normalize(Join(Pieces(u, text, spans, 0))) == JoinNormalized(u, Pieces(u, text, spans, 0))
  }

  /** Inside a segment, an aligned span covers all or nothing, and joins all that it covers. */
  lemma SegmentIsUniform(u: Unicode, text: string, spans: set<Span>, c: nat)
    requires Sane(u) && c < |text| && Aligned(u, text, spans) && IsCut(u, text, 0, c)
    ensures var end := SegmentEnd(u, text, c);
            && (forall x :: c <= x < end ==> (Covered(spans, x) <==> Covered(spans, c)))
            && (Covered(spans, c) ==> forall x :: c < x < end ==> Joined(spans, x))
            && (!Covered(spans, c) ==> !Joined(spans, end))
  {
    var end := SegmentEnd(u, text, c);
    forall s | s in spans
      ensures (s.start <= c && end <= s.end) || s.end <= c || end <= s.start
    {
      NoCutInsideSegment(u, text, 0, c, s.start);
      NoCutInsideSegment(u, text, 0, c, s.end);
    }
  }

  /** One segment's part of a redaction, before the part `rest` of what follows. */
  ghost function Piece(spans: set<Span>, c: nat, segment: string, rest: string): string {
    if !Covered(spans, c) then segment + rest
    else if Joined(spans, c) then rest
    else MASK + rest
  }

  lemma FirstPiece(u: Unicode, text: string, spans: set<Span>, c: nat)
    requires PerSegment(u) && c < |text|
    ensures var end := SegmentEnd(u, text, c);
            JoinNormalized(u, Pieces(u, text, spans, c))
            == Piece(spans, c, u.normalize(text[c..end]), JoinNormalized(u, Pieces(u, text, spans, end)))
  {
    var end := SegmentEnd(u, text, c);
    var pieces := Pieces(u, text, spans, end);
    assert ([text[c..end]] + pieces)[1..] == pieces && ([MASK] + pieces)[1..] == pieces;
  }

  lemma FirstPieceJoined(u: Unicode, text: string, spans: set<Span>, c: nat)
    requires Sane(u) && c < |text|
    ensures var end := SegmentEnd(u, text, c);
            Join(Pieces(u, text, spans, c)) == Piece(spans, c, text[c..end], Join(Pieces(u, text, spans, end)))
  {
    var end := SegmentEnd(u, text, c);
    var pieces := Pieces(u, text, spans, end);
    assert ([text[c..end]] + pieces)[1..] == pieces && ([MASK] + pieces)[1..] == pieces;
  }

  lemma RedactedSegment(text: string, spans: set<Span>, c: nat, end: nat)
    requires c < end <= |text|
    requires forall x :: c <= x < end ==> (Covered(spans, x) <==> Covered(spans, c))
    requires Covered(spans, c) ==> forall x :: c < x < end ==> Joined(spans, x)
    ensures Redacted(text, spans, c) == Piece(spans, c, text[c..end], Redacted(text, spans, end))
  {
    if !Covered(spans, c) {
      RedactedKeeps(text, spans, c, end);
    } else if Joined(spans, c) {
      RedactedSkips(text, spans, c, end);
    } else {
      RedactedSkips(text, spans, c + 1, end);
    }
  }

  /** The character-wise specification and the pieces describe the same text. */
  lemma {:induction false} RedactedIsPieces(u: Unicode, text: string, spans: set<Span>, c: nat)
    requires Sane(u) && c <= |text| && Aligned(u, text, spans) && IsCut(u, text, 0, c)
    ensures Redacted(text, spans, c) == Join(Pieces(u, text, spans, c))
    decreases |text| - c
  {
    if c < |text| {
      var end := SegmentEnd(u, text, c);
      CutAdvances(u, text, 0, c);
      SegmentIsUniform(u, text, spans, c);
      RedactedIsPieces(u, text, spans, end);
      RedactedSegment(text, spans, c, end);
      FirstPieceJoined(u, text, spans, c);
    }
  }

  // ----- Where each normalised character of the redacted text comes from

  const MASKED := -1

  /** For each normalised character: its position in the normalised original, or MASKED. `v` counts from `start`. */
  ghost function Sources(u: Unicode, text: string, spans: set<Span>, start: nat, v: nat): seq<int>
    requires Sane(u) && start <= |text|
    decreases |text| - start
  {
    if start == |text| then [] else
      var end := SegmentEnd(u, text, start);
      var n := |u.normalize(text[start..end])|;
      var rest := Sources(u, text, spans, end, v + n);
      if !Covered(spans, start) then Consecutive(v, n) + rest
      else if Joined(spans, start) then rest
      else [MASKED, MASKED, MASKED, MASKED] + rest
  }

  /** One character's source is right: a mask character, or an uncovered character of the original. */
  ghost predicate SourceOk(value: string, origins: seq<Span>, spans: set<Span>, ch: char, src: int)
    requires |origins| == |value|
  {
    || (src == MASKED && ch == CROSS)
    || (0 <= src < |value| && ch == value[src] && !Covered(spans, origins[src].start))
  }

  /** Neighbouring unmasked characters were neighbours in the original. */
  ghost predicate Contiguous(sources: seq<int>) {
    forall q :: 0 <= q < |sources| - 1 && sources[q] != MASKED && sources[q + 1] != MASKED ==>
      sources[q + 1] == sources[q] + 1
  }

  /** `sources` explains the normalised text `normal`. */
  ghost predicate Explains(value: string, origins: seq<Span>, spans: set<Span>, normal: string, sources: seq<int>)
    requires |origins| == |value|
  {
    && |sources| == |normal|
    && (forall q :: 0 <= q < |normal| ==> SourceOk(value, origins, spans, normal[q], sources[q]))
    && Contiguous(sources)
  }

  /** What may follow an unmasked character at `v - 1`: nothing, a mask, or the character at `v`. */
  ghost predicate Continues(sources: seq<int>, v: nat) {
    sources == [] || sources[0] == MASKED || sources[0] == v
  }

  /** The positions from `v` on are those of the segment starting at `c`. */
  ghost predicate SegmentAt(value: string, origins: seq<Span>, v: nat, c: int, segment: string)
    requires |origins| == |value|
  {
    && v + |segment| <= |value|
    && forall i :: 0 <= i < |segment| ==> value[v + i] == segment[i] && origins[v + i].start == c
  }

  lemma ExplainKept(value: string, origins: seq<Span>, spans: set<Span>, v: nat, c: int,
                    segment: string, normal: string, sources: seq<int>)
    requires |origins| == |value|
    requires Explains(value, origins, spans, normal, sources) && Continues(sources, v + |segment|)
    requires !Covered(spans, c)
    requires SegmentAt(value, origins, v, c, segment)
    ensures Explains(value, origins, spans, segment + normal, Consecutive(v, |segment|) + sources)
    ensures Continues(Consecutive(v, |segment|) + sources, v)
  {
    var n := |segment|;
    var all := Consecutive(v, n) + sources;
    forall q | 0 <= q < |all|
      ensures SourceOk(value, origins, spans, (segment + normal)[q], all[q])
    {
      if q >= n {
        assert SourceOk(value, origins, spans, normal[q - n], sources[q - n]);
      }
    }
    ContiguousAfterRun(v, n, sources);
  }

  lemma ContiguousAfterRun(v: nat, n: nat, sources: seq<int>)
    requires Contiguous(sources) && Continues(sources, v + n)
    ensures Contiguous(Consecutive(v, n) + sources) && Continues(Consecutive(v, n) + sources, v)
  {
    var all := Consecutive(v, n) + sources;
    forall q | 0 <= q < |all| - 1 && all[q] != MASKED && all[q + 1] != MASKED
      ensures all[q + 1] == all[q] + 1
    {
      if q >= n {
        assert sources[q - n + 1] == all[q + 1];
      }
    }
  }

  lemma ExplainMask(value: string, origins: seq<Span>, spans: set<Span>, normal: string, sources: seq<int>)
    requires |origins| == |value| && Explains(value, origins, spans, normal, sources)
    ensures Explains(value, origins, spans, MASK + normal, [MASKED, MASKED, MASKED, MASKED] + sources)
  {
    var all := [MASKED, MASKED, MASKED, MASKED] + sources;
    forall q | 0 <= q < |all|
      ensures SourceOk(value, origins, spans, (MASK + normal)[q], all[q])
    {
      if q >= 4 {
        assert SourceOk(value, origins, spans, normal[q - 4], sources[q - 4]);
      }
    }
    forall q | 0 <= q < |all| - 1 && all[q] != MASKED && all[q + 1] != MASKED
      ensures all[q + 1] == all[q] + 1
    {
      assert q >= 4 && sources[q - 4 + 1] == all[q + 1];
    }
  }

  /** At a kept segment, the normalised positions from `v` on are the segment's own. */
  lemma SegmentInValue(u: Unicode, text: string, c: nat, v: nat, value: string, origins: seq<Span>)
    requires Sane(u) && c < |text| && |origins| == |value| && v <= |value|
    requires value[v..] == ValueFrom(u, text, c) && origins[v..] == OriginsFrom(u, text, c)
    ensures var end := SegmentEnd(u, text, c);
            var segment := u.normalize(text[c..end]);
            var w := v + |segment|;
            && SegmentAt(value, origins, v, c, segment)
            && value[w..] == ValueFrom(u, text, end) && origins[w..] == OriginsFrom(u, text, end)
  {
    var end := SegmentEnd(u, text, c);
    var segment := u.normalize(text[c..end]);
    assert |value[v..]| == |segment| + |ValueFrom(u, text, end)|;
    assert value[v..][|segment|..] == value[v + |segment|..];
    assert origins[v..][|segment|..] == origins[v + |segment|..];
    forall i | 0 <= i < |segment|
      ensures value[v + i] == segment[i] && origins[v + i].start == c
    {
      assert value[v..][i] == value[v + i] && origins[v..][i] == origins[v + i];
    }
  }

  lemma KeptSegmentEndsApart(u: Unicode, text: string, spans: set<Span>, c: nat)
    requires Sane(u) && c < |text| && Aligned(u, text, spans) && IsCut(u, text, 0, c)
    ensures !Covered(spans, c) ==> !Joined(spans, SegmentEnd(u, text, c))
  {
    SegmentIsUniform(u, text, spans, c);
  }

  /** The sources of one segment's part, before the sources of what follows. */
  ghost function PieceSources(spans: set<Span>, c: nat, v: nat, n: nat, sources: seq<int>): seq<int> {
    if !Covered(spans, c) then Consecutive(v, n) + sources
    else if Joined(spans, c) then sources
    else [MASKED, MASKED, MASKED, MASKED] + sources
  }

  lemma FirstSources(u: Unicode, text: string, spans: set<Span>, c: nat, v: nat)
    requires Sane(u) && c < |text|
    ensures var end := SegmentEnd(u, text, c);
            var n := |u.normalize(text[c..end])|;
            Sources(u, text, spans, c, v) == PieceSources(spans, c, v, n, Sources(u, text, spans, end, v + n))
  {
  }

  /** If the rest is explained, it is with a segment before it: kept, hidden in the mask before it, or masked. */
  lemma ExplainPiece(value: string, origins: seq<Span>, spans: set<Span>, c: nat, v: nat, end: nat,
                     segment: string, normal: string, sources: seq<int>)
    requires |origins| == |value|
    requires SegmentAt(value, origins, v, c, segment)
    requires Explains(value, origins, spans, normal, sources)
    requires Joined(spans, end) || Continues(sources, v + |segment|)
    requires !Covered(spans, c) ==> !Joined(spans, end)
    ensures Explains(value, origins, spans,
                     Piece(spans, c, segment, normal), PieceSources(spans, c, v, |segment|, sources))
    ensures Joined(spans, c) || Continues(PieceSources(spans, c, v, |segment|, sources), v)
  {
    if !Covered(spans, c) {
      ExplainKept(value, origins, spans, v, c, segment, normal, sources);
    } else if !Joined(spans, c) {
      ExplainMask(value, origins, spans, normal, sources);
    }
  }

  /** From `c` on, the sources explain the normalised redaction and may follow what stands before. */
  ghost predicate Explained(u: Unicode, text: string, spans: set<Span>, c: nat, v: nat,
                            value: string, origins: seq<Span>)
    requires Sane(u) && c <= |text| && |origins| == |value|
  {
    && Explains(value, origins, spans, JoinNormalized(u, Pieces(u, text, spans, c)), Sources(u, text, spans, c, v))
    && (Joined(spans, c) || Continues(Sources(u, text, spans, c, v), v))
  }

  lemma ExplainSegment(u: Unicode, text: string, spans: set<Span>, c: nat, v: nat, value: string, origins: seq<Span>)
    requires PerSegment(u) && c < |text| && |origins| == |value|
    requires !Covered(spans, c) ==> !Joined(spans, SegmentEnd(u, text, c))
    requires var end := SegmentEnd(u, text, c);
             var segment := u.normalize(text[c..end]);
             && SegmentAt(value, origins, v, c, segment)
             && Explained(u, text, spans, end, v + |segment|, value, origins)
    ensures Explained(u, text, spans, c, v, value, origins)
  {
    var end := SegmentEnd(u, text, c);
    var segment := u.normalize(text[c..end]);
    ExplainPiece(value, origins, spans, c, v, end, segment,
                 JoinNormalized(u, Pieces(u, text, spans, end)), Sources(u, text, spans, end, v + |segment|));
    FirstPiece(u, text, spans, c);
    FirstSources(u, text, spans, c, v);
  }

  lemma {:induction false} SourcesAreRight(u: Unicode, text: string, spans: set<Span>, c: nat, v: nat,
                                           value: string, origins: seq<Span>)
    requires PerSegment(u) && c <= |text| && Aligned(u, text, spans) && IsCut(u, text, 0, c)
    requires |origins| == |value| && v <= |value|
    requires value[v..] == ValueFrom(u, text, c) && origins[v..] == OriginsFrom(u, text, c)
    ensures Explained(u, text, spans, c, v, value, origins)
    decreases |text| - c
  {
    if c < |text| {
      var end := SegmentEnd(u, text, c);
      CutAdvances(u, text, 0, c);
      KeptSegmentEndsApart(u, text, spans, c);
      SegmentInValue(u, text, c, v, value, origins);
      SourcesAreRight(u, text, spans, end, v + |u.normalize(text[c..end])|, value, origins);
      ExplainSegment(u, text, spans, c, v, value, origins);
    }
  }

  /** A whole mask begins at `b`. */
  predicate MaskAt(sources: seq<int>, b: int) {
    0 <= b && b + 4 <= |sources|
    && sources[b] == MASKED && sources[b + 1] == MASKED && sources[b + 2] == MASKED && sources[b + 3] == MASKED
  }

  /** Position `k` is part of a whole mask. */
  ghost predicate InMask(sources: seq<int>, k: int) {
    exists b :: b <= k < b + 4 && MaskAt(sources, b)
  }

  lemma InMaskLater(before: seq<int>, sources: seq<int>, k: int)
    requires InMask(sources, k)
    ensures InMask(before + sources, |before| + k)
  {
    var b :| b <= k < b + 4 && MaskAt(sources, b);
    assert MaskAt(before + sources, |before| + b);
  }

  /** Masks are inserted whole. */
  lemma {:induction false} MasksAreWhole(u: Unicode, text: string, spans: set<Span>, c: nat, v: nat)
    requires Sane(u) && c <= |text|
    ensures Whole(Sources(u, text, spans, c, v))
    decreases |text| - c
  {
    if c < |text| {
      var end := SegmentEnd(u, text, c);
      var n := |u.normalize(text[c..end])|;
      MasksAreWhole(u, text, spans, end, v + n);
      FirstSources(u, text, spans, c, v);
      PieceKeepsWhole(spans, c, v, n, Sources(u, text, spans, end, v + n));
    }
  }

  ghost predicate WholeAt(sources: seq<int>, k: int) {
    0 <= k < |sources| && sources[k] == MASKED ==> InMask(sources, k)
  }

  ghost predicate Whole(sources: seq<int>) {
    forall k :: WholeAt(sources, k)
  }

  lemma PieceKeepsWhole(spans: set<Span>, c: nat, v: nat, n: nat, sources: seq<int>)
    requires Whole(sources)
    ensures Whole(PieceSources(spans, c, v, n, sources))
  {
    if !Covered(spans, c) {
      WholeAfter(Consecutive(v, n), sources);
    } else if !Joined(spans, c) {
      assert MaskAt([MASKED, MASKED, MASKED, MASKED], 0);
      WholeAfter([MASKED, MASKED, MASKED, MASKED], sources);
    }
  }

  lemma WholeAfter(before: seq<int>, sources: seq<int>)
    requires Whole(sources) && (MASKED !in before || (|before| == 4 && MaskAt(before, 0)))
    ensures Whole(before + sources)
  {
    var all := before + sources;
    forall k
      ensures WholeAt(all, k)
    {
      if 0 <= k < |before| && all[k] == MASKED {
        assert before[k] in before;
        assert MaskAt(all, 0);
      } else if |before| <= k < |all| && all[k] == MASKED {
        assert WholeAt(sources, k - |before|);
        InMaskLater(before, sources, k - |before|);
      }
    }
  }

  /** A run of neighbours without a mask is a stretch of the original. */
  lemma {:induction false} ContiguousRun(sources: seq<int>, q: nat, n: nat)
    requires Contiguous(sources) && q < |sources| && q + n <= |sources|
    requires forall k :: q <= k < q + n ==> sources[k] != MASKED
    ensures forall k :: q <= k < q + n ==> sources[k] == sources[q] + (k - q)
  {
    if n > 1 {
      ContiguousRun(sources, q, n - 1);
      assert sources[q + n - 2 + 1] == sources[q + n - 2] + 1;
    }
  }

  // ----- The theorems

  /** An occurrence of a word in the original is wholly covered. */
  lemma OccurrenceIsCovered(u: Unicode, words: seq<Compiled>, text: string, c: Compiled, a: nat)
    requires Sane(u) && c in words && c.Word? && c.needle != ""
    requires OccursAt(ValueFrom(u, text, 0), c.needle, a)
    ensures |OriginsFrom(u, text, 0)| == |ValueFrom(u, text, 0)|
    ensures Covered(RawSpans(u, words, text), OriginsFrom(u, text, 0)[a].start)
    ensures forall k :: a <= k < a + |c.needle| ==>
              forall x :: OriginsFrom(u, text, 0)[k].start <= x < OriginsFrom(u, text, 0)[k].end ==>
                Covered(RawSpans(u, words, text), x)
  {
    OriginsAreSegments(u, text, 0);
    var value, origins := ValueFrom(u, text, 0), OriginsFrom(u, text, 0);
    var b := a + |c.needle|;
    assert MatchesAt(c, value, a, b);
    var hidden := Span(origins[a].start, origins[b - 1].end);
    assert hidden in RawSpans(u, words, text);
    assert origins[a] in origins && origins[a].start < origins[a].end;
  }

  /** The segments of every non-empty match of an expression are wholly covered. */
  lemma RegexMatchIsCovered(u: Unicode, words: seq<Compiled>, text: string, c: Compiled, m: Span)
    requires Sane(u) && c in words && c.Regex?
    requires m in c.find(ValueFrom(u, text, 0)) && 0 <= m.start < m.end <= |ValueFrom(u, text, 0)|
    ensures |OriginsFrom(u, text, 0)| == |ValueFrom(u, text, 0)|
    ensures forall k :: m.start <= k < m.end ==>
              forall x :: OriginsFrom(u, text, 0)[k].start <= x < OriginsFrom(u, text, 0)[k].end ==>
                Covered(RawSpans(u, words, text), x)
  {
    OriginsAreSegments(u, text, 0);
    var value, origins := ValueFrom(u, text, 0), OriginsFrom(u, text, 0);
    assert Span(m.start, m.end) == m && MatchesAt(c, value, m.start, m.end);
    var hidden := Span(origins[m.start].start, origins[m.end - 1].end);
    assert hidden in RawSpans(u, words, text);
  }

  /** Position `x` lies between the first and the last segment of the stretch from `a` to `b`. */
  ghost predicate InSegmentsOf(origins: seq<Span>, a: int, b: int, x: int) {
    0 <= a < b <= |origins| && origins[a].start <= x < origins[b - 1].end
  }

  /** From `a` to `b` the word `c` occurs, or its expression matches. */
  ghost predicate Shown(c: Compiled, value: string, a: int, b: int) {
    match c
    case Word(_, needle) => b == a + |needle| && OccursAt(value, needle, a)
    case Regex(_, find) => exists m :: m in find(value) && m.start == a && m.end == b
  }

  lemma ShownIsCovered(u: Unicode, words: seq<Compiled>, text: string, c: Compiled, a: int, b: int, x: int)
    requires Sane(u) && c in words && Shown(c, ValueFrom(u, text, 0), a, b)
    requires InSegmentsOf(OriginsFrom(u, text, 0), a, b, x)
    ensures Covered(RawSpans(u, words, text), x)
  {
    OriginsAreSegments(u, text, 0);
    var value, origins := ValueFrom(u, text, 0), OriginsFrom(u, text, 0);
    if c.Regex? {
      var m :| m in c.find(value) && m.start == a && m.end == b;
      assert m == Span(a, b);
    }
    assert MatchesAt(c, value, a, b);
    assert Span(origins[a].start, origins[b - 1].end) in RawSpans(u, words, text);
  }

  /** Nothing else is covered: every covered position belongs to a word's occurrence or to a match of an expression. */
  lemma CoveredIsShown(u: Unicode, words: seq<Compiled>, text: string, x: int)
    returns (c: Compiled, a: int, b: int)
    requires Sane(u) && Covered(RawSpans(u, words, text), x)
    ensures c in words && Shown(c, ValueFrom(u, text, 0), a, b)
    ensures InSegmentsOf(OriginsFrom(u, text, 0), a, b, x)
  {
    OriginsAreSegments(u, text, 0);
    var value, origins := ValueFrom(u, text, 0), OriginsFrom(u, text, 0);
    var s :| s in RawSpans(u, words, text) && s.start <= x < s.end;
    c, a, b :| c in words && 0 <= a < b <= |value| && MatchesAt(c, value, a, b)
               && s == Span(origins[a].start, origins[b - 1].end);
    if c.Regex? {
      assert Span(a, b) in c.find(value) && Span(a, b).start == a && Span(a, b).end == b;
    }
  }

  /** What remains after masking, and where each of its normalised characters comes from. */
  lemma MaskedIsExplained(u: Unicode, words: seq<Compiled>, text: string)
    requires PerSegment(u)
    ensures |OriginsFrom(u, text, 0)| == |ValueFrom(u, text, 0)|
    ensures Explains(ValueFrom(u, text, 0), OriginsFrom(u, text, 0), RawSpans(u, words, text),
                     u.normalize(Masked(u, words, text)), Sources(u, text, RawSpans(u, words, text), 0, 0))
  {
    var spans := RawSpans(u, words, text);
    OriginsAreSegments(u, text, 0);
    RawSpansAreSegmentAligned(u, words, text);
    RedactedIsPieces(u, text, spans, 0);
    SourcesAreRight(u, text, spans, 0, 0, ValueFrom(u, text, 0), OriginsFrom(u, text, 0));
  }

  /** An occurrence made only of unmasked characters is an occurrence in the original. */
  lemma UnmaskedOccurrence(value: string, origins: seq<Span>, spans: set<Span>, normal: string, sources: seq<int>,
                           needle: string, q: nat)
    requires |origins| == |value| && Explains(value, origins, spans, normal, sources)
    requires needle != "" && OccursAt(normal, needle, q)
    requires forall k :: q <= k < q + |needle| ==> sources[k] != MASKED
    ensures OccursAt(value, needle, sources[q]) && !Covered(spans, origins[sources[q]].start)
  {
    ContiguousRun(sources, q, |needle|);
    var a := sources[q];
    assert SourceOk(value, origins, spans, normal[q], a);
    var last := q + |needle| - 1;
    assert SourceOk(value, origins, spans, normal[last], sources[last]);
    forall k | 0 <= k < |needle|
      ensures value[a + k] == needle[k]
    {
      assert SourceOk(value, origins, spans, normal[q + k], sources[q + k]);
      assert normal[q..q + |needle|][k] == normal[q + k];
    }
    assert value[a..a + |needle|] == needle;
  }

  /**
    Whatever still looks like a word after masking was made by the masks: each occurrence contains
    a character of an inserted mask. It holds for every word and beside any expressions.
   */
  lemma OccurrenceTouchesAMask(u: Unicode, words: seq<Compiled>, text: string, c: Compiled, q: nat)
    requires PerSegment(u)
    requires c in words && c.Word? && c.needle != ""
    requires OccursAt(u.normalize(Masked(u, words, text)), c.needle, q)
    ensures var sources := Sources(u, text, RawSpans(u, words, text), 0, 0);
            && |sources| == |u.normalize(Masked(u, words, text))|
            && exists k :: q <= k < q + |c.needle| && sources[k] == MASKED && c.needle[k - q] == CROSS
  {
    var spans := RawSpans(u, words, text);
    var value, origins := ValueFrom(u, text, 0), OriginsFrom(u, text, 0);
    var normal := u.normalize(Masked(u, words, text));
    var sources := Sources(u, text, spans, 0, 0);
    MaskedIsExplained(u, words, text);
    if forall k :: q <= k < q + |c.needle| ==> sources[k] != MASKED {
      UnmaskedOccurrence(value, origins, spans, normal, sources, c.needle, q);
      OccurrenceIsCovered(u, words, text, c, sources[q]);
      assert false;
    }
    var k :| q <= k < q + |c.needle| && sources[k] == MASKED;
    assert SourceOk(value, origins, spans, normal[k], sources[k]);
    assert normal[k] == normal[q..q + |c.needle|][k - q];
  }

  lemma OccurrenceChar(text: string, needle: string, i: int, k: int)
    ensures OccursAt(text, needle, i) && 0 <= k < |needle| ==> text[i + k] == needle[k]
  {
    assert OccursAt(text, needle, i) && 0 <= k < |needle| ==> text[i..i + |needle|][k] == text[i + k];
  }

  /** Masks cannot make up this needle: it neither starts nor ends in the mask's character, nor contains a mask. */
  ghost predicate Hideable(needle: string) {
    needle != "" && needle[0] != CROSS && needle[|needle| - 1] != CROSS && !Contains(needle, MASK)
  }

  lemma MaskInNeedle(normal: string, needle: string, q: nat, i: nat)
    requires OccursAt(normal, needle, q) && i + 4 <= |needle|
    requires forall k :: q + i <= k < q + i + 4 ==> normal[k] == CROSS
    ensures Contains(needle, MASK)
  {
    OccurrenceChar(normal, needle, q, i);
    OccurrenceChar(normal, needle, q, i + 1);
    OccurrenceChar(normal, needle, q, i + 2);
    OccurrenceChar(normal, needle, q, i + 3);
    assert needle[i..i + 4] == MASK;
    assert OccursAt(needle, MASK, i);
  }

  /** A needle found across an inserted mask starts or ends in it, or contains it. */
  lemma NeedleAcrossMask(normal: string, sources: seq<int>, needle: string, q: nat, k: nat)
    requires |sources| == |normal| && forall i :: 0 <= i < |normal| && sources[i] == MASKED ==> normal[i] == CROSS
    requires OccursAt(normal, needle, q) && q <= k < q + |needle| && InMask(sources, k)
    ensures !Hideable(needle)
  {
    var b :| b <= k < b + 4 && MaskAt(sources, b);
    OccurrenceChar(normal, needle, q, 0);
    OccurrenceChar(normal, needle, q, |needle| - 1);
    if q < b && b + 4 < q + |needle| {
      MaskInNeedle(normal, needle, q, b - q);
    }
  }

  /** A word that masks cannot make up is gone from the masked text, whatever else is masked there. */
  lemma MaskedTextHidesWord(u: Unicode, words: seq<Compiled>, text: string, c: Compiled)
    requires PerSegment(u)
    requires c in words && c.Word? && Hideable(c.needle)
    ensures !Hits(c, u.normalize(Masked(u, words, text)))
  {
    if Hits(c, u.normalize(Masked(u, words, text))) {
      var spans := RawSpans(u, words, text);
      var normal, sources := u.normalize(Masked(u, words, text)), Sources(u, text, spans, 0, 0);
      var q :| OccursAt(normal, c.needle, q);
      OccurrenceTouchesAMask(u, words, text, c, q);
      var k :| q <= k < q + |c.needle| && sources[k] == MASKED;
      MaskedIsExplained(u, words, text);
      MasksAreWhole(u, text, spans, 0, 0);
      assert WholeAt(sources, k);
      MaskedIsCross(ValueFrom(u, text, 0), OriginsFrom(u, text, 0), spans, normal, sources);
      NeedleAcrossMask(normal, sources, c.needle, q, k);
    }
  }

  lemma MaskedIsCross(value: string, origins: seq<Span>, spans: set<Span>, normal: string, sources: seq<int>)
    requires |origins| == |value| && Explains(value, origins, spans, normal, sources)
    ensures forall i :: 0 <= i < |normal| && sources[i] == MASKED ==> normal[i] == CROSS
  {
    forall i | 0 <= i < |normal| && sources[i] == MASKED
      ensures normal[i] == CROSS
    {
      assert SourceOk(value, origins, spans, normal[i], sources[i]);
    }
  }

  /** Match(Mask(text)) finds nothing when all patterns are words that masks cannot make up. */
  method MatchAfterMask(u: Unicode, words: seq<Compiled>, text: string) returns (hit: Option<NgWord>)
    requires PerSegment(u)
    requires forall c :: c in words ==> c.Word? && Hideable(c.needle)
    ensures hit == None
  {
    var masked := Mask(u, Some(words), text);
    forall c | c in words
      ensures !Hits(c, u.normalize(masked))
    {
      MaskedTextHidesWord(u, words, text, c);
    }
    hit := Match(u, Some(words), masked);
  }

  /** Normalising the text and joining its normalised segments give the same. */
  lemma ValueIsNormalForm(u: Unicode, text: string)
    requires PerSegment(u)
    ensures u.normalize(text) == ValueFrom(u, text, 0)
  {
    assert Aligned(u, text, {});
    RedactedIsPieces(u, text, {}, 0);
    RedactedKeeps(text, {}, 0, |text|);
    UncutPieces(u, text, 0);
    assert Redacted(text, {}, |text|) == "" && text[0..|text|] == text;
    assert Join(Pieces(u, text, {}, 0)) == text;
  }

  lemma {:induction false} UncutPieces(u: Unicode, text: string, start: nat)
    requires Sane(u) && start <= |text|
    ensures JoinNormalized(u, Pieces(u, text, {}, start)) == ValueFrom(u, text, start)
    decreases |text| - start
  {
    if start < |text| {
      var end := SegmentEnd(u, text, start);
      UncutPieces(u, text, end);
      assert ([text[start..end]] + Pieces(u, text, {}, end))[1..] == Pieces(u, text, {}, end);
    }
  }

  /** A text that Match lets pass is not altered by Mask. */
  lemma CleanTextIsKept(u: Unicode, words: seq<Compiled>, text: string)
    requires PerSegment(u) && forall c :: c in words ==> !Hits(c, u.normalize(text))
    ensures Masked(u, words, text) == text
  {
    ValueIsNormalForm(u, text);
    OriginsAreSegments(u, text, 0);
    var value, origins := ValueFrom(u, text, 0), OriginsFrom(u, text, 0);
    forall c, a, b | c in words && 0 <= a < b <= |value|
      ensures !MatchesAt(c, value, a, b)
    {
      assert !Hits(c, value);
    }
    assert RawSpans(u, words, text) == {};
    RedactedKeeps(text, {}, 0, |text|);
    assert text[0..|text|] == text;
  }

  /** Masking twice is masking once, for words that masks cannot make up. */
  lemma MaskIsIdempotent(u: Unicode, words: seq<Compiled>, text: string)
    requires PerSegment(u)
    requires forall c :: c in words ==> c.Word? && Hideable(c.needle)
    ensures Masked(u, words, Masked(u, words, text)) == Masked(u, words, text)
  {
    forall c | c in words
      ensures !Hits(c, u.normalize(Masked(u, words, text)))
    {
      MaskedTextHidesWord(u, words, text, c);
    }
    CleanTextIsKept(u, words, Masked(u, words, text));
  }

  /** What a compiled word looks for, without the registered entry it came from. */
  datatype Pattern = Needle(needle: string) | Finder(find: string -> seq<Span>)

  function PatternOf(c: Compiled): Pattern {
    match c
    case Word(_, needle) => Needle(needle)
    case Regex(_, find) => Finder(find)
  }

  ghost function Patterns(words: seq<Compiled>): iset<Pattern> {
    iset c | c in words :: PatternOf(c)
  }

  /** Only the set of patterns matters: not their order, repetition or registered entries. */
  lemma MaskIgnoresWordOrder(u: Unicode, words: seq<Compiled>, others: seq<Compiled>, text: string)
    requires Sane(u) && Patterns(words) == Patterns(others)
    ensures Masked(u, words, text) == Masked(u, others, text)
  {
    OriginsAreSegments(u, text, 0);
    assert RawSpans(u, words, text) == RawSpans(u, others, text) by {
      SpansWithin(words, others, ValueFrom(u, text, 0), OriginsFrom(u, text, 0));
      SpansWithin(others, words, ValueFrom(u, text, 0), OriginsFrom(u, text, 0));
      SubsetsAreEqual(RawSpans(u, words, text), RawSpans(u, others, text));
    }
  }

  lemma SubsetsAreEqual<T>(a: set<T>, b: set<T>)
    requires a <= b <= a
    ensures a == b
  {
  }

  lemma SpansWithin(words: seq<Compiled>, others: seq<Compiled>, value: string, origins: seq<Span>)
    requires |origins| == |value| && Patterns(words) <= Patterns(others)
    ensures RawSpansOf(words, value, origins) <= RawSpansOf(others, value, origins)
  {
    forall s | s in RawSpansOf(words, value, origins)
      ensures s in RawSpansOf(others, value, origins)
    {
      var c, a, b :| c in words && 0 <= a < b <= |value| && MatchesAt(c, value, a, b)
                     && s == Span(origins[a].start, origins[b - 1].end);
      assert PatternOf(c) in Patterns(others);
      var d :| d in others && PatternOf(d) == PatternOf(c);
      assert MatchesAt(d, value, a, b);
    }
  }

  // ----- All other words can survive

  /** Every character its own segment and its own normal form. */
  function PlainText(): Unicode {
    Unicode(s => if s == "" then 0 else 1, s => s)
  }

  lemma {:induction false} JoinOfPlain(pieces: seq<string>)
    ensures JoinNormalized(PlainText(), pieces) == Join(pieces)
  {
    if pieces != [] {
      JoinOfPlain(pieces[1..]);
    }
  }

  /** The assumptions on Unicode can be met. */
  lemma PlainTextIsPerSegment()
    ensures PerSegment(PlainText())
  {
    var u := PlainText();
    forall text: string, spans: set<Span> | Aligned(u, text, spans)
      ensures u.normalize(Join(Pieces(u, text, spans, 0))) == JoinNormalized(u, Pieces(u, text, spans, 0))
    {
      JoinOfPlain(Pieces(u, text, spans, 0));
    }
  }

  lemma {:induction false} PlainValue(text: string, c: nat)
    requires c <= |text|
    ensures ValueFrom(PlainText(), text, c) == text[c..]
    ensures |OriginsFrom(PlainText(), text, c)| == |text| - c
    ensures forall i :: 0 <= i < |text| - c ==> OriginsFrom(PlainText(), text, c)[i] == Span(c + i, c + i + 1)
    decreases |text| - c
  {
    if c < |text| {
      PlainValue(text, c + 1);
      assert SegmentEnd(PlainText(), text, c) == c + 1;
      assert text[c..] == text[c..c + 1] + text[c + 1..];
    }
  }

  /** `n` times the character `y`. */
  function Run(y: char, n: nat): (r: string)
    ensures |r| == n && forall i :: 0 <= i < n ==> r[i] == y
  {
    seq(n, _ => y)
  }

  /** `y` does not touch: it is not the character before or after. */
  predicate Apart(p: string, y: char, r: string) {
    (p != "" ==> p[|p| - 1] != y) && (r != "" ==> r[0] != y)
  }

  /** A long run of a character that does not touch occurs once. */
  lemma RunOccursOnce(p: string, y: char, n: nat, r: string, i: nat)
    requires Apart(p, y, r) && n > |p| && n > |r|
    ensures OccursAt(p + Run(y, n) + r, Run(y, n), i) <==> i == |p|
  {
    var text, run := p + Run(y, n) + r, Run(y, n);
    assert text[|p|..|p| + n] == run;
    OccurrenceChar(text, run, i, if i < |p| then |p| - 1 - i else |p| + n - i);
  }

  /** Only the stretch from `a` to `b` of the text is matched, by `c`. */
  ghost predicate OnlyMatch(words: seq<Compiled>, text: string, c: Compiled, a: nat, b: nat) {
    && c in words && a < b <= |text| && MatchesAt(c, text, a, b)
    && forall d, x, y :: d in words && 0 <= x < y <= |text| && MatchesAt(d, text, x, y) ==> x == a && y == b
  }

  lemma OnlyMatchSpan(words: seq<Compiled>, text: string, c: Compiled, a: nat, b: nat, origins: seq<Span>)
    requires OnlyMatch(words, text, c, a, b)
    requires |origins| == |text| && forall i :: 0 <= i < |text| ==> origins[i] == Span(i, i + 1)
    ensures RawSpansOf(words, text, origins) == {Span(a, b)}
  {
    assert origins[a].start == a && origins[b - 1].end == b;
  }

  lemma OneSpan(s: Span)
    ensures forall x :: Covered({s}, x) <==> s.start <= x < s.end
    ensures forall x :: Joined({s}, x) <==> s.start < x < s.end
  {
    assert s in {s};
  }

  lemma RedactedAfter(text: string, spans: set<Span>, x: nat)
    requires x <= |text| && forall y :: x <= y ==> !Covered(spans, y)
    ensures Redacted(text, spans, x) == text[x..]
  {
    RedactedKeeps(text, spans, x, |text|);
    assert text[x..|text|] == text[x..];
  }

  lemma RedactedAround(text: string, spans: set<Span>, from: nat, s: Span)
    requires from <= s.start < s.end <= |text| && spans == {s}
    ensures Redacted(text, spans, from) == text[from..s.start] + MASK + text[s.end..]
  {
    OneSpan(s);
    RedactedGap(text, spans, from, s);
    RedactedAfter(text, spans, s.end);
    Associative(text[from..s.start], MASK, text[s.end..]);
  }

  lemma OnlyMatchBecomesMask(words: seq<Compiled>, text: string, c: Compiled, a: nat, b: nat)
    requires OnlyMatch(words, text, c, a, b)
    ensures Masked(PlainText(), words, text) == text[..a] + MASK + text[b..]
  {
    PlainValue(text, 0);
    OriginsAreSegments(PlainText(), text, 0);
    assert text[0..] == text && text[0..a] == text[..a];
    OnlyMatchSpan(words, text, c, a, b, OriginsFrom(PlainText(), text, 0));
    RedactedAround(text, {Span(a, b)}, 0, Span(a, b));
  }

  /** A character that is not a mask's and does not touch. */
  function Filler(p: string, r: string): (y: char)
    ensures y != CROSS && Apart(p, y, r)
  {
    if Apart(p, 'a', r) then 'a' else if Apart(p, 'b', r) then 'b' else 'c'
  }

  /** The needle is part of `before + MASK + after` and has one of the mask's characters at this place. */
  ghost predicate MadeUpBy(needle: string, before: string, after: string) {
    || (before == "" && needle == [CROSS] + after)
    || (after == "" && needle == before + [CROSS])
    || needle == before + MASK + after
  }

  /** A needle that is not hideable can be put together from a mask and what stands around it. */
  lemma MadeUp(needle: string) returns (before: string, after: string)
    requires needle != "" && !Hideable(needle)
    ensures MadeUpBy(needle, before, after)
  {
    var last := |needle| - 1;
    if needle[0] == CROSS {
      before, after := "", needle[1..];
    } else if needle[last] == CROSS {
      before, after := needle[..last], "";
    } else {
      var i :| OccursAt(needle, MASK, i);
      before, after := needle[..i], needle[i + 4..];
      assert needle == needle[..i] + needle[i..i + 4] + needle[i + 4..];
    }
  }

  /** With a run in the mask's place, the needle is not there. */
  lemma NotWithoutMask(needle: string, before: string, y: char, after: string)
    requires MadeUpBy(needle, before, after) && y != CROSS
    ensures !Contains(before + Run(y, |needle|) + after, needle)
  {
    var n := |needle|;
    var text := before + Run(y, n) + after;
    assert needle[|before|] == CROSS;
    forall i
      ensures !OccursAt(text, needle, i)
    {
      OccurrenceChar(text, needle, i, |before|);
    }
  }

  lemma WithMask(needle: string, before: string, after: string)
    requires MadeUpBy(needle, before, after)
    ensures Contains(before + MASK + after, needle)
  {
    var text := before + MASK + after;
    var i := if needle == before + MASK + after then 0
             else if before == "" && needle == [CROSS] + after then 3
             else 0;
    assert text[i..i + |needle|] == needle;
    assert OccursAt(text, needle, i);
  }

  /** The matcher compiles a registered word for each of these needles. */
  ghost predicate Registered(u: Unicode, regex: string -> Option<string -> seq<Span>>, words: seq<Compiled>) {
    forall c :: c in words ==> c.Word? && Compile(u, regex, c.word) == Some(c)
  }

  /** Every word that is not hideable is still found in some masked text. */
  lemma OthersSurvive(regex: string -> Option<string -> seq<Span>>, needle: string)
    returns (words: seq<Compiled>, text: string)
    requires needle != "" && !Hideable(needle)
    ensures Registered(PlainText(), regex, words) && words != [] && words[0].needle == needle
    ensures Hits(words[0], PlainText().normalize(Masked(PlainText(), words, text)))
  {
    var before, after := MadeUp(needle);
    var y := Filler(before, after);
    var run := Run(y, |needle|);
    words := [Word(NgWord(0, needle, WordMatch), needle), Word(NgWord(1, run, WordMatch), run)];
    text := before + run + after;
    NotWithoutMask(needle, before, y, after);
    forall c, a: nat, b: nat | c in words && MatchesAt(c, text, a, b)
      ensures c == words[1] && a == |before| && b == |before| + |needle|
    {
      RunOccursOnce(before, y, |needle|, after, a);
    }
    RunOccursOnce(before, y, |needle|, after, |before|);
    OnlyMatchBecomesMask(words, text, words[1], |before|, |before| + |needle|);
    assert text[..|before|] == before && text[|before| + |needle|..] == after;
    WithMask(needle, before, after);
  }

  /** In every masked text this needle is gone, whatever the other patterns and the normalisation are. */
  ghost predicate AlwaysHidden(needle: string) {
    forall u: Unicode, words: seq<Compiled>, text, c |
      PerSegment(u) && c in words && c.Word? && c.needle == needle ::
      !Hits(c, u.normalize(Masked(u, words, text)))
  }

  /** Masking hides a word in every text exactly when masks cannot make it up. */
  lemma AlwaysHiddenIffHideable(needle: string)
    requires needle != ""
    ensures AlwaysHidden(needle) <==> Hideable(needle)
  {
    if Hideable(needle) {
      forall u: Unicode, words: seq<Compiled>, text, c | PerSegment(u) && c in words && c.Word? && c.needle == needle
        ensures !Hits(c, u.normalize(Masked(u, words, text)))
      {
        MaskedTextHidesWord(u, words, text, c);
      }
    } else {
      PlainTextIsPerSegment();
      var words, text := OthersSurvive(_ => None, needle);
      assert words[0] in words;
    }
  }

  // ----- A word alone

  /** No occurrence of the word overlaps another one. */
  ghost predicate Borderless(needle: string) {
    forall n :: 0 < n < |needle| ==> needle[..n] != needle[|needle| - n..]
  }

  lemma OverlapIsBorder(text: string, needle: string, a: int, b: int)
    ensures OccursAt(text, needle, a) && OccursAt(text, needle, b) && a < b < a + |needle| ==> !Borderless(needle)
  {
    if OccursAt(text, needle, a) && OccursAt(text, needle, b) && a < b < a + |needle| {
      var m, n := |needle|, a + |needle| - b;
      assert needle[m - n..] == text[a..a + m][m - n..] == text[b..b + n];
      assert needle[..n] == text[b..b + m][..n] == text[b..b + n];
    }
  }

  /** Between parts shorter than itself, such a word occurs once. */
  lemma OccursOnceBetween(p: string, needle: string, r: string, i: int)
    requires Borderless(needle) && |p| < |needle| && |r| < |needle|
    ensures OccursAt(p + needle + r, needle, i) <==> i == |p|
  {
    var text, m := p + needle + r, |needle|;
    assert text[|p|..|p| + m] == needle;
    OverlapIsBorder(text, needle, i, |p|);
    OverlapIsBorder(text, needle, |p|, i);
  }

  /** A word that does not overlap itself masks itself into its own surroundings. */
  lemma SurvivesAlone(word: NgWord, needle: string) returns (text: string)
    requires needle != "" && !Hideable(needle) && Borderless(needle)
    ensures var words := [Word(word, needle)];
            Hits(words[0], PlainText().normalize(Masked(PlainText(), words, text)))
  {
    var before, after := MadeUp(needle);
    var words := [Word(word, needle)];
    text := before + needle + after;
    forall a
      ensures OccursAt(text, needle, a) <==> a == |before|
    {
      OccursOnceBetween(before, needle, after, a);
    }
    OnlyMatchBecomesMask(words, text, words[0], |before|, |before| + |needle|);
    assert text[..|before|] == before && text[|before| + |needle|..] == after;
    WithMask(needle, before, after);
  }

  /** In every text masked by this word alone the word is gone. */
  ghost predicate HiddenAlone(needle: string) {
    forall u: Unicode, word, text | PerSegment(u) ::
      !Hits(Word(word, needle), u.normalize(Masked(u, [Word(word, needle)], text)))
  }

  /** For words that do not overlap themselves the condition is exact even without other patterns. */
  lemma HiddenAloneIffHideable(needle: string)
    requires needle != "" && Borderless(needle)
    ensures HiddenAlone(needle) <==> Hideable(needle)
  {
    if Hideable(needle) {
      forall u: Unicode, word, text | PerSegment(u)
        ensures !Hits(Word(word, needle), u.normalize(Masked(u, [Word(word, needle)], text)))
      {
        MaskedTextHidesWord(u, [Word(word, needle)], text, Word(word, needle));
      }
    } else {
      PlainTextIsPerSegment();
      var text := SurvivesAlone(NgWord(0, needle, WordMatch), needle);
    }
  }

  /** Even alone: the single word × is still found after masking the text ×, because the mask is made of it. */
  lemma CrossSurvivesMasking(w: NgWord)
    ensures var u, words := PlainText(), [Word(w, [CROSS])];
            Sane(u) && Hits(words[0], u.normalize(Masked(u, words, [CROSS])))
  {
    var u, words, text := PlainText(), [Word(w, [CROSS])], [CROSS];
    var value, origins := ValueFrom(u, text, 0), OriginsFrom(u, text, 0);
    assert SegmentEnd(u, text, 0) == 1 && text[0..1] == text;
    assert ValueFrom(u, text, 1) == "" && value == text;
    OriginsAreSegments(u, text, 0);
    assert origins[0] in origins;
    assert MatchesAt(words[0], value, 0, 1);
    var spans := RawSpans(u, words, text);
    assert Span(0, 1) in spans;
    RawSpansAreSegmentAligned(u, words, text);
    assert Covered(spans, 0) && !Joined(spans, 0);
    assert Redacted(text, spans, 1) == "" && MASK + "" == MASK;
    assert Masked(u, words, text) == MASK;
    assert OccursAt(MASK, [CROSS], 0);
  }
}
