/**
  The NG-word matcher: compiling the words, `Match` and `Mask` (model/ng_word.go).

  `Mask` collects the spans of all matches, sorts and merges them and splices one mask per
  merged span. Its specification `Redacted` never mentions that procedure: it decides each
  position of the text from the *set* of raw spans alone.
 */
module NgWordMask {
  import opened Sequences
  import opened Wrappers
  import opened NgWordText

  /** NGWordMask: four multiplication signs. */
  const MASK: string := [CROSS, CROSS, CROSS, CROSS]
  const CROSS := '\U{00D7}'

  datatype MatchType = WordMatch | RegexMatch

  datatype NgWord = NgWord(id: int, pattern: string, matchType: MatchType)

  /** A usable word: a normalised needle, or a regular expression known only by the matches it finds. */
  datatype Compiled =
    | Word(word: NgWord, needle: string)
    | Regex(word: NgWord, find: string -> seq<Span>)

  /** A regular expression's matches lie inside the string it searched. */
  ghost predicate InRange(words: seq<Compiled>) {
    forall c, v: string, s :: c in words && c.Regex? && s in c.find(v) ==> 0 <= s.start <= s.end <= |v|
  }

  // ----- NewNGWordMatcher

  /** What one registered word compiles to, if it is usable. */
  function Compile(u: Unicode, regex: string -> Option<string -> seq<Span>>, w: NgWord): (c: Option<Compiled>)
    ensures c.Some? ==> c.value.word == w && (c.value.Word? ==> c.value.needle != "")
  {
    match w.matchType
    case RegexMatch =>
      var re := regex(w.pattern);
      if re.None? then None else Some(Regex(w, re.value))
    case WordMatch =>
      var needle := u.normalize(w.pattern);
      if needle == "" then None else Some(Word(w, needle))
  }

  /** `compiled` comes from exactly the usable ones among `words`, at the increasing positions `from`. */
  ghost predicate CompiledFrom(u: Unicode, regex: string -> Option<string -> seq<Span>>, compiled: seq<Compiled>,
                               words: seq<NgWord>, from: seq<nat>) {
    && |from| == |compiled|
    && (forall i :: 0 <= i < |from| ==> from[i] < |words| && Compile(u, regex, words[from[i]]) == Some(compiled[i]))
    && (forall i, j :: 0 <= i < j < |from| ==> from[i] < from[j])
    && (forall j :: 0 <= j < |words| && Compile(u, regex, words[j]).Some? ==> j in from)
  }

  lemma OneMoreCompiled(u: Unicode, regex: string -> Option<string -> seq<Span>>, compiled: seq<Compiled>,
                        words: seq<NgWord>, from: seq<nat>, w: NgWord)
    requires CompiledFrom(u, regex, compiled, words, from)
    ensures var c := Compile(u, regex, w);
            if c.Some? then CompiledFrom(u, regex, compiled + [c.value], words + [w], from + [|words|])
            else CompiledFrom(u, regex, compiled, words + [w], from)
  {
    var c := Compile(u, regex, w);
    assert c.Some? ==> (from + [|words|])[|from|] == |words|;
    forall j | j in from
      ensures j in from + [|words|]
    {
    }
  }

  /** A broken expression or an empty needle is left out; the others keep their order. */
  method NewNGWordMatcher(u: Unicode, regex: string -> Option<string -> seq<Span>>, words: seq<NgWord>)
    returns (compiled: seq<Compiled>, ghost from: seq<nat>)
    ensures CompiledFrom(u, regex, compiled, words, from)
    ensures forall c :: c in compiled && c.Word? ==> c.needle != ""
  {
    compiled := [];
    from := [];
    for i := 0 to |words|
      invariant CompiledFrom(u, regex, compiled, words[..i], from)
    {
      assert words[..i + 1] == words[..i] + [words[i]];
      OneMoreCompiled(u, regex, compiled, words[..i], from, words[i]);
      var c := Compile(u, regex, words[i]);
      if c.Some? {
        compiled := compiled + [c.value];
        from := from + [i];
      }
    }
    assert words[..|words|] == words;
  }

  // ----- Occurrences

  predicate OccursAt(value: string, needle: string, i: int) {
    0 <= i && i + |needle| <= |value| && value[i..i + |needle|] == needle
  }

  ghost predicate Contains(value: string, needle: string) {
    exists i :: OccursAt(value, needle, i)
  }

  /** strings.Index from an offset: the first occurrence at or after it, or -1. */
  function IndexFrom(value: string, needle: string, offset: nat): (i: int)
    requires offset <= |value|
    ensures i == -1 || (offset <= i && OccursAt(value, needle, i))
    ensures forall k :: offset <= k && (i == -1 || k < i) ==> !OccursAt(value, needle, k)
    decreases |value| - offset
  {
    if OccursAt(value, needle, offset) then offset
    else if offset == |value| then -1
    else IndexFrom(value, needle, offset + 1)
  }

  /** Word or expression `c` matches `value` from `a` up to `b`. */
  predicate MatchesAt(c: Compiled, value: string, a: int, b: int) {
    match c
    case Word(_, needle) => b == a + |needle| && OccursAt(value, needle, a)
    case Regex(_, find) => Span(a, b) in find(value)
  }

  // ----- Match

  ghost predicate Hits(c: Compiled, value: string) {
    match c
    case Word(_, needle) => Contains(value, needle)
    case Regex(_, find) => find(value) != []
  }

  /** Match: the first word, in registration order, that hits the normalised text. */
  method Match(u: Unicode, matcher: Option<seq<Compiled>>, text: string) returns (hit: Option<NgWord>)
    ensures hit.None? <==>
              matcher.None? || text == "" || forall c :: c in matcher.value ==> !Hits(c, u.normalize(text))
    ensures hit.Some? ==>
              exists i :: 0 <= i < |matcher.value| && hit.value == matcher.value[i].word
                          && Hits(matcher.value[i], u.normalize(text))
                          && forall j :: 0 <= j < i ==> !Hits(matcher.value[j], u.normalize(text))
  {
    if matcher.None? || text == "" {
      return None;
    }
    var words := matcher.value;
    var normalized := u.normalize(text);
    for i := 0 to |words|
      invariant forall j :: 0 <= j < i ==> !Hits(words[j], normalized)
    {
      match words[i]
      case Regex(word, find) =>
        if |find(normalized)| > 0 {
          assert Hits(words[i], normalized);
          return Some(word);
        }
      case Word(word, needle) =>
        if IndexFrom(normalized, needle, 0) != -1 {
          assert Hits(words[i], normalized);
          return Some(word);
        }
    }
    return None;
  }

  // ----- What Mask must produce

  /** Position `x` lies in some span. */
  ghost predicate Covered(spans: set<Span>, x: int) {
    exists s :: s in spans && s.start <= x < s.end
  }

  /** Some span contains both `p - 1` and `p`, so they are hidden by the same mask. */
  ghost predicate Joined(spans: set<Span>, p: int) {
    exists s :: s in spans && s.start < p < s.end
  }

  /** The text from `x` on: uncovered characters stay, each joined block becomes one mask. */
  ghost function Redacted(text: string, spans: set<Span>, x: nat): string
    requires x <= |text|
    decreases |text| - x
  {
    if x == |text| then ""
    else if !Covered(spans, x) then [text[x]] + Redacted(text, spans, x + 1)
    else if Joined(spans, x) then Redacted(text, spans, x + 1)
    else MASK + Redacted(text, spans, x + 1)
  }

  /** For every non-empty match, the stretch from its first position's segment through its last one's. */
  ghost function RawSpansOf(words: seq<Compiled>, value: string, origins: seq<Span>): set<Span>
    requires |origins| == |value|
  {
    set c, a, b | c in words && 0 <= a < b <= |value| && MatchesAt(c, value, a, b)
      :: Span(origins[a].start, origins[b - 1].end)
  }

  ghost function RawSpans(u: Unicode, words: seq<Compiled>, text: string): set<Span>
    requires Sane(u)
  {
    OriginsAreSegments(u, text, 0);
    RawSpansOf(words, ValueFrom(u, text, 0), OriginsFrom(u, text, 0))
  }

  ghost function Masked(u: Unicode, words: seq<Compiled>, text: string): string
    requires Sane(u)
  {
    Redacted(text, RawSpans(u, words, text), 0)
  }

  // ----- Redacted depends on coverage only

  ghost predicate SameCover(s: set<Span>, t: set<Span>) {
    forall x :: (Covered(s, x) <==> Covered(t, x)) && (Joined(s, x) <==> Joined(t, x))
  }

  lemma {:induction false} RedactedOfSameCover(text: string, s: set<Span>, t: set<Span>, x: nat)
    requires x <= |text| && SameCover(s, t)
    ensures Redacted(text, s, x) == Redacted(text, t, x)
    decreases |text| - x
  {
    if x < |text| {
      RedactedOfSameCover(text, s, t, x + 1);
    }
  }

  lemma {:induction false} RedactedKeeps(text: string, spans: set<Span>, a: nat, b: nat)
    requires a <= b <= |text| && forall x :: a <= x < b ==> !Covered(spans, x)
    ensures Redacted(text, spans, a) == text[a..b] + Redacted(text, spans, b)
    decreases b - a
  {
    if a < b {
      RedactedKeeps(text, spans, a + 1, b);
      Associative([text[a]], text[a + 1..b], Redacted(text, spans, b));
      assert text[a..b] == [text[a]] + text[a + 1..b];
    } else {
      assert text[a..b] == "";
    }
  }

  lemma {:induction false} RedactedSkips(text: string, spans: set<Span>, a: nat, b: nat)
    requires a <= b <= |text| && forall x :: a <= x < b ==> Covered(spans, x) && Joined(spans, x)
    ensures Redacted(text, spans, a) == Redacted(text, spans, b)
    decreases b - a
  {
    if a < b {
      RedactedSkips(text, spans, a + 1, b);
    }
  }

  // ----- Sorting, merging and splicing

  ghost predicate SortedByStart(spans: seq<Span>) {
    forall i, j :: 0 <= i < j < |spans| ==> spans[i].start <= spans[j].start
  }

  function InsertedAt(sorted: seq<Span>, k: nat, s: Span): (r: seq<Span>)
    requires k <= |sorted|
    ensures |r| == |sorted| + 1
    ensures forall i :: 0 <= i < |r| ==> r[i] == if i < k then sorted[i] else if i == k then s else sorted[i - 1]
  {
    sorted[..k] + [s] + sorted[k..]
  }

  lemma InsertedElements(sorted: seq<Span>, k: nat, s: Span)
    requires k <= |sorted|
    ensures multiset(InsertedAt(sorted, k, s)) == multiset(sorted) + multiset{s}
  {
    assert sorted == sorted[..k] + sorted[k..];
  }

  lemma InsertedInOrder(sorted: seq<Span>, k: nat, s: Span)
    requires k <= |sorted| && SortedByStart(sorted)
    requires k > 0 ==> sorted[k - 1].start <= s.start
    requires k < |sorted| ==> s.start < sorted[k].start
    ensures SortedByStart(InsertedAt(sorted, k, s))
  {
    assert forall i :: 0 <= i < k ==> sorted[i].start <= s.start;
    assert forall i :: k <= i < |sorted| ==> s.start < sorted[i].start;
  }

  /** Where a span belongs: behind all that do not start later. */
  method PlaceOf(sorted: seq<Span>, s: Span) returns (k: nat)
    ensures k <= |sorted|
    ensures k > 0 ==> sorted[k - 1].start <= s.start
    ensures k < |sorted| ==> s.start < sorted[k].start
  {
    k := |sorted|;
    while k > 0 && s.start < sorted[k - 1].start
      invariant 0 <= k <= |sorted|
      invariant k < |sorted| ==> s.start < sorted[k].start
    {
      k := k - 1;
    }
  }

  /** sort.Slice by start; spans of equal start may come out in any order. */
  method SortByStart(spans: seq<Span>) returns (sorted: seq<Span>)
    ensures SortedByStart(sorted) && multiset(sorted) == multiset(spans)
  {
    sorted := [];
    for i := 0 to |spans|
      invariant SortedByStart(sorted) && multiset(sorted) == multiset(spans[..i])
    {
      var k := PlaceOf(sorted, spans[i]);
      assert spans[..i + 1] == spans[..i] + [spans[i]];
      InsertedElements(sorted, k, spans[i]);
      InsertedInOrder(sorted, k, spans[i]);
      sorted := InsertedAt(sorted, k, spans[i]);
    }
    assert spans[..|spans|] == spans;
  }

  ghost function Elements(spans: seq<Span>): set<Span> {
    set s | s in spans
  }

  /** Non-empty, in order, and not overlapping (they may touch). */
  ghost predicate Disjoint(spans: seq<Span>) {
    && (forall i :: 0 <= i < |spans| ==> spans[i].start < spans[i].end)
    && (forall i, j :: 0 <= i < j < |spans| ==> spans[i].end <= spans[j].start)
  }

  ghost predicate NonEmpty(spans: seq<Span>) {
    forall s :: s in spans ==> s.start < s.end
  }

  /** Fusing the next sorted span into the last merged one keeps what is covered and joined. */
  lemma FuseSpan(merged: seq<Span>, next: Span, before: set<Span>)
    requires merged != [] && Disjoint(merged) && SameCover(Elements(merged), before)
    requires next.start < next.end && merged[|merged| - 1].start <= next.start < merged[|merged| - 1].end
    ensures var last := merged[|merged| - 1];
            var fused := merged[|merged| - 1 := Span(last.start, if next.end > last.end then next.end else last.end)];
            Disjoint(fused) && SameCover(Elements(fused), before + {next})
  {
    var n := |merged| - 1;
    var last := merged[n];
    var wide := Span(last.start, if next.end > last.end then next.end else last.end);
    var fused := merged[n := wide];
    assert fused[n] == wide && merged[n] == last;
    assert wide in Elements(fused) && last in Elements(merged);
    assert forall s :: s in Elements(fused) ==> s == wide || s in Elements(merged);
    assert forall s :: s in Elements(merged) && s != last ==> s in Elements(fused) by {
      forall s | s in Elements(merged) && s != last
        ensures s in Elements(fused)
      {
        var i :| 0 <= i < |merged| && merged[i] == s;
        assert fused[i] == s;
      }
    }
    forall x
      ensures Covered(Elements(fused), x) <==> Covered(before, x) || next.start <= x < next.end
      ensures Joined(Elements(fused), x) <==> Joined(before, x) || next.start < x < next.end
    {
      assert last.start <= x < last.end ==> Covered(Elements(merged), x);
      assert last.start < x < last.end ==> Joined(Elements(merged), x);
      assert wide.start <= x < wide.end ==> Covered(Elements(fused), x);
      assert wide.start < x < wide.end ==> Joined(Elements(fused), x);
    }
    CoverOfOneMore(before, next);
  }

  lemma CoverOfOneMore(spans: set<Span>, next: Span)
    ensures forall x :: Covered(spans + {next}, x) <==> Covered(spans, x) || next.start <= x < next.end
    ensures forall x :: Joined(spans + {next}, x) <==> Joined(spans, x) || next.start < x < next.end
  {
    assert next in spans + {next};
  }

  /** A sorted span that does not overlap the last merged one is appended. */
  lemma AppendSpan(merged: seq<Span>, next: Span, before: set<Span>)
    requires merged != [] && Disjoint(merged) && SameCover(Elements(merged), before)
    requires next.start < next.end && merged[|merged| - 1].end <= next.start
    ensures Disjoint(merged + [next]) && SameCover(Elements(merged + [next]), before + {next})
  {
    assert Elements(merged + [next]) == Elements(merged) + {next};
    CoverOfOneMore(Elements(merged), next);
    CoverOfOneMore(before, next);
  }

  /** Every merged span starts where some span starts and ends where some span ends. */
  ghost predicate EndpointsAmong(merged: seq<Span>, spans: seq<Span>) {
    forall m :: m in merged ==>
      (exists s :: s in spans && s.start == m.start) && (exists t :: t in spans && t.end == m.end)
  }

  /** What the merge loop keeps after the first `i` sorted spans. */
  ghost predicate Merged(merged: seq<Span>, spans: seq<Span>, i: nat)
    requires 0 < i <= |spans|
  {
    && merged != [] && Disjoint(merged)
    && merged[|merged| - 1].start <= spans[i - 1].start
    && SameCover(Elements(merged), Elements(spans[..i]))
    && EndpointsAmong(merged, spans)
  }

  lemma MergedFirst(spans: seq<Span>)
    requires spans != [] && NonEmpty(spans)
    ensures Merged([spans[0]], spans, 1)
  {
    assert spans[0] in spans && spans[..1] == [spans[0]];
  }

  /** One turn of the merge loop. */
  function MergeOne(merged: seq<Span>, next: Span): seq<Span>
    requires merged != []
  {
    var last := merged[|merged| - 1];
    if next.start >= last.end then merged + [next]
    else if next.end > last.end then merged[|merged| - 1 := Span(last.start, next.end)]
    else merged
  }

  lemma MergeOneEndpoints(merged: seq<Span>, next: Span, spans: seq<Span>)
    requires merged != [] && EndpointsAmong(merged, spans) && next in spans
    ensures EndpointsAmong(MergeOne(merged, next), spans)
  {
    var last := merged[|merged| - 1];
    assert last in merged;
    forall m | m in MergeOne(merged, next)
      ensures (exists s :: s in spans && s.start == m.start) && (exists t :: t in spans && t.end == m.end)
    {
      if m !in merged {
        assert m == next || m == Span(last.start, next.end);
      }
    }
  }

  lemma MergeOneCovers(merged: seq<Span>, next: Span, before: set<Span>)
    requires merged != [] && Disjoint(merged) && SameCover(Elements(merged), before)
    requires next.start < next.end && merged[|merged| - 1].start <= next.start
    ensures Disjoint(MergeOne(merged, next)) && SameCover(Elements(MergeOne(merged, next)), before + {next})
  {
    var last := merged[|merged| - 1];
    if next.start >= last.end {
      AppendSpan(merged, next, before);
    } else {
      FuseSpan(merged, next, before);
      assert Span(last.start, last.end) == last && merged[|merged| - 1 := last] == merged;
    }
  }

  lemma MergeStep(merged: seq<Span>, spans: seq<Span>, i: nat)
    requires 0 < i < |spans| && SortedByStart(spans) && NonEmpty(spans) && Merged(merged, spans, i)
    ensures Merged(MergeOne(merged, spans[i]), spans, i + 1)
  {
    var next := spans[i];
    assert next in spans && spans[..i + 1] == spans[..i] + [next];
    assert Elements(spans[..i + 1]) == Elements(spans[..i]) + {next};
    MergeOneCovers(merged, next, Elements(spans[..i]));
    MergeOneEndpoints(merged, next, spans);
  }

  /** The merge loop: touching spans stay apart, overlapping ones become one. */
  method MergeSpans(spans: seq<Span>) returns (merged: seq<Span>)
    requires spans != [] && SortedByStart(spans) && NonEmpty(spans)
    ensures Disjoint(merged) && SameCover(Elements(merged), Elements(spans))
    ensures EndpointsAmong(merged, spans)
  {
    merged := [spans[0]];
    MergedFirst(spans);
    for i := 1 to |spans|
      invariant Merged(merged, spans, i)
    {
      MergeStep(merged, spans, i);
      ghost var was := merged;
      var next, last := spans[i], merged[|merged| - 1];
      if next.start < last.end {
        if next.end > last.end {
          merged := merged[|merged| - 1 := Span(last.start, next.end)];
        }
      } else {
        merged := merged + [next];
      }
      assert merged == MergeOne(was, next);
    }
    assert spans[..|spans|] == spans;
  }

  lemma DisjointCover(merged: seq<Span>, i: nat)
    requires Disjoint(merged) && i < |merged|
    ensures var gap := if i == 0 then 0 else merged[i - 1].end;
            forall x :: gap <= x < merged[i].start ==> !Covered(Elements(merged), x)
    ensures Covered(Elements(merged), merged[i].start) && !Joined(Elements(merged), merged[i].start)
    ensures forall x :: merged[i].start < x < merged[i].end ==>
              Covered(Elements(merged), x) && Joined(Elements(merged), x)
  {
    assert merged[i] in Elements(merged);
    forall s | s in Elements(merged)
      ensures s == merged[i] || s.end <= merged[i].start || merged[i].end <= s.start
      ensures i > 0 && s != merged[i] && s.end <= merged[i].start ==> s.end <= merged[i - 1].end
      ensures i == 0 ==> s == merged[i] || merged[i].end <= s.start
    {
      var j :| 0 <= j < |merged| && merged[j] == s;
    }
  }

  lemma RedactedGap(text: string, spans: set<Span>, offset: nat, m: Span)
    requires offset <= m.start < m.end <= |text|
    requires forall x :: offset <= x < m.start ==> !Covered(spans, x)
    requires Covered(spans, m.start) && !Joined(spans, m.start)
    requires forall x :: m.start < x < m.end ==> Covered(spans, x) && Joined(spans, x)
    ensures Redacted(text, spans, offset) == text[offset..m.start] + (MASK + Redacted(text, spans, m.end))
  {
    RedactedKeeps(text, spans, offset, m.start);
    RedactedSkips(text, spans, m.start + 1, m.end);
  }

  lemma RedactedStep(text: string, merged: seq<Span>, i: nat)
    requires Disjoint(merged) && i < |merged|
    requires forall s :: s in merged ==> 0 <= s.start && s.end <= |text|
    ensures var offset := if i == 0 then 0 else merged[i - 1].end;
            0 <= offset <= merged[i].start <= merged[i].end <= |text|
            && Redacted(text, Elements(merged), offset)
               == text[offset..merged[i].start] + (MASK + Redacted(text, Elements(merged), merged[i].end))
  {
    var offset := if i == 0 then 0 else merged[i - 1].end;
    var m := merged[i];
    assert m in merged && (i > 0 ==> merged[i - 1] in merged);
    DisjointCover(merged, i);
    RedactedGap(text, Elements(merged), offset, m);
  }

  lemma NothingAfterLast(text: string, merged: seq<Span>, offset: nat)
    requires Disjoint(merged) && offset <= |text|
    requires offset == if merged == [] then 0 else merged[|merged| - 1].end
    ensures Redacted(text, Elements(merged), offset) == text[offset..]
  {
    forall s | s in Elements(merged)
      ensures s.end <= offset
    {
      var j :| 0 <= j < |merged| && merged[j] == s;
    }
    RedactedKeeps(text, Elements(merged), offset, |text|);
    assert text[offset..|text|] == text[offset..];
  }

  /** The last loop: copies the text between the merged spans and writes a mask for each. */
  method Splice(text: string, merged: seq<Span>) returns (result: string)
    requires Disjoint(merged) && forall s :: s in merged ==> 0 <= s.start && s.end <= |text|
    ensures result == Redacted(text, Elements(merged), 0)
  {
    ghost var spans := Elements(merged);
    result := "";
    var offset := 0;
    for i := 0 to |merged|
      invariant offset == if i == 0 then 0 else merged[i - 1].end
      invariant 0 <= offset <= |text|
      invariant result + Redacted(text, spans, offset) == Redacted(text, spans, 0)
    {
      var m := merged[i];
      RedactedStep(text, merged, i);
      Associative(result, text[offset..m.start], MASK + Redacted(text, spans, m.end));
      Associative(result + text[offset..m.start], MASK, Redacted(text, spans, m.end));
      result := result + text[offset..m.start] + MASK;
      offset := m.end;
    }
    NothingAfterLast(text, merged, offset);
    result := result + text[offset..];
  }

  // ----- Mask

  /** The first loop of Mask: normalised text with, for each position, its segment. */
  method Segment(u: Unicode, text: string) returns (value: string, origins: seq<Span>)
    requires Sane(u)
    ensures value == ValueFrom(u, text, 0) && origins == OriginsFrom(u, text, 0)
  {
    value, origins := "", [];
    var start := 0;
    while start < |text|
      invariant start <= |text|
      invariant value + ValueFrom(u, text, start) == ValueFrom(u, text, 0)
      invariant origins + OriginsFrom(u, text, start) == OriginsFrom(u, text, 0)
    {
      var size := u.boundary(text[start..]);
      if size <= 0 {
        size := |text| - start;
      }
      var end := start + size;
      var segment := u.normalize(text[start..end]);
      assert end == SegmentEnd(u, text, start);
      var here := seq(|segment|, _ => Span(start, end));
      Associative(value, segment, ValueFrom(u, text, end));
      Associative(origins, here, OriginsFrom(u, text, end));
      value := value + segment;
      origins := origins + here;
      start := end;
    }
  }

  /** All matches of one word in the normalised text, overlapping occurrences included. */
  method FindMatches(c: Compiled, value: string) returns (matches: seq<Span>)
    ensures forall a, b :: a < b ==> (Span(a, b) in matches <==> MatchesAt(c, value, a, b))
  {
    match c
    case Regex(_, find) =>
      matches := find(value);
    case Word(_, needle) =>
      matches := [];
      var offset := 0;
      while offset < |value|
        invariant 0 <= offset <= |value|
        invariant forall a, b :: Span(a, b) in matches <==> a < offset && MatchesAt(c, value, a, b)
      {
        var start := IndexFrom(value, needle, offset);
        if start < 0 {
          break;
        }
        matches := matches + [Span(start, start + |needle|)];
        offset := start + 1;
      }
  }

  ghost function SpansOf(matches: seq<Span>, origins: seq<Span>): set<Span> {
    set m | m in matches && 0 <= m.start < m.end <= |origins| :: Span(origins[m.start].start, origins[m.end - 1].end)
  }

  lemma MoreMatches(matches: seq<Span>, j: nat, origins: seq<Span>)
    requires j < |matches|
    ensures var m := matches[j];
            SpansOf(matches[..j + 1], origins) == SpansOf(matches[..j], origins)
              + if 0 <= m.start < m.end <= |origins| then {Span(origins[m.start].start, origins[m.end - 1].end)} else {}
  {
    assert matches[..j + 1] == matches[..j] + [matches[j]];
  }

  lemma MoreWords(words: seq<Compiled>, i: nat, matches: seq<Span>, value: string, origins: seq<Span>)
    requires i < |words| && |origins| == |value|
    requires forall a, b :: a < b ==> (Span(a, b) in matches <==> MatchesAt(words[i], value, a, b))
    ensures RawSpansOf(words[..i + 1], value, origins)
         == RawSpansOf(words[..i], value, origins) + SpansOf(matches, origins)
  {
    assert words[..i + 1] == words[..i] + [words[i]];
    var l := RawSpansOf(words[..i + 1], value, origins);
    var r1, r2 := RawSpansOf(words[..i], value, origins), SpansOf(matches, origins);
    forall s | s in l
      ensures s in r1 + r2
    {
      var c, a, b :| c in words[..i + 1] && 0 <= a < b <= |value| && MatchesAt(c, value, a, b)
                     && s == Span(origins[a].start, origins[b - 1].end);
      if c == words[i] {
        assert Span(a, b) in matches;
      }
    }
    forall s | s in r2
      ensures s in l
    {
      var m :| m in matches && 0 <= m.start < m.end <= |origins|
               && s == Span(origins[m.start].start, origins[m.end - 1].end);
      assert MatchesAt(words[i], value, m.start, m.end);
    }
  }

  lemma SameElements(spans: seq<Span>, sorted: seq<Span>)
    requires multiset(sorted) == multiset(spans)
    ensures Elements(sorted) == Elements(spans) && |sorted| == |spans|
  {
    forall s
      ensures s in sorted <==> s in spans
    {
      assert s in sorted <==> s in multiset(sorted);
    }
    assert |multiset(sorted)| == |sorted|;
  }

  /** Every span is non-empty, starts at the start of a segment and ends at the end of one. */
  ghost predicate Aligned(u: Unicode, text: string, spans: set<Span>)
    requires Sane(u)
  {
    forall s :: s in spans ==> 0 <= s.start < s.end <= |text| && IsCut(u, text, 0, s.start) && IsCut(u, text, 0, s.end)
  }

  lemma RawSpansAreSegmentAligned(u: Unicode, words: seq<Compiled>, text: string)
    requires Sane(u)
    ensures Aligned(u, text, RawSpans(u, words, text))
  {
    OriginsAreSegments(u, text, 0);
    var value, origins := ValueFrom(u, text, 0), OriginsFrom(u, text, 0);
    forall s | s in RawSpans(u, words, text)
      ensures 0 <= s.start < s.end <= |text| && IsCut(u, text, 0, s.start) && IsCut(u, text, 0, s.end)
    {
      var a, b :| 0 <= a < b <= |value| && s == Span(origins[a].start, origins[b - 1].end);
      assert origins[a] in origins && origins[b - 1] in origins;
      CutAdvances(u, text, 0, origins[b - 1].start);
    }
  }

  /** The inner loop: the raw span of every non-empty match of one word. */
  method AddSpans(spans: seq<Span>, matches: seq<Span>, origins: seq<Span>) returns (more: seq<Span>)
    requires forall m :: m in matches && m.start < m.end ==> 0 <= m.start && m.end <= |origins|
    ensures Elements(more) == Elements(spans) + SpansOf(matches, origins)
  {
    more := spans;
    for j := 0 to |matches|
      invariant Elements(more) == Elements(spans) + SpansOf(matches[..j], origins)
    {
      var m := matches[j];
      assert m in matches;
      MoreMatches(matches, j, origins);
      if m.start < m.end {
        var raw := Span(origins[m.start].start, origins[m.end - 1].end);
        assert Elements(more + [raw]) == Elements(more) + {raw};
        more := more + [raw];
      }
    }
    assert matches[..|matches|] == matches;
  }

  /** The middle loop of Mask: over all words. */
  method CollectSpans(words: seq<Compiled>, value: string, origins: seq<Span>) returns (spans: seq<Span>)
    requires |origins| == |value| && InRange(words)
    ensures Elements(spans) == RawSpansOf(words, value, origins)
  {
    spans := [];
    for i := 0 to |words|
      invariant Elements(spans) == RawSpansOf(words[..i], value, origins)
    {
      var matches := FindMatches(words[i], value);
      forall m | m in matches && m.start < m.end
        ensures 0 <= m.start && m.end <= |origins|
      {
        assert Span(m.start, m.end) == m && MatchesAt(words[i], value, m.start, m.end);
      }
      MoreWords(words, i, matches, value, origins);
      spans := AddSpans(spans, matches, origins);
    }
    assert words[..|words|] == words;
  }

  /** What is masked together starts and ends with whole segments. */
  lemma MergedSpansAreAligned(u: Unicode, text: string, spans: seq<Span>, merged: seq<Span>)
    requires Sane(u) && Aligned(u, text, Elements(spans)) && EndpointsAmong(merged, spans) && Disjoint(merged)
    ensures Aligned(u, text, Elements(merged))
  {
    assert forall s :: s in spans ==> s in Elements(spans);
    forall m | m in Elements(merged)
      ensures 0 <= m.start < m.end <= |text| && IsCut(u, text, 0, m.start) && IsCut(u, text, 0, m.end)
    {
      var s :| s in spans && s.start == m.start;
      var t :| t in spans && t.end == m.end;
    }
  }

  /** Mask. A nil matcher and the empty text are returned as they are. */
  method Mask(u: Unicode, matcher: Option<seq<Compiled>>, text: string) returns (masked: string)
    requires Sane(u) && (matcher.Some? ==> InRange(matcher.value))
    ensures masked == if matcher.None? then text else Masked(u, matcher.value, text)
  {
    if matcher.None? || text == "" {
      return text;
    }
    var words := matcher.value;
    var value, origins := Segment(u, text);
    OriginsAreSegments(u, text, 0);
    var spans := CollectSpans(words, value, origins);
    RawSpansAreSegmentAligned(u, words, text);
    assert forall s :: s in spans ==> s in Elements(spans);
    if |spans| == 0 {
      RedactedKeeps(text, Elements(spans), 0, |text|);
      return text;
    }
    var sorted := SortByStart(spans);
    SameElements(spans, sorted);
    assert forall s :: s in sorted ==> s in Elements(sorted);
    var merged := MergeSpans(sorted);
    masked := Splice(text, merged);
    RedactedOfSameCover(text, Elements(merged), Elements(spans), 0);
  }
}
