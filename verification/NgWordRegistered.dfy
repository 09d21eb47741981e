/**
  Registered words from end to end (model/ng_word.go): what NewNGWordMatcher, Match and Mask do together,
  said of the words as they are registered and of the text as it is posted.
 */
module NgWordRegistered {
  import opened Sequences
  import opened Wrappers
  import opened NgWordText
  import opened NgWordMask
  import opened NgWordSafety

  type Regex = string -> Option<string -> seq<Span>>

  /** The registered word `w` is found in a normalised text: its own normal form occurs, or its expression matches. */
  ghost predicate Found(u: Unicode, regex: Regex, w: NgWord, value: string) {
    match w.matchType
    case WordMatch => u.normalize(w.pattern) != "" && exists i :: OccursAt(value, u.normalize(w.pattern), i)
    case RegexMatch => regex(w.pattern).Some? && regex(w.pattern).value(value) != []
  }

  lemma FoundIffHit(u: Unicode, regex: Regex, w: NgWord, value: string)
    ensures Found(u, regex, w, value) <==> Compile(u, regex, w).Some? && Hits(Compile(u, regex, w).value, value)
  {
  }

  /** Match over the registered words: the first of them that is found in the normalised text. */
  method MatchRegistered(u: Unicode, regex: Regex, words: seq<NgWord>, text: string) returns (hit: Option<NgWord>)
    ensures hit.None? <==> text == "" || forall w :: w in words ==> !Found(u, regex, w, u.normalize(text))
    ensures hit.Some? ==>
              exists j :: 0 <= j < |words| && hit.value == words[j] && Found(u, regex, words[j], u.normalize(text))
                          && forall k :: 0 <= k < j ==> !Found(u, regex, words[k], u.normalize(text))
  {
    var value := u.normalize(text);
    var compiled;
    ghost var from;
    compiled, from := NewNGWordMatcher(u, regex, words);
    hit := Match(u, Some(compiled), text);
    HitsAreFound(u, regex, compiled, words, from, value);
    if hit.Some? {
      ghost var i :| 0 <= i < |compiled| && hit.value == compiled[i].word && Hits(compiled[i], value)
                     && forall j :: 0 <= j < i ==> !Hits(compiled[j], value);
      EarlierAreNotFound(u, regex, compiled, words, from, value, i);
    }
  }

  lemma HitsAreFound(u: Unicode, regex: Regex, compiled: seq<Compiled>, words: seq<NgWord>, from: seq<nat>,
                     value: string)
    requires CompiledFrom(u, regex, compiled, words, from)
    ensures forall i :: 0 <= i < |from| ==>
              && words[from[i]] == compiled[i].word
              && (Found(u, regex, words[from[i]], value) <==> Hits(compiled[i], value))
    ensures (forall w :: w in words ==> !Found(u, regex, w, value)) <==> forall c :: c in compiled ==> !Hits(c, value)
  {
    forall i | 0 <= i < |from|
      ensures words[from[i]] == compiled[i].word
      ensures Found(u, regex, words[from[i]], value) <==> Hits(compiled[i], value)
    {
      FoundIffHit(u, regex, words[from[i]], value);
    }
    forall w | w in words && Found(u, regex, w, value)
      ensures exists c :: c in compiled && Hits(c, value)
    {
      var j :| 0 <= j < |words| && words[j] == w;
      FoundIffHit(u, regex, w, value);
      var i :| 0 <= i < |from| && from[i] == j;
      assert compiled[i] in compiled;
    }
    forall c | c in compiled && Hits(c, value)
      ensures exists w :: w in words && Found(u, regex, w, value)
    {
      var i :| 0 <= i < |compiled| && compiled[i] == c;
      assert words[from[i]] in words;
    }
  }

  lemma EarlierAreNotFound(u: Unicode, regex: Regex, compiled: seq<Compiled>, words: seq<NgWord>, from: seq<nat>,
                           value: string, i: nat)
    requires CompiledFrom(u, regex, compiled, words, from) && i < |compiled|
    requires forall j :: 0 <= j < i ==> !Hits(compiled[j], value)
    ensures forall k :: 0 <= k < from[i] ==> !Found(u, regex, words[k], value)
  {
    forall k | 0 <= k < from[i]
      ensures !Found(u, regex, words[k], value)
    {
      FoundIffHit(u, regex, words[k], value);
      if Compile(u, regex, words[k]).Some? {
        var j :| 0 <= j < |from| && from[j] == k;
        assert j < i;
      }
    }
  }

  /** For one word the statement in full: the text is hit exactly when its normal form contains the word's. */
  method MatchOneWord(u: Unicode, regex: Regex, w: NgWord, text: string) returns (hit: Option<NgWord>)
    requires w.matchType.WordMatch? && u.normalize(w.pattern) != "" && text != ""
    ensures hit == Some(w) || hit == None
    ensures hit == Some(w) <==> exists i :: OccursAt(u.normalize(text), u.normalize(w.pattern), i)
  {
    hit := MatchRegistered(u, regex, [w], text);
    assert w in [w] && forall v :: v in [w] ==> v == w;
  }

  /** Between `a` and `b` of the normalised text stands what the registered word `w` looks for. */
  ghost predicate StandsAt(u: Unicode, regex: Regex, w: NgWord, value: string, a: int, b: int) {
    match w.matchType
    case WordMatch => b == a + |u.normalize(w.pattern)| && OccursAt(value, u.normalize(w.pattern), a)
    case RegexMatch =>
      regex(w.pattern).Some? && exists m :: m in regex(w.pattern).value(value) && m.start == a && m.end == b
  }

  /** Position `x` lies in the segments of a non-empty stretch that one of the registered words looks for. */
  ghost predicate MustHide(u: Unicode, regex: Regex, words: seq<NgWord>, text: string, x: int)
    requires Sane(u)
  {
    exists w, a, b :: w in words && StandsAt(u, regex, w, ValueFrom(u, text, 0), a, b)
                      && InSegmentsOf(OriginsFrom(u, text, 0), a, b, x)
  }

  ghost predicate FindsInRange(find: string -> seq<Span>) {
    forall v: string, s :: s in find(v) ==> 0 <= s.start <= s.end <= |v|
  }

  ghost predicate RegexInRange(regex: Regex) {
    forall p: string :: regex(p).Some? ==> FindsInRange(regex(p).value)
  }

  lemma CompiledInRange(u: Unicode, regex: Regex, compiled: seq<Compiled>, words: seq<NgWord>, from: seq<nat>)
    requires RegexInRange(regex) && CompiledFrom(u, regex, compiled, words, from)
    ensures InRange(compiled)
  {
    forall c, v: string, s | c in compiled && c.Regex? && s in c.find(v)
      ensures 0 <= s.start <= s.end <= |v|
    {
      var i :| 0 <= i < |compiled| && compiled[i] == c;
      assert Compile(u, regex, words[from[i]]) == Some(c);
      assert FindsInRange(c.find);
    }
  }

  /** Mask over the registered words: the text is redacted exactly where one of them must be hidden. */
  method MaskRegistered(u: Unicode, regex: Regex, words: seq<NgWord>, text: string)
    returns (masked: string, ghost spans: set<Span>)
    requires Sane(u) && RegexInRange(regex)
    ensures masked == Redacted(text, spans, 0) && Aligned(u, text, spans)
    ensures forall x :: Covered(spans, x) <==> MustHide(u, regex, words, text, x)
  {
    var compiled;
    ghost var from;
    compiled, from := NewNGWordMatcher(u, regex, words);
    CompiledInRange(u, regex, compiled, words, from);
    masked := Mask(u, Some(compiled), text);
    spans := RawSpans(u, compiled, text);
    RawSpansAreSegmentAligned(u, compiled, text);
    forall x
      ensures Covered(spans, x) <==> MustHide(u, regex, words, text, x)
    {
      CoveredIffMustHide(u, regex, compiled, words, from, text, x);
    }
  }

  lemma ShownIffStands(u: Unicode, regex: Regex, w: NgWord, value: string, a: int, b: int)
    requires Compile(u, regex, w).Some?
    ensures Shown(Compile(u, regex, w).value, value, a, b) <==> StandsAt(u, regex, w, value, a, b)
  {
  }

  lemma CoveredIffMustHide(u: Unicode, regex: Regex, compiled: seq<Compiled>, words: seq<NgWord>, from: seq<nat>,
                           text: string, x: int)
    requires Sane(u) && CompiledFrom(u, regex, compiled, words, from)
    ensures Covered(RawSpans(u, compiled, text), x) <==> MustHide(u, regex, words, text, x)
  {
    var value, origins := ValueFrom(u, text, 0), OriginsFrom(u, text, 0);
    if Covered(RawSpans(u, compiled, text), x) {
      var c, a, b := CoveredIsShown(u, compiled, text, x);
      var i :| 0 <= i < |compiled| && compiled[i] == c;
      ShownIffStands(u, regex, words[from[i]], value, a, b);
      assert words[from[i]] in words && StandsAt(u, regex, words[from[i]], value, a, b);
    }
    if w, a, b :| w in words && StandsAt(u, regex, w, value, a, b) && InSegmentsOf(origins, a, b, x) {
      var j :| 0 <= j < |words| && words[j] == w;
      assert Compile(u, regex, w).Some?;
      var i :| 0 <= i < |from| && from[i] == j;
      assert compiled[i] in compiled;
      ShownIffStands(u, regex, w, value, a, b);
      ShownIsCovered(u, compiled, text, compiled[i], a, b, x);
    }
  }

  // ----- Touching and overlapping matches

  lemma TwoSpans(s: Span, t: Span)
    ensures forall x :: Covered({s, t}, x) <==> s.start <= x < s.end || t.start <= x < t.end
    ensures forall x :: Joined({s, t}, x) <==> s.start < x < s.end || t.start < x < t.end
  {
    assert s in {s, t} && t in {s, t};
  }

  /** Two stretches that only touch become two masks. */
  lemma TouchingSpansStayApart(text: string, a: nat, b: nat, c: nat)
    requires a < b < c <= |text|
    ensures Redacted(text, {Span(a, b), Span(b, c)}, 0) == text[..a] + (MASK + (MASK + text[c..]))
  {
    var spans := {Span(a, b), Span(b, c)};
    TwoSpans(Span(a, b), Span(b, c));
    RedactedGap(text, spans, 0, Span(a, b));
    RedactedGap(text, spans, b, Span(b, c));
    RedactedAfter(text, spans, c);
    assert text[b..b] + (MASK + text[c..]) == MASK + text[c..] && text[0..a] == text[..a];
  }

  /** Two stretches that overlap become one. */
  lemma OverlappingSpansMerge(text: string, a: nat, b: nat, c: nat, d: nat)
    requires a <= b < c <= d <= |text|
    ensures Redacted(text, {Span(a, c), Span(b, d)}, 0) == text[..a] + MASK + text[d..]
    ensures MASK == "\U{00D7}\U{00D7}\U{00D7}\U{00D7}"
  {
    var spans := {Span(a, c), Span(b, d)};
    TwoSpans(Span(a, c), Span(b, d));
    RedactedGap(text, spans, 0, Span(a, d));
    RedactedAfter(text, spans, d);
    assert text[0..a] == text[..a];
    Associative(text[..a], MASK, text[d..]);
  }
}
