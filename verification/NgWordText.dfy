/**
  How a text is cut into normalisation segments and how normalised positions map back to it
  (the first loop of `Mask` in model/ng_word.go).

  The Unicode tables stay outside: a `Unicode` value supplies the next segment boundary of a
  string and its normal form. Texts are sequences of code points.
 */
module NgWordText {

  /** A half-open stretch `start <= x < end` of positions. */
  datatype Span = Span(start: int, end: int)

  /** `boundary(s)` is the end of the first segment of `s`; `normalize` is NormalizeForNGWord. */
  datatype Unicode = Unicode(boundary: string -> int, normalize: string -> string)

  /** A boundary lies inside the string it was asked for. */
  ghost predicate Sane(u: Unicode) {
    forall s: string :: u.boundary(s) <= |s|
  }

  /** The end of the segment that begins at `start`; without a usable boundary, the end of the text. */
  function SegmentEnd(u: Unicode, text: string, start: nat): (end: nat)
    requires Sane(u) && start < |text|
    ensures start < end <= |text|
  {
    var size := u.boundary(text[start..]);
    if size <= 0 then |text| else start + size
  }

  /** The normal forms of the segments from `start` on, one after the other. */
  function ValueFrom(u: Unicode, text: string, start: nat): string
    requires Sane(u) && start <= |text|
    decreases |text| - start
  {
    if start == |text| then "" else
      var end := SegmentEnd(u, text, start);
      u.normalize(text[start..end]) + ValueFrom(u, text, end)
  }

  /** For every position of `ValueFrom`, the segment it came from. */
  function OriginsFrom(u: Unicode, text: string, start: nat): seq<Span>
    requires Sane(u) && start <= |text|
    decreases |text| - start
  {
    if start == |text| then [] else
      var end := SegmentEnd(u, text, start);
      seq(|u.normalize(text[start..end])|, _ => Span(start, end)) + OriginsFrom(u, text, end)
  }

  /** Cutting from `start` on, some segment begins or the text ends at `p`. */
  ghost predicate IsCut(u: Unicode, text: string, start: nat, p: int)
    requires Sane(u) && start <= |text|
    decreases |text| - start
  {
    p == start || (start < |text| && IsCut(u, text, SegmentEnd(u, text, start), p))
  }

  /** `o` is a whole segment. */
  ghost predicate IsSegment(u: Unicode, text: string, start: nat, o: Span)
    requires Sane(u) && start <= |text|
  {
    && start <= o.start < |text|
    && IsCut(u, text, start, o.start)
    && o.end == SegmentEnd(u, text, o.start)
  }

  lemma {:induction false} CutAdvances(u: Unicode, text: string, start: nat, p: nat)
    requires Sane(u) && start <= |text| && p < |text| && IsCut(u, text, start, p)
    ensures IsCut(u, text, start, SegmentEnd(u, text, p)) && start <= p
    decreases |text| - start
  {
    if p == start {
      assert IsCut(u, text, SegmentEnd(u, text, start), SegmentEnd(u, text, p));
    } else {
      CutAdvances(u, text, SegmentEnd(u, text, start), p);
    }
  }

  /** No cut falls strictly inside a segment. */
  lemma {:induction false} NoCutInsideSegment(u: Unicode, text: string, start: nat, c: nat, p: int)
    requires Sane(u) && start <= |text| && c < |text|
    requires IsCut(u, text, start, c) && IsCut(u, text, start, p)
    ensures p <= c || SegmentEnd(u, text, c) <= p
    decreases |text| - start
  {
    if p == start {
      CutAdvances(u, text, start, c);
    } else {
      var end := SegmentEnd(u, text, start);
      CutInRange(u, text, end, p);
      if c != start {
        NoCutInsideSegment(u, text, end, c, p);
      }
    }
  }

  lemma {:induction false} CutInRange(u: Unicode, text: string, start: nat, p: int)
    requires Sane(u) && start <= |text| && IsCut(u, text, start, p)
    ensures start <= p <= |text|
    decreases |text| - start
  {
    if p != start {
      CutInRange(u, text, SegmentEnd(u, text, start), p);
    }
  }

  /** The origins: one segment for each normalised position, in text order. */
  lemma {:induction false} OriginsAreSegments(u: Unicode, text: string, start: nat)
    requires Sane(u) && start <= |text|
    ensures |OriginsFrom(u, text, start)| == |ValueFrom(u, text, start)|
    ensures forall o :: o in OriginsFrom(u, text, start) ==> IsSegment(u, text, start, o)
    // Each ends at the next boundary, or with the text if there is none.
    ensures forall o :: o in OriginsFrom(u, text, start) ==>
              && 0 <= o.start < |text|
              && o.end == if u.boundary(text[o.start..]) > 0 then o.start + u.boundary(text[o.start..]) else |text|
    ensures forall i, j :: 0 <= i <= j < |OriginsFrom(u, text, start)| ==>
              && OriginsFrom(u, text, start)[i].start <= OriginsFrom(u, text, start)[j].start
              && OriginsFrom(u, text, start)[i].end <= OriginsFrom(u, text, start)[j].end
    decreases |text| - start
  {
    if start < |text| {
      var end := SegmentEnd(u, text, start);
      OriginsAreSegments(u, text, end);
      var here: seq<Span> := seq(|u.normalize(text[start..end])|, _ => Span(start, end));
      var rest := OriginsFrom(u, text, end);
      assert OriginsFrom(u, text, start) == here + rest;
      forall i, j | 0 <= i <= j < |here + rest|
        ensures (here + rest)[i].start <= (here + rest)[j].start && (here + rest)[i].end <= (here + rest)[j].end
      {
        if i < |here| <= j {
          assert IsSegment(u, text, end, rest[j - |here|]);
        }
      }
    }
  }
}
