/** Merging the spans of test-only items in the Rust source scanner, and looking a position up. */
module TestRanges {

  datatype Span = Span(start: int, end: int)

  predicate Before(a: Span, b: Span) {
    a.start < b.start || (a.start == b.start && a.end <= b.end)
  }

  predicate Sorted(spans: seq<Span>) {
    |spans| <= 1 || (Before(spans[0], spans[1]) && Sorted(spans[1..]))
  }

  predicate Covered(spans: seq<Span>, position: int) {
    exists s <- spans :: s.start <= position < s.end
  }

  ghost predicate SameCover(a: seq<Span>, b: seq<Span>) {
    forall p :: Covered(a, p) <==> Covered(b, p)
  }

  /** In order, with a gap before every span but the first. */
  predicate Separated(spans: seq<Span>) {
    forall i, j :: 0 <= i < j < |spans| ==> spans[i].end < spans[j].start && spans[i].start <= spans[j].start
  }

  // --- Sorting --------------------------------------------------------------------------------------

  function Insert(s: Span, spans: seq<Span>): seq<Span> {
    if spans == [] || Before(s, spans[0]) then [s] + spans else [spans[0]] + Insert(s, spans[1..])
  }

  function SortSpans(spans: seq<Span>): seq<Span> {
    if spans == [] then [] else Insert(spans[0], SortSpans(spans[1..]))
  }

  lemma {:induction false} InsertKeeps(s: Span, spans: seq<Span>)
    requires Sorted(spans)
    ensures Sorted(Insert(s, spans)) && multiset(Insert(s, spans)) == multiset{s} + multiset(spans)
  {
    if spans == [] || Before(s, spans[0]) {
      assert ([s] + spans)[1..] == spans;
    } else {
      var rest := spans[1..];
      InsertKeeps(s, rest);
      assert Insert(s, spans)[1..] == Insert(s, rest);
      assert Insert(s, rest)[0] == s || (rest != [] && Insert(s, rest)[0] == rest[0]);
      assert spans == [spans[0]] + rest;
    }
  }

  lemma {:induction false} SortedAt(spans: seq<Span>, i: nat)
    requires Sorted(spans) && i + 1 < |spans|
    ensures Before(spans[i], spans[i + 1])
  {
    if i > 0 { SortedAt(spans[1..], i - 1); }
  }

  /** The sorted list is ordered and holds the same spans. */
  lemma {:induction false} SortKeeps(spans: seq<Span>)
    ensures Sorted(SortSpans(spans)) && multiset(SortSpans(spans)) == multiset(spans)
  {
    if spans == [] {
    } else {
      SortKeeps(spans[1..]);
      InsertKeeps(spans[0], SortSpans(spans[1..]));
      assert spans == [spans[0]] + spans[1..];
    }
  }

  lemma SortCovers(spans: seq<Span>)
    ensures Sorted(SortSpans(spans)) && |SortSpans(spans)| == |spans| && SameCover(SortSpans(spans), spans)
  {
    SortKeeps(spans);
    var ranges := SortSpans(spans);
    SameCovered(ranges, spans);
    assert |multiset(ranges)| == |multiset(spans)|;
  }

  // --- Merging --------------------------------------------------------------------------------------

  /** One step of the pass: widen the last merged span or start a new one. */
  function Absorb(merged: seq<Span>, s: Span): seq<Span>
    requires merged != []
  {
    var last := merged[|merged| - 1];
    if s.start <= last.end then merged[|merged| - 1 := Span(last.start, if s.end > last.end then s.end else last.end)]
    else merged + [s]
  }

  lemma AbsorbKeeps(merged: seq<Span>, s: Span, prefix: seq<Span>)
    requires merged != [] && Separated(merged) && merged[|merged| - 1].start <= s.start
    requires SameCover(merged, prefix)
    ensures Separated(Absorb(merged, s)) && SameCover(Absorb(merged, s), prefix + [s])
  {
    var (front, last) := (merged[..|merged| - 1], merged[|merged| - 1]);
    assert merged == front + [last];
    var next := Absorb(merged, s);
    var w := Span(last.start, if s.end > last.end then s.end else last.end);
    assert s.start <= last.end ==> next == front + [w];
    forall p
      ensures Covered(next, p) <==> Covered(prefix + [s], p)
    {
      hide Separated;
      CoveredSplit(prefix, [s], p);
      CoveredSplit(front, [last], p);
      CoveredSplit(front, [w], p);
      CoveredSplit(merged, [s], p);
      hide Covered;
      CoveredOne(s, p);
      CoveredOne(last, p);
      CoveredOne(w, p);
    }
  }

  lemma CoveredOne(s: Span, p: int)
    ensures Covered([s], p) <==> s.start <= p < s.end
  {
    assert s in [s];
  }

  /** The tail of `test_only_ranges`: sort, then one pass over the spans. The result covers exactly
      the given positions, with a gap between spans. */
  method MergeRanges(spans: seq<Span>) returns (merged: seq<Span>)
    ensures Separated(merged) && SameCover(merged, spans)
  {
    hide Sorted, SortSpans, SameCover, Separated, Covered;
    if spans == [] {
      EmptyCover();
      return [];
    }
    var ranges := SortSpans(spans);
    SortCovers(spans);
    merged := [ranges[0]];
    FirstSpan(ranges[0]);
    assert ranges[..1] == [ranges[0]];
    for i := 1 to |ranges|
      invariant merged != [] && Separated(merged) && merged[|merged| - 1].start <= ranges[i - 1].start
      invariant SameCover(merged, ranges[..i])
    {
      SortedAt(ranges, i - 1);
      AbsorbKeeps(merged, ranges[i], ranges[..i]);
      assert ranges[..i + 1] == ranges[..i] + [ranges[i]];
      var (s, last) := (ranges[i], merged[|merged| - 1]);
      if s.start <= last.end {
        merged := merged[|merged| - 1 := Span(last.start, if s.end > last.end then s.end else last.end)];
      } else {
        merged := merged + [s];
      }
    }
    assert ranges[..|ranges|] == ranges;
    CoverTransitive(merged, ranges, spans);
  }

  lemma EmptyCover()
    ensures Separated([]) && SameCover([], [])
  {
  }

  lemma FirstSpan(s: Span)
    ensures Separated([s]) && SameCover([s], [s])
  {
  }

  lemma CoverTransitive(a: seq<Span>, b: seq<Span>, c: seq<Span>)
    requires SameCover(a, b) && SameCover(b, c)
    ensures SameCover(a, c)
  {
  }

  lemma SameCovered(a: seq<Span>, b: seq<Span>)
    requires multiset(a) == multiset(b)
    ensures SameCover(a, b)
  {
    assert forall s :: s in a <==> s in multiset(a);
    assert forall s :: s in b <==> s in multiset(b);
  }

  lemma CoveredSplit(a: seq<Span>, b: seq<Span>, p: int)
    ensures Covered(a + b, p) <==> Covered(a, p) || Covered(b, p)
  {
    if Covered(a + b, p) {
      var s :| s in a + b && s.start <= p < s.end;
      assert s in a || s in b;
    }
    assert forall s :: s in a || s in b ==> s in a + b;
  }

  /** `_inside_ranges`: the walk stops once starts pass the position, and still decides whether any
      span covers it. */
  method InsideRanges(position: int, spans: seq<Span>) returns (inside: bool)
    requires Separated(spans)
    ensures inside <==> Covered(spans, position)
  {
    for i := 0 to |spans|
      invariant forall k :: 0 <= k < i ==> spans[k].end <= position
    {
      if position < spans[i].start { return false; }
      if spans[i].start <= position < spans[i].end { return true; }
    }
    return false;
  }

  predicate NonEmptySpans(spans: seq<Span>) {
    forall i :: 0 <= i < |spans| ==> spans[i].start < spans[i].end
  }

  /** Two separated lists of non-empty spans that cover the same positions are the same list, so the
      merged form does not depend on how the ranges were found. */
  lemma {:induction false} SeparatedIsCanonical(a: seq<Span>, b: seq<Span>)
    requires Separated(a) && Separated(b)
    requires NonEmptySpans(a) && NonEmptySpans(b)
    requires SameCover(a, b)
    ensures a == b
  {
    if a == [] && b == [] {
    } else if a == [] {
      FirstCovered(b);
    } else if b == [] {
      FirstCovered(a);
    } else {
      SameFirst(a, b);
      SameRest(a, b);
      assert NonEmptySpans(a[1..]) && NonEmptySpans(b[1..]);
      hide SameCover, Separated;
      SeparatedIsCanonical(a[1..], b[1..]);
      assert a == [a[0]] + a[1..] && b == [b[0]] + b[1..];
    }
  }

  lemma SameRest(a: seq<Span>, b: seq<Span>)
    requires a != [] && b != [] && Separated(a) && Separated(b) && a[0] == b[0] && SameCover(a, b)
    ensures SameCover(a[1..], b[1..]) && Separated(a[1..]) && Separated(b[1..])
  {
    forall p
      ensures Covered(a[1..], p) <==> Covered(b[1..], p)
    {
      RestCovered(a, p);
      RestCovered(b, p);
    }
  }

  lemma RestCovered(a: seq<Span>, p: int)
    requires a != [] && Separated(a)
    ensures Covered(a[1..], p) <==> Covered(a, p) && !(a[0].start <= p < a[0].end)
  {
    assert a == [a[0]] + a[1..];
    CoveredSplit([a[0]], a[1..], p);
    CoveredOne(a[0], p);
  }

  lemma FirstCovered(a: seq<Span>)
    requires a != [] && Separated(a) && a[0].start < a[0].end
    ensures Covered(a, a[0].start) && forall p :: Covered(a, p) ==> a[0].start <= p
    ensures !Covered(a, a[0].end) && forall p :: a[0].start <= p < a[0].end ==> Covered(a, p)
  {
    assert a[0] in a;
  }

  lemma SameFirst(a: seq<Span>, b: seq<Span>)
    requires a != [] && b != [] && Separated(a) && Separated(b)
    requires a[0].start < a[0].end && b[0].start < b[0].end
    requires SameCover(a, b)
    ensures a[0] == b[0]
  {
    hide Covered, Separated;
    FirstCovered(a);
    FirstCovered(b);
    assert a[0].start == b[0].start;
    assert !Covered(b, a[0].end) && !Covered(a, b[0].end);
  }
}
