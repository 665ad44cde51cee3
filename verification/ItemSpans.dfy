/** Finding the span of each test-only item in masked Rust source (`test_only_ranges`): the attribute,
    the attributes after it, and the item up to its first semicolon or braces outside parentheses and
    brackets. */
module ItemSpans {
  import opened Wrappers
  import opened TestRanges
  import CfgText

  type SpaceTest = char -> bool

  // --- The scan ---------------------------------------------------------------------------------------

  /** The position of the delimiter that closes the one at which the depth was zero. */
  function Matching(s: string, c: nat, depth: int, left: char, right: char): (r: Option<nat>)
    ensures r.Some? ==> c <= r.value < |s| && s[r.value] == right
    decreases |s| - c
  {
    if c >= |s| then None
    else if s[c] == left then Matching(s, c + 1, depth + 1, left, right)
    else if s[c] == right then if depth == 1 then Some(c) else Matching(s, c + 1, depth - 1, left, right)
    else Matching(s, c + 1, depth, left, right)
  }

  method MatchingDelimiter(s: string, opening: nat, left: char, right: char) returns (r: Option<nat>)
    requires opening <= |s|
    ensures r == Matching(s, opening, 0, left, right)
  {
    var depth := 0;
    for cursor := opening to |s|
      invariant Matching(s, opening, 0, left, right) == Matching(s, cursor, depth, left, right)
    {
      if s[cursor] == left {
        depth := depth + 1;
      } else if s[cursor] == right {
        depth := depth - 1;
        if depth == 0 { return Some(cursor); }
      }
    }
    return None;
  }

  /** The end of a run of whitespace. */
  function SpaceEnd(s: string, c: nat, space: SpaceTest): (e: nat)
    requires c <= |s|
    ensures c <= e <= |s| && (e < |s| ==> !space(s[e])) && forall k :: c <= k < e ==> space(s[k])
    decreases |s| - c
  {
    if c < |s| && space(s[c]) then SpaceEnd(s, c + 1, space) else c
  }

  /** The opening bracket of an attribute that starts here. */
  function Opening(s: string, c: nat, space: SpaceTest): (r: Option<nat>)
    ensures r.Some? ==> c < r.value < |s| && s[c] == '#' && s[r.value] == '['
    ensures r.Some? ==> forall k :: c < k < r.value ==> space(s[k])
  {
    if c >= |s| || s[c] != '#' then None
    else
      var e := SpaceEnd(s, c + 1, space);
      if e < |s| && s[e] == '[' then Some(e) else None
  }

  function Skipped(s: string, c: nat, space: SpaceTest): (r: nat)
    requires c <= |s|
    ensures c <= r <= |s|
    decreases |s| - c
  {
    var e := SpaceEnd(s, c, space);
    match Opening(s, e, space)
    case None => e
    case Some(o) =>
      match Matching(s, o, 0, '[', ']')
      case None => |s|
      case Some(k) => Skipped(s, k + 1, space)
  }

  method SkipAttributes(s: string, start: nat, space: SpaceTest) returns (cursor: nat)
    requires start <= |s|
    ensures cursor == Skipped(s, start, space)
  {
    cursor := start;
    while true
      invariant cursor <= |s| && Skipped(s, start, space) == Skipped(s, cursor, space)
      decreases |s| - cursor
    {
      var e := SpaceEnd(s, cursor, space);
      var opening := Opening(s, e, space);
      if opening.None? { return e; }
      var closing := MatchingDelimiter(s, opening.value, '[', ']');
      if closing.None? { return |s|; }
      cursor := closing.value + 1;
    }
  }

  /** Where the item that starts at `c` is taken to end, with parentheses and brackets open so far. */
  function ItemEnd(s: string, c: nat, parens: nat, brackets: nat): (r: nat)
    requires c <= |s|
    ensures c <= r <= |s| && (c < |s| ==> c < r)
    decreases |s| - c
  {
    if c == |s| then c
    else if s[c] == '(' then ItemEnd(s, c + 1, parens + 1, brackets)
    else if s[c] == ')' && parens > 0 then ItemEnd(s, c + 1, parens - 1, brackets)
    else if s[c] == '[' then ItemEnd(s, c + 1, parens, brackets + 1)
    else if s[c] == ']' && brackets > 0 then ItemEnd(s, c + 1, parens, brackets - 1)
    else if s[c] == '{' && parens == 0 && brackets == 0 then
      match Matching(s, c, 0, '{', '}') case None => |s| case Some(k) => k + 1
    else if s[c] == ';' && parens == 0 && brackets == 0 then c + 1
    else ItemEnd(s, c + 1, parens, brackets)
  }

  method AnnotatedItemEnd(s: string, start: nat) returns (end: nat)
    requires start <= |s|
    ensures end == ItemEnd(s, start, 0, 0)
  {
    var cursor, parens, brackets := start, 0, 0;
    while cursor < |s|
      invariant cursor <= |s| && parens >= 0 && brackets >= 0
      invariant ItemEnd(s, start, 0, 0) == ItemEnd(s, cursor, parens, brackets)
    {
      var c := s[cursor];
      if c == '(' {
        parens := parens + 1;
      } else if c == ')' && parens > 0 {
        parens := parens - 1;
      } else if c == '[' {
        brackets := brackets + 1;
      } else if c == ']' && brackets > 0 {
        brackets := brackets - 1;
      } else if c == '{' && parens == 0 && brackets == 0 {
        var closing := MatchingDelimiter(s, cursor, '{', '}');
        return if closing.None? then |s| else closing.value + 1;
      } else if c == ';' && parens == 0 && brackets == 0 {
        return cursor + 1;
      }
      cursor := cursor + 1;
    }
    return |s|;
  }

  /** A test-only attribute starts at `m`. */
  predicate TestAttribute(s: string, m: nat, space: SpaceTest) {
    var o := Opening(s, m, space);
    o.Some? && var k := Matching(s, o.value, 0, '[', ']');
    k.Some? && o.value < k.value && CfgText.IsTestOnlyAttribute(s[o.value + 1..k.value], space)
  }

  function RangeEnd(s: string, m: nat, space: SpaceTest): (e: nat)
    requires TestAttribute(s, m, space)
    ensures m < e <= |s|
  {
    var k := Matching(s, Opening(s, m, space).value, 0, '[', ']').value;
    ItemEnd(s, Skipped(s, k + 1, space), 0, 0)
  }

  ghost predicate InTestItem(s: string, p: int, space: SpaceTest) {
    exists m: nat :: TestAttribute(s, m, space) && m <= p < RangeEnd(s, m, space)
  }

  /** The spans of the attributes that start before `c`. */
  ghost predicate FoundBefore(s: string, c: nat, spans: seq<Span>, space: SpaceTest) {
    forall p :: Covered(spans, p) <==>
      exists m: nat :: m < c && TestAttribute(s, m, space) && m <= p < RangeEnd(s, m, space)
  }

  /** One attribute of the loop in `test_only_ranges`. */
  method SpanAt(s: string, m: nat, opening: nat, space: SpaceTest) returns (span: Option<Span>)
    requires Opening(s, m, space) == Some(opening)
    ensures span == if TestAttribute(s, m, space) then Some(Span(m, RangeEnd(s, m, space))) else None
  {
    hide Matching, CfgText.IsTestOnlyAttribute, Skipped, ItemEnd, Opening;
    var closing := MatchingDelimiter(s, opening, '[', ']');
    if closing.None? || !CfgText.IsTestOnlyAttribute(s[opening + 1..closing.value], space) { return None; }
    var itemStart := SkipAttributes(s, closing.value + 1, space);
    var end := AnnotatedItemEnd(s, itemStart);
    return Some(Span(m, end));
  }

  /** `test_only_ranges`: a position is covered exactly when it lies between the start of a test-only
      attribute and the end of what follows it. */
  method TestOnlyRanges(s: string, space: SpaceTest) returns (merged: seq<Span>)
    requires !space('#')
    ensures Separated(merged) && forall p :: Covered(merged, p) <==> InTestItem(s, p, space)
  {
    hide Covered, RangeEnd, TestAttribute, FoundBefore, Opening, InTestItem, Separated, SameCover;
    var spans: seq<Span> := [];
    var c := 0;
    NoneFound(s, space);
    while c < |s|
      invariant c <= |s| && FoundBefore(s, c, spans, space)
    {
      var opening := Opening(s, c, space);
      NoneInside(s, c, space);
      if opening.None? {
        NoAttribute(s, c, c + 1, spans, space);
        c := c + 1;
      } else {
        var span := SpanAt(s, c, opening.value, space);
        if span.Some? {
          AttributeFound(s, c, spans, space);
          spans := spans + [span.value];
        } else {
          NoAttribute(s, c, c + 1, spans, space);
        }
        NoAttribute(s, c + 1, opening.value + 1, spans, space);
        c := opening.value + 1;
      }
    }
    merged := MergeRanges(spans);
    AllFound(s, c, spans, merged, space);
  }

  /** No attribute starts inside the opening of another. */
  lemma NoneInside(s: string, c: nat, space: SpaceTest)
    requires !space('#')
    ensures var o := Opening(s, c, space);
            if o.None? then !TestAttribute(s, c, space)
            else forall m :: c < m <= o.value ==> !TestAttribute(s, m, space)
  {
    hide Matching, CfgText.IsTestOnlyAttribute;
  }

  lemma NoneFound(s: string, space: SpaceTest)
    ensures FoundBefore(s, 0, [], space)
  {
  }

  lemma NoAttribute(s: string, c: nat, d: nat, spans: seq<Span>, space: SpaceTest)
    requires c <= d && FoundBefore(s, c, spans, space) && forall m :: c <= m < d ==> !TestAttribute(s, m, space)
    ensures FoundBefore(s, d, spans, space)
  {
    hide Covered, TestAttribute, RangeEnd;
  }

  lemma AttributeFound(s: string, c: nat, spans: seq<Span>, space: SpaceTest)
    requires FoundBefore(s, c, spans, space) && TestAttribute(s, c, space)
    ensures FoundBefore(s, c + 1, spans + [Span(c, RangeEnd(s, c, space))], space)
  {
    hide TestAttribute, RangeEnd;
    var span := Span(c, RangeEnd(s, c, space));
    forall p
      ensures Covered(spans + [span], p) <==>
              exists m: nat :: m < c + 1 && TestAttribute(s, m, space) && m <= p < RangeEnd(s, m, space)
    {
      CoveredSplit(spans, [span], p);
      CoveredOne(span, p);
      hide Covered;
    }
  }

  lemma AllFound(s: string, c: nat, spans: seq<Span>, merged: seq<Span>, space: SpaceTest)
    requires c >= |s| && FoundBefore(s, c, spans, space) && SameCover(merged, spans)
    ensures forall p :: Covered(merged, p) <==> InTestItem(s, p, space)
  {
    hide Covered, RangeEnd;
  }

  /** The attribute that opens at `m` and closes at `k` has, whitespace aside, the text `text`. */
  ghost predicate AttributeReads(s: string, m: nat, k: nat, text: string, space: SpaceTest) {
    var o := Opening(s, m, space);
    && o.Some? && o.value < k && Matching(s, o.value, 0, '[', ']') == Some(k)
    && CfgText.Spread(s[o.value + 1..k], text, space)
  }

  /** Where an attribute is test-only, by its text. */
  lemma TestAttributeIff(s: string, m: nat, space: SpaceTest)
    ensures TestAttribute(s, m, space) <==>
            exists k: nat, text: string :: AttributeReads(s, m, k, text, space) && CfgText.TestForm(text)
  {
    hide Opening, Matching, CfgText.IsTestOnlyAttribute, CfgText.TestForm, CfgText.Spread;
    if TestAttribute(s, m, space) {
      var o := Opening(s, m, space).value;
      var k := Matching(s, o, 0, '[', ']').value;
      var text := CfgText.Compact(s[o + 1..k], space);
      CfgText.CompactIff(s[o + 1..k], text, space);
      CfgText.RemovedIffTestForm(s[o + 1..k], text, space);
      assert AttributeReads(s, m, k, text, space);
    }
    if k: nat, text: string :| AttributeReads(s, m, k, text, space) && CfgText.TestForm(text) {
      CfgText.RemovedIffTestForm(s[Opening(s, m, space).value + 1..k], text, space);
    }
  }

  /** The attribute has a test form, and the position lies between its start and the end of what follows. */
  ghost predicate Removes(s: string, m: nat, k: nat, text: string, p: nat, space: SpaceTest) {
    && AttributeReads(s, m, k, text, space) && CfgText.TestForm(text)
    && k < |s| && m <= p < ItemEnd(s, Skipped(s, k + 1, space), 0, 0)
  }

  /** Whole files: a position is removed if and only if an attribute of one of the test forms removes it. */
  lemma RemovedPositionIff(s: string, p: nat, space: SpaceTest)
    ensures InTestItem(s, p, space) <==> exists m: nat, k: nat, text: string :: Removes(s, m, k, text, p, space)
  {
    hide TestAttribute, AttributeReads, CfgText.TestForm, ItemEnd, Skipped, RangeEnd;
    if InTestItem(s, p, space) {
      var m: nat :| TestAttribute(s, m, space) && m <= p < RangeEnd(s, m, space);
      TestAttributeIff(s, m, space);
      var k: nat, text: string :| AttributeReads(s, m, k, text, space) && CfgText.TestForm(text);
      EndOf(s, m, k, text, space);
      assert Removes(s, m, k, text, p, space);
    }
    if m: nat, k: nat, text: string :| Removes(s, m, k, text, p, space) {
      TestAttributeIff(s, m, space);
      EndOf(s, m, k, text, space);
    }
  }

  lemma EndOf(s: string, m: nat, k: nat, text: string, space: SpaceTest)
    requires AttributeReads(s, m, k, text, space) && TestAttribute(s, m, space)
    ensures k < |s| && RangeEnd(s, m, space) == ItemEnd(s, Skipped(s, k + 1, space), 0, 0)
  {
    hide ItemEnd, Skipped, CfgText.Spread, CfgText.IsTestOnlyAttribute;
  }
}
