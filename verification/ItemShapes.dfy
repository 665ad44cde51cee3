/** What the scan for the end of an attributed item finds in well-bracketed source. */
module ItemShapes {
  import opened Wrappers
  import opened ItemSpans
  import CfgText

  datatype Shape = Paren | Bracket | Brace

  function Left(shape: Shape): char {
    match shape case Paren => '(' case Bracket => '[' case Brace => '{'
  }

  function Right(shape: Shape): char {
    match shape case Paren => ')' case Bracket => ']' case Brace => '}'
  }

  predicate IsDelimiter(c: char) {
    c in "()[]{}"
  }

  /** Masked source as nested groups; a leaf is a character that is no delimiter. */
  datatype Tree = Leaf(c: char) | Group(shape: Shape, inner: seq<Tree>)

  function Text(t: Tree): (r: string)
    ensures r != ""
  {
    match t
    case Leaf(c) => [c]
    case Group(shape, inner) => [Left(shape)] + TextOf(inner) + [Right(shape)]
  }

  function TextOf(ts: seq<Tree>): string {
    if ts == [] then "" else Text(ts[0]) + TextOf(ts[1..])
  }

  predicate WellFormed(t: Tree) {
    match t
    case Leaf(c) => !IsDelimiter(c)
    case Group(_, inner) => AllWellFormed(inner)
  }

  predicate AllWellFormed(ts: seq<Tree>) {
    ts == [] || (WellFormed(ts[0]) && AllWellFormed(ts[1..]))
  }

  predicate At(s: string, c: nat, t: string) {
    c + |t| <= |s| && s[c..c + |t|] == t
  }

  lemma AtSplit(s: string, c: nat, a: string, b: string)
    ensures At(s, c, a + b) <==> At(s, c, a) && At(s, c + |a|, b)
  {
    if c + |a| + |b| <= |s| {
      var t := s[c..c + |a| + |b|];
      assert t[..|a|] == s[c..c + |a|] && t[|a|..] == s[c + |a|..c + |a| + |b|];
      assert t == t[..|a|] + t[|a|..];
      assert (a + b)[..|a|] == a && (a + b)[|a|..] == b;
    }
  }

  lemma AtOne(s: string, c: nat, x: char)
    ensures At(s, c, [x]) <==> c < |s| && s[c] == x
  {
    if c < |s| { assert s[c..c + 1] == [s[c]]; }
  }

  /** A group in the text: its delimiters and what is between them. */
  lemma GroupAt(s: string, c: nat, shape: Shape, inner: seq<Tree>)
    requires At(s, c, Text(Group(shape, inner)))
    ensures var e := c + 1 + |TextOf(inner)|;
            e < |s| && s[c] == Left(shape) && At(s, c + 1, TextOf(inner)) && s[e] == Right(shape)
    ensures |Text(Group(shape, inner))| == |TextOf(inner)| + 2
  {
    hide At;
    assert Text(Group(shape, inner)) == [Left(shape)] + TextOf(inner) + [Right(shape)];
    AtSplit(s, c, [Left(shape)] + TextOf(inner), [Right(shape)]);
    AtSplit(s, c, [Left(shape)], TextOf(inner));
    AtOne(s, c, Left(shape));
    AtOne(s, c + 1 + |TextOf(inner)|, Right(shape));
  }

  // --- Matching a delimiter -----------------------------------------------------------------------------

  lemma {:induction false} MatchingPasses(s: string, c: nat, depth: int, t: Tree, shape: Shape)
    requires WellFormed(t) && At(s, c, Text(t)) && depth > 0
    ensures Matching(s, c, depth, Left(shape), Right(shape)) ==
            Matching(s, c + |Text(t)|, depth, Left(shape), Right(shape))
    decreases t, 0
  {
    hide At;
    match t {
      case Leaf(x) => AtOne(s, c, x);
      case Group(g, inner) =>
        GroupAt(s, c, g, inner);
        MatchingPassesAll(s, c + 1, if g == shape then depth + 1 else depth, inner, shape);
    }
  }

  lemma {:induction false} MatchingPassesAll(s: string, c: nat, depth: int, ts: seq<Tree>, shape: Shape)
    requires AllWellFormed(ts) && At(s, c, TextOf(ts)) && depth > 0
    ensures Matching(s, c, depth, Left(shape), Right(shape)) ==
            Matching(s, c + |TextOf(ts)|, depth, Left(shape), Right(shape))
    decreases ts
  {
    hide At, Matching, Text, WellFormed;
    if ts != [] {
      AtSplit(s, c, Text(ts[0]), TextOf(ts[1..]));
      MatchingPasses(s, c, depth, ts[0], shape);
      MatchingPassesAll(s, c + |Text(ts[0])|, depth, ts[1..], shape);
    }
  }

  /** The delimiter found is the one that closes the group. */
  lemma MatchingCloses(s: string, c: nat, shape: Shape, inner: seq<Tree>)
    requires AllWellFormed(inner) && At(s, c, Text(Group(shape, inner)))
    ensures Matching(s, c, 0, Left(shape), Right(shape)) == Some(c + 1 + |TextOf(inner)|)
  {
    GroupAt(s, c, shape, inner);
    MatchingPassesAll(s, c + 1, 1, inner, shape);
  }

  // --- The end of an item -----------------------------------------------------------------------------------

  /** A semicolon or a braced group. */
  predicate Stops(t: Tree) {
    t == Leaf(';') || (t.Group? && t.shape == Brace)
  }

  predicate HasStop(ts: seq<Tree>) {
    ts != [] && (Stops(ts[0]) || HasStop(ts[1..]))
  }

  /** The item up to and with its first stop. */
  function UpToStop(ts: seq<Tree>): seq<Tree> {
    if ts == [] then [] else if Stops(ts[0]) then [ts[0]] else [ts[0]] + UpToStop(ts[1..])
  }

  lemma {:induction false} ItemEndPasses(s: string, c: nat, parens: nat, brackets: nat, t: Tree)
    requires WellFormed(t) && At(s, c, Text(t)) && (parens + brackets > 0 || !Stops(t))
    ensures ItemEnd(s, c, parens, brackets) == ItemEnd(s, c + |Text(t)|, parens, brackets)
    decreases t, 0
  {
    hide At, Text, Matching;
    match t {
      case Leaf(x) =>
        assert Text(t) == [x] by { LeafText(x); }
        AtOne(s, c, x);
      case Group(g, inner) =>
        GroupAt(s, c, g, inner);
        ItemEndPassesAll(s, c + 1, if g == Paren then parens + 1 else parens,
                         if g == Bracket then brackets + 1 else brackets, inner);
    }
  }

  lemma LeafText(x: char)
    ensures Text(Leaf(x)) == [x]
  {
  }

  lemma {:induction false} ItemEndPassesAll(s: string, c: nat, parens: nat, brackets: nat, ts: seq<Tree>)
    requires AllWellFormed(ts) && At(s, c, TextOf(ts)) && (parens + brackets > 0 || !HasStop(ts))
    ensures ItemEnd(s, c, parens, brackets) == ItemEnd(s, c + |TextOf(ts)|, parens, brackets)
    decreases ts
  {
    hide At, ItemEnd, Text, WellFormed, Stops;
    if ts != [] {
      AtSplit(s, c, Text(ts[0]), TextOf(ts[1..]));
      ItemEndPasses(s, c, parens, brackets, ts[0]);
      ItemEndPassesAll(s, c + |Text(ts[0])|, parens, brackets, ts[1..]);
    }
  }

  lemma ItemEndStops(s: string, c: nat, t: Tree)
    requires WellFormed(t) && At(s, c, Text(t)) && Stops(t)
    ensures ItemEnd(s, c, 0, 0) == c + |Text(t)|
  {
    hide At, Text, Matching;
    match t {
      case Leaf(x) =>
        assert Text(t) == [x] by { LeafText(x); }
        AtOne(s, c, x);
      case Group(g, inner) =>
        GroupAt(s, c, g, inner);
        MatchingCloses(s, c, g, inner);
    }
  }

  /** The scan ends after the first stop of the item, wherever that is. */
  lemma {:induction false} ItemEndIs(s: string, c: nat, item: seq<Tree>)
    requires AllWellFormed(item) && At(s, c, TextOf(item)) && HasStop(item)
    ensures ItemEnd(s, c, 0, 0) == c + |TextOf(UpToStop(item))|
    decreases item
  {
    hide At, ItemEnd, Text, WellFormed, Stops;
    AtSplit(s, c, Text(item[0]), TextOf(item[1..]));
    if Stops(item[0]) {
      ItemEndStops(s, c, item[0]);
      assert [item[0]][1..] == [] && Text(item[0]) + "" == Text(item[0]);
    } else {
      ItemEndPasses(s, c, 0, 0, item[0]);
      ItemEndIs(s, c + |Text(item[0])|, item[1..]);
      assert ([item[0]] + UpToStop(item[1..]))[1..] == UpToStop(item[1..]);
    }
  }

  lemma {:induction false} UpToStopShorter(item: seq<Tree>)
    ensures |TextOf(UpToStop(item))| <= |TextOf(item)|
    ensures |TextOf(UpToStop(item))| == |TextOf(item)| <==> UpToStop(item) == item
  {
    hide Text, Stops;
    if item != [] {
      UpToStopShorter(item[1..]);
      assert item == [item[0]] + item[1..];
      if Stops(item[0]) {
        assert [item[0]][1..] == [] && (item[1..] == [] ==> TextOf(item[1..]) == "");
        assert item[1..] != [] ==> |TextOf(item[1..])| >= |Text(item[1])| > 0;
      } else {
        assert ([item[0]] + UpToStop(item[1..]))[1..] == UpToStop(item[1..]);
      }
    }
  }

  /** Where the scan ends, for an item with anything at all after it. It stays within the item if and
      only if the item has a semicolon or braces of its own, or is the last thing in the file; and it
      ends exactly with the item if and only if that is the item's last part. */
  lemma ItemEndIff(s: string, c: nat, item: seq<Tree>)
    requires AllWellFormed(item) && At(s, c, TextOf(item))
    ensures var e := c + |TextOf(item)|;
            && (ItemEnd(s, c, 0, 0) <= e <==> HasStop(item) || e == |s|)
            && (ItemEnd(s, c, 0, 0) == e <==> (if HasStop(item) then UpToStop(item) == item else e == |s|))
  {
    hide At, TextOf;
    UpToStopShorter(item);
    if HasStop(item) {
      ItemEndIs(s, c, item);
    } else {
      ItemEndPassesAll(s, c, 0, 0, item);
    }
  }

  /** The failing family: an attributed field, variant, arm or parameter has neither, so the delimiter
      that closes what it belongs to is passed over and the span runs on through the body of the next
      item. */
  lemma NextItemIsHidden(s: string, c: nat, field: seq<Tree>, outer: Shape, head: seq<Tree>, body: seq<Tree>)
    requires AllWellFormed(field) && AllWellFormed(head) && AllWellFormed(body) && !HasStop(field) && !HasStop(head)
    requires At(s, c, TextOf(field) + [Right(outer)] + TextOf(head) + Text(Group(Brace, body)))
    ensures ItemEnd(s, c, 0, 0) == c + |TextOf(field)| + 1 + |TextOf(head)| + |Text(Group(Brace, body))|
  {
    hide At, Text, TextOf, ItemEnd, HasStop, AllWellFormed;
    var (f, x, h, b) := (TextOf(field), [Right(outer)], TextOf(head), Text(Group(Brace, body)));
    AtSplit(s, c, f + x + h, b);
    AtSplit(s, c, f + x, h);
    AtSplit(s, c, f, x);
    AtOne(s, c + |f|, Right(outer));
    ItemEndPassesAll(s, c, 0, 0, field);
    CloserPassed(s, c + |f|, outer);
    ItemEndPassesAll(s, c + |f| + 1, 0, 0, head);
    ItemEndStops(s, c + |f| + 1 + |h|, Group(Brace, body));
  }

  lemma CloserPassed(s: string, c: nat, outer: Shape)
    requires c < |s| && s[c] == Right(outer)
    ensures ItemEnd(s, c, 0, 0) == ItemEnd(s, c + 1, 0, 0)
  {
  }

  // --- Attributes -----------------------------------------------------------------------------------------------

  /** One attribute, with whitespace after the hash sign and before it. */
  datatype Attribute = Attribute(before: string, gap: string, content: seq<Tree>)

  ghost predicate AllSpace(t: string, space: SpaceTest) {
    forall k :: 0 <= k < |t| ==> space(t[k])
  }

  ghost predicate AttributeOk(a: Attribute, space: SpaceTest) {
    AllSpace(a.before, space) && AllSpace(a.gap, space) && AllWellFormed(a.content)
  }

  function AttributeText(a: Attribute): string {
    a.before + ("#" + (a.gap + Text(Group(Bracket, a.content))))
  }

  function AttributesText(attributes: seq<Attribute>): string {
    if attributes == [] then "" else AttributeText(attributes[0]) + AttributesText(attributes[1..])
  }

  lemma {:induction false} SpacePasses(s: string, c: nat, t: string, space: SpaceTest)
    requires At(s, c, t) && AllSpace(t, space)
    ensures SpaceEnd(s, c, space) == SpaceEnd(s, c + |t|, space)
    decreases t
  {
    if t != "" {
      assert t == [t[0]] + t[1..];
      AtSplit(s, c, [t[0]], t[1..]);
      AtOne(s, c, t[0]);
      SpacePasses(s, c + 1, t[1..], space);
    }
  }

  /** Where the hash sign, the brackets and the end of an attribute are. */
  lemma AttributeAt(s: string, c: nat, a: Attribute, space: SpaceTest)
    requires At(s, c, AttributeText(a)) && AttributeOk(a, space) && !space('#') && !space('[')
    ensures var hash := c + |a.before|;
            var open := hash + 1 + |a.gap|;
            && SpaceEnd(s, c, space) == hash && Opening(s, hash, space) == Some(open)
            && Matching(s, open, 0, '[', ']') == Some(open + 1 + |TextOf(a.content)|)
            && open + 1 + |TextOf(a.content)| < |s| && c + |AttributeText(a)| == open + 2 + |TextOf(a.content)|
            && s[open + 1..open + 1 + |TextOf(a.content)|] == TextOf(a.content)
  {
    hide At, Matching, SpaceEnd, Text, TextOf, Opening, AllSpace, AllWellFormed;
    var (g, hash) := (Text(Group(Bracket, a.content)), c + |a.before|);
    var open := hash + 1 + |a.gap|;
    AtSplit(s, c, a.before, "#" + (a.gap + g));
    AtSplit(s, hash, "#", a.gap + g);
    AtSplit(s, hash + 1, a.gap, g);
    AtOne(s, hash, '#');
    GroupAt(s, open, Bracket, a.content);
    MatchingCloses(s, open, Bracket, a.content);
    SpacePasses(s, c, a.before, space);
    SpacePasses(s, hash + 1, a.gap, space);
    SpaceStops(s, hash, space);
    SpaceStops(s, open, space);
    OpeningIs(s, hash, open, space);
    SliceIs(s, open + 1, TextOf(a.content));
  }

  lemma SliceIs(s: string, c: nat, t: string)
    requires At(s, c, t)
    ensures s[c..c + |t|] == t
  {
  }

  lemma SpaceStops(s: string, c: nat, space: SpaceTest)
    requires c < |s| && !space(s[c])
    ensures SpaceEnd(s, c, space) == c
  {
  }

  lemma OpeningIs(s: string, c: nat, open: nat, space: SpaceTest)
    requires c < open < |s| && s[c] == '#' && s[open] == '[' && SpaceEnd(s, c + 1, space) == open
    ensures Opening(s, c, space) == Some(open)
  {
  }

  ghost predicate AttributesOk(attributes: seq<Attribute>, space: SpaceTest) {
    attributes == [] || (AttributeOk(attributes[0], space) && AttributesOk(attributes[1..], space))
  }

  /** Neither whitespace nor another attribute starts here. */
  ghost predicate ItemStartsAt(s: string, c: nat, space: SpaceTest) {
    c == |s| || (c < |s| && !space(s[c]) && Opening(s, c, space).None?)
  }

  /** Any number of attributes and whitespace are skipped, up to the item. */
  lemma {:induction false} SkipsToItem(s: string, c: nat, attributes: seq<Attribute>, lead: string, space: SpaceTest)
    requires At(s, c, AttributesText(attributes) + lead) && AttributesOk(attributes, space) && AllSpace(lead, space)
    requires !space('#') && !space('[') && ItemStartsAt(s, c + |AttributesText(attributes) + lead|, space)
    ensures Skipped(s, c, space) == c + |AttributesText(attributes) + lead|
    decreases attributes
  {
    hide At, AttributeText, AttributeOk, AllSpace, Matching, SpaceEnd, Skipped, Opening, ItemStartsAt;
    if attributes == [] {
      assert "" + lead == lead;
      SpacePasses(s, c, lead, space);
      SpaceEndsAtItem(s, c + |lead|, space);
      SkippedEnds(s, c, c + |lead|, space);
    } else {
      hide AttributesText;
      var (a, rest) := (attributes[0], AttributesText(attributes[1..]));
      AttributesHead(attributes, lead);
      AtSplit(s, c, AttributeText(a), rest + lead);
      AttributeAt(s, c, a, space);
      var hash := c + |a.before|;
      SkippedAttribute(s, c, hash, hash + 1 + |a.gap|, c + |AttributeText(a)| - 1, space);
      SkipsToItem(s, c + |AttributeText(a)|, attributes[1..], lead, space);
    }
  }

  lemma AttributesHead(attributes: seq<Attribute>, lead: string)
    requires attributes != []
    ensures AttributesText(attributes) + lead ==
            AttributeText(attributes[0]) + (AttributesText(attributes[1..]) + lead)
  {
    hide AttributeText;
  }

  lemma SkippedEnds(s: string, c: nat, e: nat, space: SpaceTest)
    requires c <= e <= |s| && SpaceEnd(s, c, space) == e && Opening(s, e, space).None?
    ensures Skipped(s, c, space) == e
  {
    hide SpaceEnd, Opening;
  }

  lemma SkippedAttribute(s: string, c: nat, hash: nat, open: nat, close: nat, space: SpaceTest)
    requires c <= |s| && SpaceEnd(s, c, space) == hash && Opening(s, hash, space) == Some(open)
    requires Matching(s, open, 0, '[', ']') == Some(close)
    ensures Skipped(s, c, space) == Skipped(s, close + 1, space)
  {
    hide SpaceEnd, Opening, Matching;
  }

  lemma SpaceEndsAtItem(s: string, c: nat, space: SpaceTest)
    requires ItemStartsAt(s, c, space)
    ensures SpaceEnd(s, c, space) == c && Opening(s, c, space).None?
  {
  }

  /** An attribute, the attributes after it, whitespace, and the item they annotate. */
  datatype Annotation = Annotation(first: Attribute, more: seq<Attribute>, lead: string, item: seq<Tree>)

  function AnnotationText(a: Annotation): string {
    AttributeText(a.first) + (AttributesText(a.more) + a.lead + TextOf(a.item))
  }

  ghost predicate Annotates(s: string, m: nat, a: Annotation, space: SpaceTest) {
    && a.first.before == "" && AttributeOk(a.first, space) && AttributesOk(a.more, space) && AllSpace(a.lead, space)
    && AllWellFormed(a.item) && At(s, m, AnnotationText(a))
    && ItemStartsAt(s, m + |AttributeText(a.first)| + |AttributesText(a.more) + a.lead|, space)
  }

  /** The span of a test-only attribute, in source where it annotates an item. Nothing after the item
      is removed if and only if the item has a semicolon or braces of its own or ends the file, and the
      span ends with the item if and only if that is the item's last part. */
  lemma AnnotatedSpanIff(s: string, m: nat, a: Annotation, space: SpaceTest)
    requires Annotates(s, m, a, space) && !space('#') && !space('[')
    ensures TestAttribute(s, m, space) <==> CfgText.IsTestOnlyAttribute(TextOf(a.first.content), space)
    ensures TestAttribute(s, m, space) ==>
              var e := m + |AnnotationText(a)|;
              && (RangeEnd(s, m, space) <= e <==> HasStop(a.item) || e == |s|)
              && (RangeEnd(s, m, space) == e <==> if HasStop(a.item) then UpToStop(a.item) == a.item else e == |s|)
  {
    hide At, AttributeText, AttributesText, AttributeOk, AttributesOk, TextOf, Matching, Opening, Skipped, ItemEnd,
        SpaceEnd, CfgText.IsTestOnlyAttribute, HasStop, UpToStop, AllWellFormed, ItemStartsAt, AllSpace;
    var (f, lead, item) := (AttributeText(a.first), AttributesText(a.more) + a.lead, TextOf(a.item));
    AtSplit(s, m, f, lead + item);
    AtSplit(s, m + |f|, lead, item);
    AttributeAt(s, m, a.first, space);
    SkipsToItem(s, m + |f|, a.more, a.lead, space);
    ItemEndIff(s, m + |f| + |lead|, a.item);
  }

  /** Whole files: where every test-only attribute annotates an item with a semicolon or braces of its
      own, only positions of such items are removed. */
  lemma OnlyTestItemsAreRemoved(s: string, space: SpaceTest, p: nat)
    requires !space('#') && !space('[') && InTestItem(s, p, space)
    requires forall m: nat :: TestAttribute(s, m, space) ==> exists a :: Annotates(s, m, a, space) && HasStop(a.item)
    ensures exists m: nat, a ::
              TestAttribute(s, m, space) && Annotates(s, m, a, space) && m <= p < m + |AnnotationText(a)|
  {
    hide TestAttribute, Annotates, RangeEnd, HasStop, AnnotationText;
    var m: nat :| TestAttribute(s, m, space) && m <= p < RangeEnd(s, m, space);
    var a :| Annotates(s, m, a, space) && HasStop(a.item);
    AnnotatedSpanIff(s, m, a, space);
  }
}
