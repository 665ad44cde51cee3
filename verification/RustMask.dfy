/** The position-preserving masker for Rust comments and literals
    (`mask_rust_comments_and_literals`). The Unicode test `str.isalnum` is a parameter. */
module RustMask {
  import opened Wrappers

  type AlnumTest = char -> bool

  predicate StartsAt(s: string, pat: string, i: nat) {
    i + |pat| <= |s| && s[i..i + |pat|] == pat
  }

  /** `str.find`: the first occurrence of `pat` at or after `lo`. */
  function Find(s: string, pat: string, lo: nat): (r: Option<nat>)
    ensures r.Some? ==> lo <= r.value && StartsAt(s, pat, r.value)
    ensures forall i :: lo <= i < (if r.Some? then r.value else |s|) ==> !StartsAt(s, pat, i)
    decreases |s| - lo
  {
    if lo >= |s| then (if StartsAt(s, pat, lo) then Some(lo) else None)
    else if StartsAt(s, pat, lo) then Some(lo)
    else Find(s, pat, lo + 1)
  }

  // --- Where each kind of token ends -----------------------------------------------------

  /** How many `#` follow. */
  function HashRun(s: string, i: nat): (n: nat)
    ensures i <= |s| ==> i + n <= |s|
    decreases |s| - i
  {
    if i < |s| && s[i] == '#' then 1 + HashRun(s, i + 1) else 0
  }

  function Hashes(n: nat): (r: string)
    ensures |r| == n
  {
    if n == 0 then "" else "#" + Hashes(n - 1)
  }

  function RawPrefix(s: string, i: nat): nat {
    if StartsAt(s, "br", i) then 2 else if StartsAt(s, "r", i) then 1 else 0
  }

  function RawEnd(s: string, i: nat, alnum: AlnumTest): (r: Option<nat>)
    ensures r.Some? ==> i < r.value <= |s| && i + RawPrefix(s, i) <= |s|
    ensures r.Some? ==> exists q :: i < q < |s| && s[q] == '"' && q < r.value
  {
    if RawPrefix(s, i) == 0 || (0 < i <= |s| && (alnum(s[i - 1]) || s[i - 1] == '_')) then None
    else
      var open := i + RawPrefix(s, i);
      var n := HashRun(s, open);
      var quote := open + n;
      if quote >= |s| || s[quote] != '"' then None
      else
        match Find(s, "\"" + Hashes(n), quote + 1)
        case Some(e) => Some(e + 1 + n)
        case None => Some(|s|)
  }

  function LineEnd(s: string, i: nat): (e: nat)
    requires i + 2 <= |s|
    ensures i + 2 <= e <= |s| && (e < |s| ==> s[e] == '\n') && forall k :: i + 2 <= k < e ==> s[k] != '\n'
  {
    match Find(s, "\n", i + 2)
    case Some(e) => NoLineBreak(s, i + 2, e); e
    case None => NoLineBreak(s, i + 2, |s|); |s|
  }

  lemma NoLineBreak(s: string, lo: nat, hi: nat)
    requires hi <= |s| && forall i :: lo <= i < hi ==> !StartsAt(s, "\n", i)
    ensures forall k :: lo <= k < hi ==> s[k] != '\n'
  {
    forall k | lo <= k < hi ensures s[k] != '\n' {
      assert !StartsAt(s, "\n", k) && s[k..k + 1] == [s[k]];
    }
  }

  /** Scanning inside a block comment at nesting `depth`. */
  function BlockEnd(s: string, end: nat, depth: nat): (e: nat)
    requires end <= |s|
    ensures end <= e <= |s|
    decreases |s| - end
  {
    if end >= |s| || depth == 0 then end
    else if StartsAt(s, "/*", end) then BlockEnd(s, end + 2, depth + 1)
    else if StartsAt(s, "*/", end) then BlockEnd(s, end + 2, depth - 1)
    else BlockEnd(s, end + 1, depth)
  }

  /** Scanning inside a string literal. */
  function StringEnd(s: string, end: nat, escaped: bool): (e: nat)
    requires end <= |s|
    ensures end <= e <= |s|
    decreases |s| - end
  {
    if end >= |s| then end
    else if escaped then StringEnd(s, end + 1, false)
    else if s[end] == '\\' then StringEnd(s, end + 1, true)
    else if s[end] == '"' then end + 1
    else StringEnd(s, end + 1, false)
  }

  /** One character or one escape between single quotes; anything else is a lifetime. */
  function CharEnd(s: string, i: nat): (r: Option<nat>)
    requires i < |s|
    ensures r.Some? ==> i < r.value <= |s|
  {
    var close := if i + 1 < |s| && s[i + 1] == '\\' then i + 3 else i + 2;
    if close < |s| && s[close] == '\'' then Some(close + 1) else None
  }

  /** The end of the token that starts at `i`, if one does. */
  function TokenEnd(s: string, i: nat, alnum: AlnumTest): (r: Option<nat>)
    requires i < |s|
    ensures r.Some? ==> i < r.value <= |s|
  {
    if RawEnd(s, i, alnum).Some? then RawEnd(s, i, alnum)
    else if StartsAt(s, "//", i) then Some(LineEnd(s, i))
    else if StartsAt(s, "/*", i) then Some(BlockEnd(s, i + 2, 1))
    else if s[i] == '"' then Some(StringEnd(s, i + 1, false))
    else if s[i] == '\'' then CharEnd(s, i)
    else None
  }

  // --- Masking ------------------------------------------------------------------------------

  function BlankChar(c: char): char {
    if c == '\r' || c == '\n' then c else ' '
  }

  function Blanked(s: string): (r: string)
    ensures |r| == |s| && forall k :: 0 <= k < |s| ==> r[k] == BlankChar(s[k])
  {
    seq(|s|, k requires 0 <= k < |s| => BlankChar(s[k]))
  }

  /** The masked text from cursor `i` on. */
  function MaskFrom(s: string, i: nat, alnum: AlnumTest): (r: string)
    requires i <= |s|
    ensures |r| == |s| - i
    decreases |s| - i
  {
    if i >= |s| then ""
    else match TokenEnd(s, i, alnum)
      case Some(e) => Blanked(s[i..e]) + MaskFrom(s, e, alnum)
      case None => [s[i]] + MaskFrom(s, i + 1, alnum)
  }

  function Mask(s: string, alnum: AlnumTest): string {
    MaskFrom(s, 0, alnum)
  }

  method Blank(out: array<char>, start: nat, end: nat)
    requires start <= end <= out.Length
    modifies out
    ensures out[..] == old(out[..start]) + Blanked(old(out[start..end])) + old(out[end..])
  {
    for k := start to end
      invariant forall j :: start <= j < k ==> out[j] == BlankChar(old(out[j]))
      invariant forall j :: 0 <= j < out.Length && !(start <= j < k) ==> out[j] == old(out[j])
    {
      if out[k] != '\r' && out[k] != '\n' { out[k] := ' '; }
    }
  }

  method RawStringEnd(s: string, start: nat, alnum: AlnumTest) returns (r: Option<nat>)
    requires start < |s|
    ensures r == RawEnd(s, start, alnum)
  {
    hide Find, StartsAt;
    var prefix := 0;
    if StartsAt(s, "br", start) { prefix := 2; } else if StartsAt(s, "r", start) { prefix := 1; } else { return None; }
    if start > 0 && (alnum(s[start - 1]) || s[start - 1] == '_') { return None; }
    assert prefix == RawPrefix(s, start);
    RawPrefixRoom(s, start);
    var cursor, hashes := start + prefix, 0;
    while cursor < |s| && s[cursor] == '#'
      invariant cursor == start + prefix + hashes <= |s|
      invariant HashRun(s, start + prefix) == hashes + HashRun(s, cursor)
      decreases |s| - cursor
    {
      hashes := hashes + 1;
      cursor := cursor + 1;
    }
    if cursor >= |s| || s[cursor] != '"' { return None; }
    var terminator := "\"" + Hashes(hashes);
    var end := Find(s, terminator, cursor + 1);
    return if end.Some? then Some(end.value + |terminator|) else Some(|s|);
  }

  method MaskRustCommentsAndLiterals(source: string, alnum: AlnumTest) returns (masked: string)
    ensures masked == Mask(source, alnum)
  {
    hide RawEnd, LineEnd, StartsAt, Blanked, BlockEnd, StringEnd;
    var length := |source|;
    var out := new char[length](i requires 0 <= i < length => source[i]);
    var cursor := 0;
    assert out[..] == source;
    while cursor < length
      invariant 0 <= cursor <= length && out.Length == length
      invariant out[cursor..] == source[cursor..]
      invariant Mask(source, alnum) == out[..cursor] + MaskFrom(source, cursor, alnum)
      decreases length - cursor
    {
      ghost var start, before := cursor, out[..];
      var raw := RawStringEnd(source, cursor, alnum);
      var end: nat;
      if raw.Some? {
        end := raw.value;
      } else if StartsAt(source, "//", cursor) {
        LineCommentRoom(source, cursor);
        end := LineEnd(source, cursor);
      } else if StartsAt(source, "/*", cursor) {
        BlockCommentRoom(source, cursor);
        end := BlockCommentEnd(source, cursor);
      } else if source[cursor] == '"' {
        end := StringLiteralEnd(source, cursor);
      } else if source[cursor] == '\'' && CharEnd(source, cursor).Some? {
        end := CharEnd(source, cursor).value;
      } else {
        assert MaskFrom(source, cursor, alnum) == [source[cursor]] + MaskFrom(source, cursor + 1, alnum);
        StepKept(source, before, cursor, alnum);
        cursor := cursor + 1;
        continue;
      }
      assert TokenEnd(source, cursor, alnum) == Some(end);
      Blank(out, cursor, end);
      StepBlanked(source, before, out[..], cursor, end, alnum);
      cursor := end;
    }
    assert out[..] == out[..cursor];
    return out[..];
  }

  lemma RawPrefixRoom(s: string, i: nat)
    requires RawPrefix(s, i) > 0
    ensures i + RawPrefix(s, i) <= |s|
  {
  }

  lemma LineCommentRoom(s: string, i: nat)
    requires StartsAt(s, "//", i)
    ensures i + 2 <= |s|
  {
  }

  lemma BlockCommentRoom(s: string, i: nat)
    requires StartsAt(s, "/*", i)
    ensures i + 2 <= |s|
  {
  }

  lemma StepKept(s: string, out: string, cursor: nat, alnum: AlnumTest)
    requires |out| == |s| && cursor < |s| && out[cursor..] == s[cursor..]
    ensures out[cursor + 1..] == s[cursor + 1..]
    ensures out[..cursor] + ([s[cursor]] + MaskFrom(s, cursor + 1, alnum)) ==
        out[..cursor + 1] + MaskFrom(s, cursor + 1, alnum)
  {
    hide MaskFrom;
    assert out[cursor..][1..] == out[cursor + 1..] && s[cursor..][1..] == s[cursor + 1..];
    assert out[cursor] == out[cursor..][0] == s[cursor..][0];
  }

  lemma StepBlanked(s: string, before: string, after: string, cursor: nat, end: nat, alnum: AlnumTest)
    requires |before| == |s| && cursor < end <= |s| && before[cursor..] == s[cursor..]
    requires after == before[..cursor] + Blanked(before[cursor..end]) + before[end..]
    ensures after[end..] == s[end..]
    ensures before[..cursor] + (Blanked(s[cursor..end]) + MaskFrom(s, end, alnum)) ==
        after[..end] + MaskFrom(s, end, alnum)
  {
    hide MaskFrom, Blanked;
    SameWindow(before, s, cursor, end);
    JoinParts(before[..cursor], Blanked(s[cursor..end]), s[end..], MaskFrom(s, end, alnum));
  }

  lemma SameWindow(a: string, b: string, lo: nat, hi: nat)
    requires |a| == |b| && lo <= hi <= |a| && a[lo..] == b[lo..]
    ensures a[lo..hi] == b[lo..hi] && a[hi..] == b[hi..]
  {
    assert a[lo..][..hi - lo] == a[lo..hi] && b[lo..][..hi - lo] == b[lo..hi];
    assert a[lo..][hi - lo..] == a[hi..] && b[lo..][hi - lo..] == b[hi..];
  }

  lemma JoinParts(a: string, b: string, c: string, d: string)
    ensures (a + b + c)[|a| + |b|..] == c && (a + b + c)[..|a| + |b|] == a + b && a + (b + d) == a + b + d
  {
  }

  method BlockCommentEnd(s: string, start: nat) returns (end: nat)
    requires start + 2 <= |s|
    ensures end == BlockEnd(s, start + 2, 1)
  {
    hide StartsAt;
    var depth: nat := 1;
    end := start + 2;
    while end < |s| && depth > 0
      invariant start + 2 <= end <= |s| && BlockEnd(s, start + 2, 1) == BlockEnd(s, end, depth)
      decreases |s| - end
    {
      if StartsAt(s, "/*", end) {
        BlockCommentRoom(s, end);
        depth, end := depth + 1, end + 2;
      } else if StartsAt(s, "*/", end) {
        CloseRoom(s, end);
        depth, end := depth - 1, end + 2;
      } else {
        end := end + 1;
      }
    }
  }

  lemma CloseRoom(s: string, i: nat)
    requires StartsAt(s, "*/", i)
    ensures i + 2 <= |s|
  {
  }

  method StringLiteralEnd(s: string, start: nat) returns (end: nat)
    requires start < |s|
    ensures end == StringEnd(s, start + 1, false)
  {
    end := start + 1;
    var escaped := false;
    while end < |s|
      invariant start + 1 <= end <= |s| && StringEnd(s, start + 1, false) == StringEnd(s, end, escaped)
      decreases |s| - end
    {
      if escaped {
        escaped := false;
      } else if s[end] == '\\' {
        escaped := true;
      } else if s[end] == '"' {
        end := end + 1;
        return;
      }
      end := end + 1;
    }
  }

  // --- What masking guarantees ------------------------------------------------------------------

  /** The cursor, started at `i`, stops at `p`. */
  ghost predicate Visits(s: string, i: nat, p: nat, alnum: AlnumTest)
    decreases |s| - i
  {
    i == p || (i < |s| && (match TokenEnd(s, i, alnum)
                           case Some(e) => Visits(s, e, p, alnum)
                           case None => Visits(s, i + 1, p, alnum)))
  }

  /** Every position was either blanked, or visited where no token starts and kept. */
  lemma {:induction false} KeptOrBlanked(s: string, i: nat, p: nat, alnum: AlnumTest)
    requires i <= p < |s|
    ensures var c := MaskFrom(s, i, alnum)[p - i];
            || (c == s[p] && Visits(s, i, p, alnum) && TokenEnd(s, p, alnum).None?)
            || c == BlankChar(s[p])
    ensures Visits(s, i, p, alnum) ==>
              MaskFrom(s, i, alnum)[p - i] == if TokenEnd(s, p, alnum).None? then s[p] else BlankChar(s[p])
    decreases |s| - i
  {
    hide TokenEnd, Blanked;
    var r := MaskFrom(s, i, alnum);
    match TokenEnd(s, i, alnum) {
      case Some(e) =>
        var rest := MaskFrom(s, e, alnum);
        assert r == Blanked(s[i..e]) + rest;
        if p >= e {
          assert r[p - i] == rest[p - e];
          KeptOrBlanked(s, e, p, alnum);
        } else {
          assert r[p - i] == BlankChar(s[i..e][p - i]);
          VisitsForward(s, e, p, alnum);
        }
      case None =>
        if p > i {
          assert r[p - i] == MaskFrom(s, i + 1, alnum)[p - (i + 1)];
          KeptOrBlanked(s, i + 1, p, alnum);
        }
    }
  }

  lemma {:induction false} VisitsForward(s: string, i: nat, p: nat, alnum: AlnumTest)
    requires p < i
    ensures !Visits(s, i, p, alnum)
    decreases |s| - i
  {
    hide TokenEnd;
    if i < |s| {
      var e := TokenEnd(s, i, alnum);
      VisitsForward(s, if e.Some? then e.value else i + 1, p, alnum);
    }
  }

  /** After a kept position the very next one is visited. */
  lemma {:induction false} NextVisited(s: string, i: nat, p: nat, alnum: AlnumTest)
    requires p < |s| && Visits(s, i, p, alnum) && TokenEnd(s, p, alnum).None?
    ensures Visits(s, i, p + 1, alnum)
    decreases |s| - i
  {
    hide TokenEnd;
    if i < |s| && i != p {
      var e := TokenEnd(s, i, alnum);
      NextVisited(s, if e.Some? then e.value else i + 1, p, alnum);
    }
  }

  /** Masking keeps the length and every line break; any other character stays or becomes a space. */
  lemma MaskPreservesPositions(s: string, alnum: AlnumTest)
    ensures |Mask(s, alnum)| == |s|
    ensures forall p :: 0 <= p < |s| ==>
              var c := Mask(s, alnum)[p];
              (c == s[p] || c == ' ') && (s[p] == '\n' <==> c == '\n') && (s[p] == '\r' <==> c == '\r')
  {
    hide MaskFrom, Visits, TokenEnd;
    forall p | 0 <= p < |s| ensures Mask(s, alnum)[p] == s[p] || Mask(s, alnum)[p] == BlankChar(s[p]) {
      KeptOrBlanked(s, 0, p, alnum);
    }
  }

  /** A character that is not blank space survives only where no token starts. */
  lemma SurvivorIsPlain(s: string, p: nat, alnum: AlnumTest)
    requires p < |s| && Mask(s, alnum)[p] !in {' ', '\r', '\n'}
    ensures Mask(s, alnum)[p] == s[p] && Visits(s, 0, p, alnum) && TokenEnd(s, p, alnum).None?
  {
    hide MaskFrom, Visits, TokenEnd;
    KeptOrBlanked(s, 0, p, alnum);
  }

  lemma NoQuoteSurvives(s: string, p: nat, alnum: AlnumTest)
    requires p < |s|
    ensures Mask(s, alnum)[p] != '"'
  {
    hide MaskFrom, Visits;
    if Mask(s, alnum)[p] == '"' {
      SurvivorIsPlain(s, p, alnum);
      assert false;
    }
  }

  lemma PairAt(s: string, pat: string, i: nat)
    requires |pat| == 2
    ensures StartsAt(s, pat, i) <==> i + 2 <= |s| && s[i] == pat[0] && s[i + 1] == pat[1]
  {
    if i + 2 <= |s| { assert s[i..i + 2] == [s[i], s[i + 1]] && pat == [pat[0], pat[1]]; }
  }

  lemma NoCommentSurvives(s: string, i: nat, alnum: AlnumTest)
    requires i < |s|
    ensures !StartsAt(Mask(s, alnum), "//", i) && !StartsAt(Mask(s, alnum), "/*", i)
  {
    hide MaskFrom, Visits, TokenEnd;
    var r := Mask(s, alnum);
    assert |r| == |s|;
    PairAt(r, "//", i);
    PairAt(r, "/*", i);
    if StartsAt(r, "//", i) || StartsAt(r, "/*", i) {
      SurvivorIsPlain(s, i, alnum);
      SurvivorIsPlain(s, i + 1, alnum);
      PairAt(s, "//", i);
      PairAt(s, "/*", i);
      CommentIsToken(s, i, alnum);
      assert false;
    }
  }

  lemma CommentIsToken(s: string, i: nat, alnum: AlnumTest)
    requires i < |s| && (StartsAt(s, "//", i) || StartsAt(s, "/*", i))
    ensures TokenEnd(s, i, alnum).Some?
  {
    hide RawEnd, LineEnd, BlockEnd;
  }

  lemma CharIsToken(s: string, i: nat, alnum: AlnumTest)
    requires i < |s| && s[i] == '\'' && CharEnd(s, i).Some?
    ensures TokenEnd(s, i, alnum).Some?
  {
    hide RawEnd, LineEnd, BlockEnd, StringEnd, StartsAt;
  }

  lemma BackslashIsNoToken(s: string, i: nat, alnum: AlnumTest)
    requires i < |s| && s[i] == '\\'
    ensures TokenEnd(s, i, alnum).None?
  {
    hide LineEnd, BlockEnd, StringEnd, Find;
    PairAt(s, "//", i);
    PairAt(s, "/*", i);
    PairAt(s, "br", i);
    assert !StartsAt(s, "r", i) by { assert s[i..i + 1] == [s[i]]; }
  }

  lemma NoCharSurvives(s: string, i: nat, alnum: AlnumTest)
    requires i < |s| && Mask(s, alnum)[i] == '\''
    ensures CharEnd(Mask(s, alnum), i).None?
  {
    hide MaskFrom, Visits, TokenEnd;
    var r := Mask(s, alnum);
    assert |r| == |s|;
    if CharEnd(r, i).Some? {
      SurvivorIsPlain(s, i, alnum);
      var close := if i + 1 < |r| && r[i + 1] == '\\' then i + 3 else i + 2;
      SurvivorIsPlain(s, close, alnum);
      NextVisited(s, 0, i, alnum);
      KeptOrBlanked(s, 0, i + 1, alnum);
      if s[i + 1] == '\\' { BackslashIsNoToken(s, i + 1, alnum); }
      assert CharEnd(s, i).Some?;
      CharIsToken(s, i, alnum);
      assert false;
    }
  }

  /** Nothing can be lexed from masked text: no comment, string, raw string or character literal
      starts anywhere in it. */
  lemma NothingLexes(s: string, i: nat, alnum: AlnumTest)
    requires i < |s|
    ensures TokenEnd(Mask(s, alnum), i, alnum).None?
  {
    hide MaskFrom, StartsAt, CharEnd;
    var r := Mask(s, alnum);
    assert |r| == |s|;
    forall q | 0 <= q < |r| ensures r[q] != '"' { NoQuoteSurvives(s, q, alnum); }
    assert RawEnd(r, i, alnum).None?;
    NoCommentSurvives(s, i, alnum);
    if r[i] == '\'' { NoCharSurvives(s, i, alnum); }
  }

  lemma {:induction false} NoTokensNoChange(s: string, i: nat, alnum: AlnumTest)
    requires i <= |s| && forall k :: i <= k < |s| ==> TokenEnd(s, k, alnum).None?
    ensures MaskFrom(s, i, alnum) == s[i..]
    decreases |s| - i
  {
    hide TokenEnd;
    if i < |s| {
      NoTokensNoChange(s, i + 1, alnum);
      assert s[i..] == [s[i]] + s[i + 1..];
    }
  }

  /** Masking is idempotent. */
  lemma MaskIdempotent(s: string, alnum: AlnumTest)
    ensures Mask(Mask(s, alnum), alnum) == Mask(s, alnum)
  {
    hide MaskFrom, TokenEnd;
    var r := Mask(s, alnum);
    assert |r| == |s|;
    forall k | 0 <= k < |r| ensures TokenEnd(r, k, alnum).None? { NothingLexes(s, k, alnum); }
    NoTokensNoChange(r, 0, alnum);
  }

  // --- The scanners against the lexical grammar -----------------------------------------------------

  /** What a block comment may contain: characters and, recursively, whole comments. */
  datatype Item = Chr(c: char) | Nested(items: seq<Item>)

  function Render(items: seq<Item>): string {
    if items == [] then ""
    else (match items[0]
          case Chr(c) => [c]
          case Nested(inner) => "/*" + Render(inner) + "*/") + Render(items[1..])
  }

  /** No bare character begins a delimiter together with what follows it. */
  ghost predicate Lexical(items: seq<Item>, after: string) {
    if items == [] then true
    else
      var rest := Render(items[1..]) + after;
      && (match items[0]
          case Chr(c) => !StartsAt([c] + rest, "/*", 0) && !StartsAt([c] + rest, "*/", 0)
          case Nested(inner) => Lexical(inner, "*/" + rest))
      && Lexical(items[1..], after)
  }

  lemma DelimiterAt(s: string, end: nat, rest: string, pat: string)
    requires end <= |s| && s[end..] == rest && |pat| == 2
    ensures StartsAt(s, pat, end) <==> StartsAt(rest, pat, 0)
  {
    PairAt(s, pat, end);
    PairAt(rest, pat, 0);
    if end + 2 <= |s| { assert s[end] == rest[0] && s[end + 1] == rest[1]; }
  }

  /** Comment content of any nesting is consumed exactly, at the depth it was entered with. */
  lemma {:induction false} ItemsConsumed(s: string, end: nat, depth: nat, items: seq<Item>, after: string)
    requires depth >= 1 && end <= |s| && s[end..] == Render(items) + after && Lexical(items, after)
    ensures end + |Render(items)| <= |s| && BlockEnd(s, end, depth) == BlockEnd(s, end + |Render(items)|, depth)
    decreases items, 0
  {
    hide StartsAt, BlockEnd, Render, Lexical;
    if items == [] {
      EmptyItems();
    } else {
      match items[0] {
        case Chr(c) =>
          CharConsumed(s, end, depth, items, after);
          ItemsConsumed(s, end + 1, depth, items[1..], after);
        case Nested(inner) =>
          NestedHead(items, after);
          NestedConsumed(s, end, depth, inner, Render(items[1..]) + after);
          ItemsConsumed(s, end + 4 + |Render(inner)|, depth, items[1..], after);
      }
    }
  }

  lemma EmptyItems()
    ensures Render([]) == ""
  {
  }

  lemma CharConsumed(s: string, end: nat, depth: nat, items: seq<Item>, after: string)
    requires depth >= 1 && end <= |s| && s[end..] == Render(items) + after && Lexical(items, after)
    requires items != [] && items[0].Chr?
    ensures end < |s| && s[end + 1..] == Render(items[1..]) + after && Lexical(items[1..], after)
    ensures |Render(items)| == 1 + |Render(items[1..])| && BlockEnd(s, end, depth) == BlockEnd(s, end + 1, depth)
  {
    hide StartsAt, BlockEnd;
    var rest := Render(items[1..]) + after;
    var text := [items[0].c] + rest;
    assert s[end..] == text;
    DelimiterAt(s, end, text, "/*");
    DelimiterAt(s, end, text, "*/");
    CharStep(s, end, depth);
    assert s[end + 1..] == s[end..][1..];
  }

  lemma NestedHead(items: seq<Item>, after: string)
    requires items != [] && items[0].Nested? && Lexical(items, after)
    ensures var (inner, rest) := (items[0].items, Render(items[1..]) + after);
            && Render(items) + after == "/*" + Render(inner) + "*/" + rest
            && |Render(items)| == 4 + |Render(inner)| + |Render(items[1..])|
            && Lexical(inner, "*/" + rest) && Lexical(items[1..], after)
  {
    LexicalHead(items, after);
    RenderHead(items);
    hide Render, Lexical;
    Regroup("/*" + Render(items[0].items) + "*/", Render(items[1..]), after);
  }

  lemma LexicalHead(items: seq<Item>, after: string)
    requires items != [] && items[0].Nested? && Lexical(items, after)
    ensures Lexical(items[0].items, "*/" + (Render(items[1..]) + after)) && Lexical(items[1..], after)
  {
    hide Render;
  }

  lemma RenderHead(items: seq<Item>)
    requires items != [] && items[0].Nested?
    ensures Render(items) == "/*" + Render(items[0].items) + "*/" + Render(items[1..])
  {
  }

  lemma Regroup(a: string, b: string, c: string)
    ensures a + b + c == a + (b + c)
  {
  }

  lemma {:induction false} NestedConsumed(s: string, end: nat, depth: nat, inner: seq<Item>, rest: string)
    requires depth >= 1 && end <= |s| && s[end..] == "/*" + Render(inner) + "*/" + rest && Lexical(inner, "*/" + rest)
    ensures end + 4 + |Render(inner)| <= |s| && s[end + 4 + |Render(inner)|..] == rest
    ensures BlockEnd(s, end, depth) == BlockEnd(s, end + 4 + |Render(inner)|, depth)
    decreases inner, 1
  {
    hide StartsAt, BlockEnd, Render, Lexical;
    NestedSplit(s, end, Render(inner), rest);
    ItemsConsumed(s, end + 2, depth + 1, inner, "*/" + rest);
    CommentSteps(s, end, end + 2 + |Render(inner)|, depth);
  }

  lemma CharStep(s: string, end: nat, depth: nat)
    requires depth >= 1 && end < |s| && !StartsAt(s, "/*", end) && !StartsAt(s, "*/", end)
    ensures BlockEnd(s, end, depth) == BlockEnd(s, end + 1, depth)
  {
    hide StartsAt;
  }

  lemma CloseLast(s: string, end: nat)
    requires end + 2 <= |s| && StartsAt(s, "*/", end) && !StartsAt(s, "/*", end)
    ensures BlockEnd(s, end, 1) == end + 2
  {
    hide StartsAt;
  }

  /** One nested comment from its opening to its closing delimiter. */
  lemma CommentSteps(s: string, end: nat, e2: nat, depth: nat)
    requires depth >= 1 && end + 2 <= e2 && e2 + 2 <= |s|
    requires StartsAt(s, "/*", end) && StartsAt(s, "*/", e2) && !StartsAt(s, "/*", e2)
    requires BlockEnd(s, end + 2, depth + 1) == BlockEnd(s, e2, depth + 1)
    ensures BlockEnd(s, end, depth) == BlockEnd(s, e2 + 2, depth)
  {
    hide StartsAt;
  }

  lemma NestedSplit(s: string, end: nat, inner: string, rest: string)
    requires end <= |s| && s[end..] == "/*" + inner + "*/" + rest
    ensures end + 4 + |inner| <= |s| && StartsAt(s, "/*", end) && s[end + 2..] == inner + ("*/" + rest)
    ensures StartsAt(s, "*/", end + 2 + |inner|) && !StartsAt(s, "/*", end + 2 + |inner|)
    ensures s[end + 4 + |inner|..] == rest
  {
    var t := s[end..];
    var m := end + 2 + |inner|;
    assert s[end] == t[0] && s[end + 1] == t[1] && s[m] == t[2 + |inner|] && s[m + 1] == t[3 + |inner|];
    PairAt(s, "/*", end);
    PairAt(s, "/*", m);
    PairAt(s, "*/", m);
    assert s[end + 2..] == t[2..] && s[m + 2..] == t[4 + |inner|..];
  }

  // A complete block comment, however deeply nested, is one token ending after its closing delimiter.
  lemma NestedCommentIsOneToken(s: string, i: nat, items: seq<Item>, post: string)
    requires i <= |s| && s[i..] == "/*" + Render(items) + "*/" + post && Lexical(items, "*/" + post)
    ensures i + 4 + |Render(items)| <= |s| && BlockEnd(s, i + 2, 1) == i + 4 + |Render(items)|
  {
    hide StartsAt, Lexical, Render, BlockEnd;
    NestedSplit(s, i, Render(items), post);
    ItemsConsumed(s, i + 2, 1, items, "*/" + post);
    CloseLast(s, i + 2 + |Render(items)|);
  }

  /** String literal content: plain characters and escape pairs. */
  datatype Piece = Plain(c: char) | Escape(c: char)

  function RenderPieces(pieces: seq<Piece>): string {
    if pieces == [] then ""
    else (if pieces[0].Plain? then [pieces[0].c] else ['\\', pieces[0].c]) + RenderPieces(pieces[1..])
  }

  ghost predicate WellFormedPieces(pieces: seq<Piece>) {
    forall k :: 0 <= k < |pieces| && pieces[k].Plain? ==> pieces[k].c != '"' && pieces[k].c != '\\'
  }

  /** A string literal ends at its first unescaped quote. */
  lemma {:induction false} StringIsOneToken(s: string, end: nat, pieces: seq<Piece>, post: string)
    requires end <= |s| && s[end..] == RenderPieces(pieces) + "\"" + post && WellFormedPieces(pieces)
    ensures StringEnd(s, end, false) == end + |RenderPieces(pieces)| + 1
    decreases pieces
  {
    var t := s[end..];
    if pieces == [] {
      assert s[end] == t[0];
    } else {
      var n := if pieces[0].Plain? then 1 else 2;
      var rest := RenderPieces(pieces[1..]) + "\"" + post;
      assert t[n..] == rest && s[end + n..] == t[n..] && s[end] == t[0];
      StringIsOneToken(s, end + n, pieces[1..], post);
    }
  }

  lemma {:induction false} HashRunOf(s: string, i: nat, n: nat)
    requires i + n < |s| && s[i..i + n] == Hashes(n) && s[i + n] != '#'
    ensures HashRun(s, i) == n
    decreases n
  {
    if n > 0 {
      assert s[i] == s[i..i + n][0] && s[i + 1..i + 1 + (n - 1)] == s[i..i + n][1..];
      HashRunOf(s, i + 1, n - 1);
    }
  }

  function RawMarker(bytes: bool): string {
    if bytes then "br" else "r"
  }

  predicate IdentBefore(s: string, i: nat, alnum: AlnumTest) {
    0 < i <= |s| && (alnum(s[i - 1]) || s[i - 1] == '_')
  }

  /** A raw string ends at the first quote followed by as many hashes as it opened with, whatever
      quotes, backslashes and comment delimiters it contains. */
  lemma RawStringIsOneToken(s: string, i: nat, bytes: bool, n: nat, close: nat, alnum: AlnumTest)
    requires StartsAt(s, RawMarker(bytes) + Hashes(n) + "\"", i) && !IdentBefore(s, i, alnum)
    requires i + |RawMarker(bytes)| + n + 1 <= close && StartsAt(s, "\"" + Hashes(n), close)
    requires forall k :: i + |RawMarker(bytes)| + n + 1 <= k < close ==> !StartsAt(s, "\"" + Hashes(n), k)
    ensures RawEnd(s, i, alnum) == Some(close + 1 + n)
  {
    hide Find, HashRun, RawPrefix, StartsAt, Hashes;
    RawOpening(s, i, bytes, n);
    FindsFirst(s, "\"" + Hashes(n), i + |RawMarker(bytes)| + n + 1, close);
  }

  /** A raw string that is never closed reaches to the end of the file. */
  lemma UnclosedRawString(s: string, i: nat, bytes: bool, n: nat, alnum: AlnumTest)
    requires StartsAt(s, RawMarker(bytes) + Hashes(n) + "\"", i) && !IdentBefore(s, i, alnum)
    requires forall k :: i + |RawMarker(bytes)| + n + 1 <= k <= |s| ==> !StartsAt(s, "\"" + Hashes(n), k)
    ensures i < |s| && TokenEnd(s, i, alnum) == Some(|s|)
  {
    hide HashRun, RawPrefix, Hashes;
    assert i < |s|;
    RawOpening(s, i, bytes, n);
    hide StartsAt, Find;
    FoundInside(s, "\"" + Hashes(n), i + |RawMarker(bytes)| + n + 1);
  }

  lemma FoundInside(s: string, pat: string, from: nat)
    ensures var r := Find(s, pat, from); r.Some? ==> from <= r.value <= |s| && StartsAt(s, pat, r.value)
  {
  }

  /** So does a block comment that is never closed. */
  lemma {:induction false} UnclosedComment(s: string, end: nat, depth: nat)
    requires end <= |s| && depth > 0 && forall k :: end <= k <= |s| ==> !StartsAt(s, "*/", k)
    ensures BlockEnd(s, end, depth) == |s|
    decreases |s| - end
  {
    if end < |s| {
      if StartsAt(s, "/*", end) {
        UnclosedComment(s, end + 2, depth + 1);
      } else {
        UnclosedComment(s, end + 1, depth);
      }
    }
  }

  /** And a string literal without a closing quote. */
  lemma {:induction false} UnclosedString(s: string, i: nat, escaped: bool)
    requires i <= |s| && forall k :: i <= k < |s| ==> s[k] != '"'
    ensures StringEnd(s, i, escaped) == |s|
    decreases |s| - i
  {
    if i < |s| { UnclosedString(s, i + 1, !escaped && s[i] == '\\'); }
  }

  lemma FindsFirst(s: string, pat: string, from: nat, first: nat)
    requires from <= first && pat != "" && StartsAt(s, pat, first)
    requires forall k :: from <= k < first ==> !StartsAt(s, pat, k)
    ensures first < |s| && Find(s, pat, from) == Some(first)
  {
    hide Find;
    assert first < |s|;
  }

  lemma SliceOfSlice(s: string, i: nat, j: nat, a: nat, b: nat)
    requires i <= j <= |s| && a <= b <= j - i
    ensures s[i..j][a..b] == s[i + a..i + b]
  {
    var t := s[i..j];
    assert |t[a..b]| == |s[i + a..i + b]|;
    forall k | 0 <= k < b - a ensures t[a..b][k] == s[i + a..i + b][k] { assert t[a + k] == s[i + (a + k)]; }
  }

  lemma RawOpening(s: string, i: nat, bytes: bool, n: nat)
    requires StartsAt(s, RawMarker(bytes) + Hashes(n) + "\"", i)
    ensures RawPrefix(s, i) == |RawMarker(bytes)|
    ensures HashRun(s, i + |RawMarker(bytes)|) == n && s[i + |RawMarker(bytes)| + n] == '"'
  {
    var m := |RawMarker(bytes)|;
    var pat := s[i..i + m + n + 1];
    assert pat == RawMarker(bytes) + Hashes(n) + "\"";
    assert s[i] == pat[0] && s[i + 1] == pat[1] && s[i + m + n] == pat[m + n];
    PairAt(s, "br", i);
    assert s[i..i + 1] == [s[i]];
    assert pat[m..m + n] == Hashes(n);
    SliceOfSlice(s, i, i + m + n + 1, m, m + n);
    HashRunOf(s, i + m, n);
  }
}
