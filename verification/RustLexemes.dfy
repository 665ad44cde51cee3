/** The masker against the lexical structure of Rust source. Text that is a sequence of comments,
    literals and code characters is masked lexeme by lexeme, code kept and the rest blanked, if and
    only if it holds no character literal with a numeric escape. Such a literal is not recognised, and
    its closing quote can make the masker hide the code that follows. */
module RustLexemes {
  import opened Wrappers
  import opened RustMask

  datatype Lexeme =
    | Code(c: char)
    | LineComment(text: string)
    | BlockComment(items: seq<Item>)
    | StringLit(pieces: seq<Piece>)
    | RawString(bytes: bool, hashes: nat, text: string)
    | CharLit(c: char)
    | EscapedCharLit(c: char)
    | ByteEscapeLit(hi: char, lo: char)
    | UnicodeEscapeLit(digits: string)

  function Source(l: Lexeme): string {
    match l
    case Code(c) => [c]
    case LineComment(text) => "//" + text
    case BlockComment(items) => "/*" + Render(items) + "*/"
    case StringLit(pieces) => "\"" + RenderPieces(pieces) + "\""
    case RawString(bytes, n, text) => RawMarker(bytes) + Hashes(n) + "\"" + text + "\"" + Hashes(n)
    case CharLit(c) => ['\'', c, '\'']
    case EscapedCharLit(c) => ['\'', '\\', c, '\'']
    case ByteEscapeLit(hi, lo) => ['\'', '\\', 'x', hi, lo, '\'']
    case UnicodeEscapeLit(digits) => "'\\u{" + digits + "}'"
  }

  /** A character literal written with a `\x` or `\u` escape. */
  predicate NumericEscape(l: Lexeme) {
    l.ByteEscapeLit? || l.UnicodeEscapeLit?
  }

  predicate IsHex(c: char) {
    '0' <= c <= '9' || 'a' <= c <= 'f' || 'A' <= c <= 'F'
  }

  /** A raw string opens at `i`. */
  ghost predicate RawOpens(s: string, i: nat, alnum: AlnumTest) {
    !IdentBefore(s, i, alnum) && exists bytes: bool, n: nat :: StartsAt(s, RawMarker(bytes) + Hashes(n) + "\"", i)
  }

  /** One character, or a backslash and a character, between single quotes. */
  predicate CharShape(s: string, i: nat) {
    || (i + 2 < |s| && s[i + 1] != '\\' && s[i + 2] == '\'')
    || (i + 3 < |s| && s[i + 1] == '\\' && s[i + 3] == '\'')
  }

  /** A raw C string opens at `i`. */
  ghost predicate RawCOpens(s: string, i: nat, alnum: AlnumTest) {
    !IdentBefore(s, i, alnum) && exists n: nat :: StartsAt(s, "cr" + Hashes(n) + "\"", i)
  }

  /** A single quote is code only as the start of a lifetime or label, so never before a backslash and
      never around one character. */
  predicate LifetimeQuote(s: string, i: nat) {
    !CharShape(s, i) && !(i + 1 < |s| && s[i + 1] == '\\')
  }

  /** What Rust asks of a lexeme at `i`, given the text around it. Raw C strings are not lexemes here,
      and no text that has one is lexed. */
  ghost predicate LexemeOk(s: string, i: nat, l: Lexeme, alnum: AlnumTest) {
    match l
    case Code(c) =>
      && c != '"' && !StartsAt(s, "//", i) && !StartsAt(s, "/*", i)
      && (c == '\'' ==> LifetimeQuote(s, i)) && !RawOpens(s, i, alnum) && !RawCOpens(s, i, alnum)
    case LineComment(text) =>
      var e := i + |Source(l)|;
      (forall k :: 0 <= k < |text| ==> text[k] != '\n') && (e < |s| ==> s[e] == '\n')
    case BlockComment(items) =>
      var e := i + |Source(l)|;
      e <= |s| && Lexical(items, "*/" + s[e..])
    case StringLit(pieces) => WellFormedPieces(pieces)
    case RawString(bytes, n, text) =>
      && !IdentBefore(s, i, alnum)
      && (forall k :: 0 <= k < |text| ==> !StartsAt(text + "\"" + Hashes(n), "\"" + Hashes(n), k))
    case CharLit(c) => c != '\\'
    case EscapedCharLit(_) => true
    case ByteEscapeLit(hi, lo) => IsHex(hi) && IsHex(lo)
    case UnicodeEscapeLit(digits) =>
      digits != "" && forall k :: 0 <= k < |digits| ==> IsHex(digits[k]) || digits[k] == '_'
  }

  /** The text from `i` on is this sequence of lexemes. */
  ghost predicate Lexes(s: string, i: nat, lexemes: seq<Lexeme>, alnum: AlnumTest)
    decreases lexemes
  {
    if lexemes == [] then i == |s|
    else
      var e := i + |Source(lexemes[0])|;
      e <= |s| && s[i..e] == Source(lexemes[0]) && LexemeOk(s, i, lexemes[0], alnum) && Lexes(s, e, lexemes[1..], alnum)
  }

  function MaskedOne(l: Lexeme): string {
    if l.Code? then Source(l) else Blanked(Source(l))
  }

  function Masked(lexemes: seq<Lexeme>): string {
    if lexemes == [] then ""
    else MaskedOne(lexemes[0]) + Masked(lexemes[1..])
  }

  // --- Each lexeme is one token ------------------------------------------------------------------------

  lemma SourceAt(s: string, i: nat, l: Lexeme, k: nat)
    requires i + |Source(l)| <= |s| && s[i..i + |Source(l)|] == Source(l) && k < |Source(l)|
    ensures s[i + k] == Source(l)[k]
  {
    assert s[i..i + |Source(l)|][k] == s[i + k];
  }

  lemma SplitAt(s: string, i: nat, t: string)
    requires i + |t| <= |s| && s[i..i + |t|] == t
    ensures s[i..] == t + s[i + |t|..]
  {
    assert s[i..] == s[i..i + |t|] + s[i + |t|..];
  }

  lemma NoRaw(s: string, i: nat, alnum: AlnumTest)
    requires i < |s| && s[i] != 'r' && s[i] != 'b'
    ensures RawEnd(s, i, alnum).None?
  {
    PairAt(s, "br", i);
    assert i + 1 <= |s| ==> s[i..i + 1] == [s[i]];
  }

  lemma LineCommentToken(s: string, i: nat, text: string, alnum: AlnumTest)
    requires i + 2 + |text| <= |s| && s[i..i + 2 + |text|] == "//" + text && LexemeOk(s, i, LineComment(text), alnum)
    ensures TokenEnd(s, i, alnum) == Some(i + 2 + |text|)
  {
    var t := "//" + text;
    assert s[i] == s[i..i + |t|][0] == '/' && s[i + 1] == s[i..i + |t|][1] == '/';
    NoRaw(s, i, alnum);
    PairAt(s, "//", i);
    var e := LineEnd(s, i);
    forall k | i + 2 <= k < i + |t|
      ensures s[k] != '\n'
    {
      assert s[i..i + |t|][k - i] == s[k] && t[k - i] == text[k - i - 2];
    }
  }

  lemma BlockCommentToken(s: string, i: nat, items: seq<Item>, alnum: AlnumTest)
    requires var src := "/*" + Render(items) + "*/"; i + |src| <= |s| && s[i..i + |src|] == src
    requires LexemeOk(s, i, BlockComment(items), alnum)
    ensures TokenEnd(s, i, alnum) == Some(i + |Source(BlockComment(items))|)
  {
    hide Render, Lexical, BlockEnd;
    var src := "/*" + Render(items) + "*/";
    assert s[i] == s[i..i + |src|][0] == '/' && s[i + 1] == s[i..i + |src|][1] == '*';
    NoRaw(s, i, alnum);
    PairAt(s, "//", i);
    PairAt(s, "/*", i);
    SplitAt(s, i, src);
    NestedCommentIsOneToken(s, i, items, s[i + |src|..]);
  }

  lemma StringToken(s: string, i: nat, pieces: seq<Piece>, alnum: AlnumTest)
    requires var src := Source(StringLit(pieces)); i + |src| <= |s| && s[i..i + |src|] == src
    requires WellFormedPieces(pieces)
    ensures TokenEnd(s, i, alnum) == Some(i + |Source(StringLit(pieces))|)
  {
    hide RenderPieces, StringEnd, WellFormedPieces;
    var src := Source(StringLit(pieces));
    assert s[i] == s[i..i + |src|][0] == '"';
    NoRaw(s, i, alnum);
    PairAt(s, "//", i);
    PairAt(s, "/*", i);
    SplitAt(s, i, src);
    var post := s[i + |src|..];
    assert s[i + 1..] == s[i..][1..] && (src + post)[1..] == RenderPieces(pieces) + "\"" + post;
    StringIsOneToken(s, i + 1, pieces, post);
  }

  lemma CharToken(s: string, i: nat, l: Lexeme, alnum: AlnumTest)
    requires l.CharLit? || l.EscapedCharLit?
    requires i + |Source(l)| <= |s| && s[i..i + |Source(l)|] == Source(l) && LexemeOk(s, i, l, alnum)
    ensures TokenEnd(s, i, alnum) == Some(i + |Source(l)|)
  {
    SourceAt(s, i, l, 0);
    SourceAt(s, i, l, 1);
    SourceAt(s, i, l, |Source(l)| - 1);
    NoRaw(s, i, alnum);
    PairAt(s, "//", i);
    PairAt(s, "/*", i);
  }

  /** A pattern inside a slice is the pattern in the whole text. */
  lemma InSlice(s: string, lo: nat, t: string, pat: string, k: nat)
    requires lo + |t| <= |s| && s[lo..lo + |t|] == t && k + |pat| <= |t|
    ensures StartsAt(s, pat, lo + k) <==> StartsAt(t, pat, k)
  {
    SliceOfSlice(s, lo, lo + |t|, k, k + |pat|);
  }

  function RawOpen(l: Lexeme): string
    requires l.RawString?
  {
    RawMarker(l.bytes) + Hashes(l.hashes) + "\""
  }

  /** The text and its closing delimiter. */
  function RawBody(l: Lexeme): string
    requires l.RawString?
  {
    l.text + "\"" + Hashes(l.hashes)
  }

  lemma RawParts(l: Lexeme)
    requires l.RawString?
    ensures Source(l) == RawOpen(l) + RawBody(l) && |RawOpen(l)| == |RawMarker(l.bytes)| + l.hashes + 1
    ensures |RawBody(l)| == |l.text| + 1 + l.hashes && RawBody(l)[|l.text|..] == "\"" + Hashes(l.hashes)
  {
    hide Hashes;
  }

  lemma TwoParts(s: string, i: nat, a: string, b: string)
    requires i + |a + b| <= |s| && s[i..i + |a + b|] == a + b
    ensures s[i..i + |a|] == a && s[i + |a|..i + |a| + |b|] == b
  {
    SliceOfSlice(s, i, i + |a + b|, 0, |a|);
    SliceOfSlice(s, i, i + |a + b|, |a|, |a + b|);
  }

  lemma RawStringToken(s: string, i: nat, l: Lexeme, alnum: AlnumTest)
    requires l.RawString? && i + |Source(l)| <= |s| && s[i..i + |Source(l)|] == Source(l) && LexemeOk(s, i, l, alnum)
    ensures TokenEnd(s, i, alnum) == Some(i + |Source(l)|)
  {
    hide StartsAt, Hashes, RawMarker, Source, RawEnd;
    RawParts(l);
    TwoParts(s, i, RawOpen(l), RawBody(l));
    var lo := i + |RawOpen(l)|;
    RawCloses(s, lo, l);
    OpensHere(s, i, RawOpen(l));
    hide LexemeOk, RawBody;
    RawStringIsOneToken(s, i, l.bytes, l.hashes, lo + |l.text|, alnum);
  }

  lemma OpensHere(s: string, i: nat, pat: string)
    requires i + |pat| <= |s| && s[i..i + |pat|] == pat
    ensures StartsAt(s, pat, i)
  {
  }

  lemma RawCloses(s: string, lo: nat, l: Lexeme)
    requires l.RawString? && lo + |RawBody(l)| <= |s| && s[lo..lo + |RawBody(l)|] == RawBody(l)
    requires forall k :: 0 <= k < |l.text| ==> !StartsAt(RawBody(l), "\"" + Hashes(l.hashes), k)
    ensures forall k :: lo <= k < lo + |l.text| ==> !StartsAt(s, "\"" + Hashes(l.hashes), k)
    ensures StartsAt(s, "\"" + Hashes(l.hashes), lo + |l.text|)
  {
    RawParts(l);
    var (body, close) := (RawBody(l), "\"" + Hashes(l.hashes));
    OpensHere(body, |l.text|, close);
    hide StartsAt, RawBody, Hashes;
    forall k | lo <= k < lo + |l.text|
      ensures !StartsAt(s, close, k)
    {
      InSlice(s, lo, body, close, k - lo);
    }
    InSlice(s, lo, body, close, |l.text|);
  }

  lemma {:induction false} HashesHere(s: string, i: nat)
    requires i <= |s|
    ensures i + HashRun(s, i) <= |s| && s[i..i + HashRun(s, i)] == Hashes(HashRun(s, i))
    decreases |s| - i
  {
    if i < |s| && s[i] == '#' {
      HashesHere(s, i + 1);
      var n := HashRun(s, i);
      assert s[i..i + n] == [s[i]] + s[i + 1..i + n];
    } else {
      assert s[i..i] == "";
    }
  }

  /** The raw-string scanner answers only where a raw string opens. */
  lemma RawEndOpens(s: string, i: nat, alnum: AlnumTest)
    requires i < |s| && RawEnd(s, i, alnum).Some?
    ensures RawOpens(s, i, alnum)
  {
    var bytes := StartsAt(s, "br", i);
    var m := RawPrefix(s, i);
    var n := HashRun(s, i + m);
    assert i + m <= |s| && m == |RawMarker(bytes)| && s[i..i + m] == RawMarker(bytes) && !IdentBefore(s, i, alnum);
    assert i + m + n < |s| && s[i + m + n] == '"';
    hide RawEnd, RawPrefix, IdentBefore, RawMarker;
    HashesHere(s, i + m);
    hide HashRun;
    Joined(s, i, RawMarker(bytes), Hashes(n), '"');
  }

  lemma Joined(s: string, i: nat, a: string, b: string, c: char)
    requires i + |a| + |b| < |s| && s[i..i + |a|] == a && s[i + |a|..i + |a| + |b|] == b && s[i + |a| + |b|] == c
    ensures StartsAt(s, a + b + [c], i)
  {
    var e := i + |a| + |b|;
    assert s[i..e + 1] == s[i..i + |a|] + s[i + |a|..e] + [s[e]];
  }

  lemma CodeIsNoToken(s: string, i: nat, c: char, alnum: AlnumTest)
    requires i < |s| && s[i] == c && LexemeOk(s, i, Code(c), alnum)
    ensures TokenEnd(s, i, alnum).None?
  {
    hide StartsAt, RawEnd, RawOpens;
    if RawEnd(s, i, alnum).Some? { RawEndOpens(s, i, alnum); }
  }

  lemma EscapeIsNoToken(s: string, i: nat, l: Lexeme, alnum: AlnumTest)
    requires NumericEscape(l) && i + |Source(l)| <= |s| && s[i..i + |Source(l)|] == Source(l) &&
        LexemeOk(s, i, l, alnum)
    ensures s[i] == '\'' && TokenEnd(s, i, alnum).None?
  {
    SourceAt(s, i, l, 0);
    SourceAt(s, i, l, 1);
    SourceAt(s, i, l, 3);
    NoRaw(s, i, alnum);
    PairAt(s, "//", i);
    PairAt(s, "/*", i);
  }

  /** Every comment or literal is exactly one token, except that a numeric escape is none, and no token
      starts on a code character. */
  lemma LexemeIsOneToken(s: string, i: nat, l: Lexeme, alnum: AlnumTest)
    requires i + |Source(l)| <= |s| && s[i..i + |Source(l)|] == Source(l) && LexemeOk(s, i, l, alnum) && i < |s|
    ensures TokenEnd(s, i, alnum) == if l.Code? || NumericEscape(l) then None else Some(i + |Source(l)|)
  {
    hide TokenEnd, Lexical, Render, RenderPieces, Hashes, RawOpens, RawCOpens;
    match l {
      case Code(c) => SourceAt(s, i, l, 0); CodeIsNoToken(s, i, c, alnum);
      case LineComment(text) => LineCommentToken(s, i, text, alnum);
      case BlockComment(items) => BlockCommentToken(s, i, items, alnum);
      case StringLit(pieces) => StringToken(s, i, pieces, alnum);
      case RawString(_, _, _) => RawStringToken(s, i, l, alnum);
      case CharLit(_) => CharToken(s, i, l, alnum);
      case EscapedCharLit(_) => CharToken(s, i, l, alnum);
      case _ => EscapeIsNoToken(s, i, l, alnum);
    }
  }

  lemma SourceShape(l: Lexeme)
    ensures |Source(l)| > 0 && (l.Code? ==> |Source(l)| == 1)
  {
  }

  predicate NoNumericEscape(lexemes: seq<Lexeme>) {
    forall k :: 0 <= k < |lexemes| ==> !NumericEscape(lexemes[k])
  }

  /** From any point of a lexed text. */
  lemma {:induction false} MaskFromLexemes(s: string, i: nat, lexemes: seq<Lexeme>, alnum: AlnumTest)
    requires i <= |s| && Lexes(s, i, lexemes, alnum)
    ensures MaskFrom(s, i, alnum) == Masked(lexemes) <==> NoNumericEscape(lexemes)
    decreases lexemes
  {
    hide MaskFrom, LexemeOk, Source, NumericEscape, NoNumericEscape, Masked, MaskedOne;
    if lexemes == [] {
      MaskAtEnd(s, alnum);
      NoLexemes();
    } else {
      var (l, rest) := (lexemes[0], lexemes[1..]);
      var e := i + |Source(l)|;
      SourceShape(l);
      MaskedHead(lexemes);
      MaskFromLexemes(s, e, rest, alnum);
      if NumericEscape(l) {
        QuoteSurvives(s, i, l, Masked(rest), alnum);
        HasEscape(lexemes);
      } else {
        LexemeMasked(s, i, l, alnum);
        SameTail(MaskedOne(l), MaskFrom(s, e, alnum), Masked(rest));
        HeadAndRest(lexemes);
      }
    }
  }

  lemma NoLexemes()
    ensures Masked([]) == "" && NoNumericEscape([])
  {
  }

  lemma MaskedHead(lexemes: seq<Lexeme>)
    requires lexemes != []
    ensures Masked(lexemes) == MaskedOne(lexemes[0]) + Masked(lexemes[1..])
  {
  }

  lemma HasEscape(lexemes: seq<Lexeme>)
    requires lexemes != [] && NumericEscape(lexemes[0])
    ensures !NoNumericEscape(lexemes)
  {
  }

  lemma LexemeMasked(s: string, i: nat, l: Lexeme, alnum: AlnumTest)
    requires !NumericEscape(l) && i < |s| && i + |Source(l)| <= |s| && s[i..i + |Source(l)|] == Source(l) &&
        LexemeOk(s, i, l, alnum)
    ensures MaskFrom(s, i, alnum) == MaskedOne(l) + MaskFrom(s, i + |Source(l)|, alnum)
  {
    hide MaskFrom, TokenEnd, LexemeOk, Source, Blanked, NumericEscape;
    LexemeIsOneToken(s, i, l, alnum);
    MaskStep(s, i, alnum);
    SourceShape(l);
    if l.Code? { assert s[i..i + 1] == [s[i]]; }
  }

  lemma HeadAndRest(lexemes: seq<Lexeme>)
    requires lexemes != [] && !NumericEscape(lexemes[0])
    ensures NoNumericEscape(lexemes) <==> NoNumericEscape(lexemes[1..])
  {
    hide NumericEscape;
    assert forall k :: 0 < k < |lexemes| ==> lexemes[k] == lexemes[1..][k - 1];
  }

  lemma SameTail(a: string, b: string, c: string)
    ensures a + b == a + c <==> b == c
  {
    assert (a + b)[|a|..] == b && (a + c)[|a|..] == c;
  }

  /** The opening quote of a numeric escape stays where blanking would leave a space. */
  lemma QuoteSurvives(s: string, i: nat, l: Lexeme, rest: string, alnum: AlnumTest)
    requires NumericEscape(l) && i < |s| && i + |Source(l)| <= |s| && s[i..i + |Source(l)|] == Source(l) &&
        LexemeOk(s, i, l, alnum)
    ensures MaskFrom(s, i, alnum) != MaskedOne(l) + rest
  {
    hide MaskFrom, TokenEnd;
    EscapeIsNoToken(s, i, l, alnum);
    SourceAt(s, i, l, 0);
    MaskStep(s, i, alnum);
    assert MaskFrom(s, i, alnum)[0] == '\'' && (MaskedOne(l) + rest)[0] == ' ';
  }

  lemma MaskAtEnd(s: string, alnum: AlnumTest)
    ensures MaskFrom(s, |s|, alnum) == ""
  {
  }

  lemma MaskStep(s: string, i: nat, alnum: AlnumTest)
    requires i < |s|
    ensures match TokenEnd(s, i, alnum)
            case Some(e) => MaskFrom(s, i, alnum) == Blanked(s[i..e]) + MaskFrom(s, e, alnum)
            case None => MaskFrom(s, i, alnum) == [s[i]] + MaskFrom(s, i + 1, alnum)
  {
    hide TokenEnd, Blanked;
  }

  /** On any lexed source the masker keeps the code and blanks every comment and literal if and only if
      no character literal is written with a numeric escape. */
  lemma MaskOfLexemes(s: string, lexemes: seq<Lexeme>, alnum: AlnumTest)
    requires Lexes(s, 0, lexemes, alnum)
    ensures Mask(s, alnum) == Masked(lexemes) <==> NoNumericEscape(lexemes)
  {
    MaskFromLexemes(s, 0, lexemes, alnum);
  }

  // --- When the code is kept ------------------------------------------------------------------------------------

  /** The masked text is as the lexemes on every code character. */
  ghost predicate CodeKept(lexemes: seq<Lexeme>, masked: string) {
    if lexemes == [] then true
    else
      var n := |Source(lexemes[0])|;
      n <= |masked| && (lexemes[0].Code? ==> masked[..n] == Source(lexemes[0])) && CodeKept(lexemes[1..], masked[n..])
  }

  /** The closing quote of a numeric escape that ends at `e` is taken to open a character literal. */
  predicate Pairs(s: string, e: nat) {
    0 < e <= |s| && CharEnd(s, e - 1).Some?
  }

  /** No closing quote of a numeric escape is taken for an opening one. */
  ghost predicate NoPairs(s: string, i: nat, lexemes: seq<Lexeme>)
    decreases lexemes
  {
    if lexemes == [] then true
    else
      var e := i + |Source(lexemes[0])|;
      (NumericEscape(lexemes[0]) ==> !Pairs(s, e)) && NoPairs(s, e, lexemes[1..])
  }

  /** Where one is, it is directly followed by code that blanking changes: not by whitespace and then a
      literal, and not by a string that begins with a quote. */
  ghost predicate PairsOnCode(s: string, i: nat, lexemes: seq<Lexeme>)
    decreases lexemes
  {
    if lexemes == [] then true
    else
      var e := i + |Source(lexemes[0])|;
      && (NumericEscape(lexemes[0]) && Pairs(s, e) ==>
            |lexemes| > 1 && lexemes[1].Code? && BlankChar(lexemes[1].c) != lexemes[1].c)
      && PairsOnCode(s, e, lexemes[1..])
  }

  lemma {:induction false} EscapeCharsKept(s: string, i: nat, l: Lexeme, k: nat, alnum: AlnumTest)
    requires NumericEscape(l) && i + |Source(l)| <= |s| && s[i..i + |Source(l)|] == Source(l) &&
        LexemeOk(s, i, l, alnum)
    requires k < |Source(l)|
    ensures MaskFrom(s, i + k, alnum) == Source(l)[k..|Source(l)| - 1] + MaskFrom(s, i + |Source(l)| - 1, alnum)
    decreases |Source(l)| - k
  {
    hide MaskFrom, CharEnd, Source;
    var n := |Source(l)|;
    if k == n - 1 {
      assert Source(l)[k..n - 1] == "";
    } else {
      EscapeCharsKept(s, i, l, k + 1, alnum);
      EscapeCharKept(s, i, l, k, alnum);
      assert Source(l)[k..n - 1] == [Source(l)[k]] + Source(l)[k + 1..n - 1];
    }
  }

  lemma EscapeCharKept(s: string, i: nat, l: Lexeme, k: nat, alnum: AlnumTest)
    requires NumericEscape(l) && i + |Source(l)| <= |s| && s[i..i + |Source(l)|] == Source(l) &&
        LexemeOk(s, i, l, alnum)
    requires k + 1 < |Source(l)|
    ensures MaskFrom(s, i + k, alnum) == [Source(l)[k]] + MaskFrom(s, i + k + 1, alnum)
  {
    hide MaskFrom;
    SourceAt(s, i, l, k);
    SourceAt(s, i, l, k + 1);
    if k == 0 {
      SourceAt(s, i, l, 3);
    }
    EscapeChars(l, k, s, i, alnum);
    Kept(s, i + k, alnum);
  }

  lemma EscapeChars(l: Lexeme, k: nat, s: string, i: nat, alnum: AlnumTest)
    requires NumericEscape(l) && LexemeOk(s, i, l, alnum) && k + 1 < |Source(l)|
    ensures Source(l)[0] == '\'' && Source(l)[1] == '\\' && |Source(l)| > 5 && Source(l)[3] != '\''
    ensures k > 0 ==> Source(l)[k] !in "r\"/'" && Source(l)[k + 1] != 'r'
  {
  }

  /** A numeric escape is left as it is, unless its closing quote pairs with what follows. */
  lemma EscapeLeft(s: string, i: nat, l: Lexeme, alnum: AlnumTest)
    requires NumericEscape(l) && i + |Source(l)| <= |s| && s[i..i + |Source(l)|] == Source(l) &&
        LexemeOk(s, i, l, alnum)
    ensures var e := i + |Source(l)|;
            if Pairs(s, e) then e < |s| && MaskFrom(s, i, alnum)[|Source(l)|] == BlankChar(s[e])
            else MaskFrom(s, i, alnum) == Source(l) + MaskFrom(s, e, alnum)
  {
    hide MaskFrom, Source, LexemeOk, TokenEnd;
    var (n, q) := (|Source(l)|, i + |Source(l)| - 1);
    SourceShape(l);
    EscapeCharsKept(s, i, l, 0, alnum);
    ClosingQuote(s, i, l, alnum);
    MaskStep(s, q, alnum);
    var head := Source(l)[0..n - 1];
    if CharEnd(s, q).Some? {
      assert MaskFrom(s, q, alnum)[1] == BlankChar(s[q + 1]);
      assert (head + MaskFrom(s, q, alnum))[n] == MaskFrom(s, q, alnum)[1];
    } else {
      assert head + [s[q]] == Source(l);
      assert head + ([s[q]] + MaskFrom(s, q + 1, alnum)) == head + [s[q]] + MaskFrom(s, q + 1, alnum);
    }
  }

  lemma ClosingQuote(s: string, i: nat, l: Lexeme, alnum: AlnumTest)
    requires NumericEscape(l) && i + |Source(l)| <= |s| && s[i..i + |Source(l)|] == Source(l) && |Source(l)| > 0
    ensures var q := i + |Source(l)| - 1;
            s[q] == '\'' && Source(l)[|Source(l)| - 1] == '\'' && TokenEnd(s, q, alnum) == CharEnd(s, q)
  {
    var q := i + |Source(l)| - 1;
    SourceAt(s, i, l, |Source(l)| - 1);
    NoRaw(s, q, alnum);
    PairAt(s, "//", q);
    PairAt(s, "/*", q);
  }

  lemma {:induction false} CodeKeptFrom(s: string, i: nat, lexemes: seq<Lexeme>, alnum: AlnumTest)
    requires i <= |s| && Lexes(s, i, lexemes, alnum)
    ensures NoPairs(s, i, lexemes) ==> CodeKept(lexemes, MaskFrom(s, i, alnum))
    ensures PairsOnCode(s, i, lexemes) && CodeKept(lexemes, MaskFrom(s, i, alnum)) ==> NoPairs(s, i, lexemes)
    decreases lexemes
  {
    hide MaskFrom, LexemeOk, Source, NumericEscape, Pairs, MaskedOne, BlankChar;
    if lexemes != [] {
      var (l, rest, m) := (lexemes[0], lexemes[1..], MaskFrom(s, i, alnum));
      var n := |Source(l)|;
      SourceShape(l);
      CodeKeptFrom(s, i + n, rest, alnum);
      if NumericEscape(l) {
        EscapeLeft(s, i, l, alnum);
        EscapeIsNotCode(l);
        if Pairs(s, i + n) {
          if PairsOnCode(s, i, lexemes) { CodeLost(s, i + n, rest, m[n..], alnum); }
        } else {
          assert (Source(l) + MaskFrom(s, i + n, alnum))[n..] == MaskFrom(s, i + n, alnum);
        }
      } else {
        LexemeMasked(s, i, l, alnum);
        MaskedOneShape(l);
        assert m[..n] == MaskedOne(l) && m[n..] == MaskFrom(s, i + n, alnum);
      }
    }
  }

  lemma EscapeIsNotCode(l: Lexeme)
    requires NumericEscape(l)
    ensures !l.Code?
  {
  }

  lemma MaskedOneShape(l: Lexeme)
    ensures |MaskedOne(l)| == |Source(l)| && (l.Code? ==> MaskedOne(l) == Source(l))
  {
  }

  lemma CodeLost(s: string, e: nat, lexemes: seq<Lexeme>, masked: string, alnum: AlnumTest)
    requires e < |s| && Lexes(s, e, lexemes, alnum) && lexemes != [] && lexemes[0].Code?
    requires masked != "" && masked[0] == BlankChar(s[e]) && BlankChar(lexemes[0].c) != lexemes[0].c
    ensures !CodeKept(lexemes, masked)
  {
    SourceAt(s, e, lexemes[0], 0);
    assert masked[..1][0] == masked[0];
  }

  /** Every code character is kept where no closing quote of a numeric escape is taken to open a
      literal; and, unless only whitespace or a string stands directly behind such a quote, only there. */
  lemma CodeKeptIff(s: string, lexemes: seq<Lexeme>, alnum: AlnumTest)
    requires Lexes(s, 0, lexemes, alnum)
    ensures NoPairs(s, 0, lexemes) ==> CodeKept(lexemes, Mask(s, alnum))
    ensures PairsOnCode(s, 0, lexemes) ==> (CodeKept(lexemes, Mask(s, alnum)) <==> NoPairs(s, 0, lexemes))
  {
    CodeKeptFrom(s, 0, lexemes, alnum);
  }

  // --- A text has one lexing ----------------------------------------------------------------------------------

  ghost predicate SameLexing(a: seq<Lexeme>, b: seq<Lexeme>) {
    if a == [] || b == [] then a == b
    else
      && Source(a[0]) == Source(b[0]) && a[0].Code? == b[0].Code? && NumericEscape(a[0]) == NumericEscape(b[0])
      && SameLexing(a[1..], b[1..])
  }

  lemma UnicodeNotLonger(s: string, i: nat, l: Lexeme, m: Lexeme, alnum: AlnumTest)
    requires l.UnicodeEscapeLit? && m.UnicodeEscapeLit? && LexemeOk(s, i, l, alnum) && LexemeOk(s, i, m, alnum)
    requires i + |Source(l)| <= |s| && s[i..i + |Source(l)|] == Source(l)
    requires i + |Source(m)| <= |s| && s[i..i + |Source(m)|] == Source(m)
    ensures |l.digits| >= |m.digits|
  {
    var n := |l.digits|;
    SourceAt(s, i, l, 4 + n);
    if n < |m.digits| {
      SourceAt(s, i, m, 4 + n);
    }
  }

  lemma SameEscape(s: string, i: nat, l: Lexeme, m: Lexeme, alnum: AlnumTest)
    requires NumericEscape(l) && NumericEscape(m) && LexemeOk(s, i, l, alnum) && LexemeOk(s, i, m, alnum)
    requires i + |Source(l)| <= |s| && s[i..i + |Source(l)|] == Source(l)
    requires i + |Source(m)| <= |s| && s[i..i + |Source(m)|] == Source(m)
    ensures |Source(l)| == |Source(m)|
  {
    SourceAt(s, i, l, 2);
    SourceAt(s, i, m, 2);
    if l.UnicodeEscapeLit? && m.UnicodeEscapeLit? {
      UnicodeNotLonger(s, i, l, m, alnum);
      UnicodeNotLonger(s, i, m, l, alnum);
    }
  }

  lemma CodeIsNoEscape(s: string, i: nat, l: Lexeme, m: Lexeme, alnum: AlnumTest)
    requires l.Code? && i + |Source(l)| <= |s| && s[i..i + |Source(l)|] == Source(l) && LexemeOk(s, i, l, alnum)
    requires i + |Source(m)| <= |s| && s[i..i + |Source(m)|] == Source(m)
    ensures !NumericEscape(m)
  {
    SourceAt(s, i, l, 0);
    if NumericEscape(m) {
      SourceAt(s, i, m, 0);
      SourceAt(s, i, m, 1);
    }
  }

  lemma SameLexeme(s: string, i: nat, l: Lexeme, m: Lexeme, alnum: AlnumTest)
    requires i < |s| && LexemeOk(s, i, l, alnum) && LexemeOk(s, i, m, alnum)
    requires i + |Source(l)| <= |s| && s[i..i + |Source(l)|] == Source(l)
    requires i + |Source(m)| <= |s| && s[i..i + |Source(m)|] == Source(m)
    ensures Source(l) == Source(m) && l.Code? == m.Code? && NumericEscape(l) == NumericEscape(m)
  {
    hide LexemeOk, Source, TokenEnd;
    LexemeIsOneToken(s, i, l, alnum);
    LexemeIsOneToken(s, i, m, alnum);
    SourceShape(l);
    SourceShape(m);
    if l.Code? { CodeIsNoEscape(s, i, l, m, alnum); }
    if m.Code? { CodeIsNoEscape(s, i, m, l, alnum); }
    if NumericEscape(l) && NumericEscape(m) { SameEscape(s, i, l, m, alnum); }
    assert |Source(l)| == |Source(m)|;
  }

  /** No text is lexed in two ways: cut into lexemes, a text is cut at the same places, with the same
      lexemes code and the same ones numeric escapes. */
  lemma {:induction false} OneLexing(s: string, i: nat, a: seq<Lexeme>, b: seq<Lexeme>, alnum: AlnumTest)
    requires i <= |s| && Lexes(s, i, a, alnum) && Lexes(s, i, b, alnum)
    ensures SameLexing(a, b)
    decreases a
  {
    hide LexemeOk, Source, NumericEscape;
    if a != [] { SourceShape(a[0]); }
    if b != [] { SourceShape(b[0]); }
    if a != [] && b != [] {
      SameLexeme(s, i, a[0], b[0], alnum);
      OneLexing(s, i + |Source(a[0])|, a[1..], b[1..], alnum);
    }
  }

  // --- What an unrecognised literal can hide ------------------------------------------------------------------

  lemma Kept(s: string, i: nat, alnum: AlnumTest)
    requires i < |s| && s[i] != 'r' && s[i] != '"' && s[i] != '/' && (s[i] == '\'' ==> CharEnd(s, i).None?)
    requires s[i] == 'b' ==> i + 1 < |s| && s[i + 1] != 'r'
    ensures MaskFrom(s, i, alnum) == [s[i]] + MaskFrom(s, i + 1, alnum)
  {
    PairAt(s, "br", i);
    PairAt(s, "//", i);
    PairAt(s, "/*", i);
    assert s[i..i + 1] == [s[i]];
    assert RawPrefix(s, i) == 0;
    hide RawPrefix, StartsAt, MaskFrom;
    assert TokenEnd(s, i, alnum).None?;
    MaskStep(s, i, alnum);
  }

  /** From an open string that never closes, everything is blanked. */
  lemma BlankedToEnd(s: string, i: nat, e: nat, alnum: AlnumTest)
    requires i < e <= |s| && s[i] == '"' && StringEnd(s, i + 1, false) == StringEnd(s, e, false)
    requires forall k :: e <= k < |s| ==> s[k] != '"'
    ensures MaskFrom(s, i, alnum) == Blanked(s[i..])
  {
    NoRaw(s, i, alnum);
    PairAt(s, "//", i);
    PairAt(s, "/*", i);
    UnclosedString(s, e, false);
    hide MaskFrom, StringEnd, StartsAt, RawEnd;
    MaskStep(s, i, alnum);
    MaskAtEnd(s, alnum);
    assert s[i..|s|] == s[i..];
  }

  /** After a byte escape and a quoted quote, whatever follows is hidden up to the next quote: the
      closing quote of the escape pairs with the quote that opens the next literal. */
  lemma EscapeHidesCode(hi: char, lo: char, tail: string, alnum: AlnumTest)
    requires IsHex(hi) && IsHex(lo) && forall k :: 0 <= k < |tail| ==> tail[k] != '"'
    ensures var lit := ['\'', '\\', 'x', hi, lo];
            Mask(lit + "','\"'" + tail, alnum) == lit + "   " + Blanked("\"'" + tail)
  {
    hide MaskFrom, Blanked;
    var lit := ['\'', '\\', 'x', hi, lo];
    var s := lit + "','\"'" + tail;
    assert s[..5] == lit && s[5..8] == "','" && s[8..] == "\"'" + tail;
    forall k | 10 <= k < |s|
      ensures s[k] != '"'
    {
      assert s[k] == tail[k - 10];
    }
    FiveKept(s, hi, lo, alnum);
    CommaTaken(s, alnum);
    assert s[8] == s[8..][0] && s[9] == s[8..][1];
    BlankedToEnd(s, 8, 9, alnum);
    assert lit + ("   " + Blanked("\"'" + tail)) == lit + "   " + Blanked("\"'" + tail);
  }

  /** A character that begins no comment, literal or lifetime. */
  predicate Ordinary(c: char) {
    c != '"' && c != '/' && c != '\'' && c != 'r' && c != 'b' && c != 'c'
  }

  lemma OrdinaryIsCode(s: string, i: nat, alnum: AlnumTest)
    requires i < |s| && Ordinary(s[i])
    ensures LexemeOk(s, i, Code(s[i]), alnum)
  {
    PairAt(s, "//", i);
    PairAt(s, "/*", i);
    forall pat: string | pat != "" && (pat[0] == 'r' || pat[0] == 'b' || pat[0] == 'c')
      ensures !StartsAt(s, pat, i)
    {
      if i + |pat| <= |s| { assert s[i..i + |pat|][0] == s[i]; }
    }
    forall bytes: bool, n: nat
      ensures !StartsAt(s, RawMarker(bytes) + Hashes(n) + "\"", i) && !StartsAt(s, "cr" + Hashes(n) + "\"", i)
    {
    }
  }

  /** What is hidden is code: the text has a lexing in which the last character is code, and masking
      blanks it. */
  lemma HiddenTextIsCode(hi: char, lo: char, c: char, alnum: AlnumTest)
    requires IsHex(hi) && IsHex(lo) && Ordinary(c) && c != ' ' && c != '\n' && c != '\r'
    ensures var s := ['\'', '\\', 'x', hi, lo] + "','\"'" + [c];
            && Lexes(s, 0, [ByteEscapeLit(hi, lo), Code(','), CharLit('"'), Code(c)], alnum)
            && |Mask(s, alnum)| == |s| && Mask(s, alnum)[10] == ' ' && s[10] == c
  {
    hide Lexes, Mask, Blanked;
    EscapeHidesCode(hi, lo, [c], alnum);
    HiddenLexing(hi, lo, c, alnum);
    LastBlank("\"'" + [c]);
  }

  lemma LastBlank(t: string)
    requires t != "" && t[|t| - 1] != '\n' && t[|t| - 1] != '\r'
    ensures |Blanked(t)| == |t| && Blanked(t)[|t| - 1] == ' '
  {
  }

  lemma HiddenLexing(hi: char, lo: char, c: char, alnum: AlnumTest)
    requires IsHex(hi) && IsHex(lo) && Ordinary(c)
    ensures Lexes(['\'', '\\', 'x', hi, lo] + "','\"'" + [c], 0,
        [ByteEscapeLit(hi, lo), Code(','), CharLit('"'), Code(c)], alnum)
  {
    hide LexemeOk, RawOpens, RawCOpens;
    var s := ['\'', '\\', 'x', hi, lo] + "','\"'" + [c];
    var ls := [ByteEscapeLit(hi, lo), Code(','), CharLit('"'), Code(c)];
    assert s[0..6] == Source(ls[0]) && s[6..7] == Source(ls[1]) && s[7..10] == Source(ls[2]) &&
        s[10..11] == Source(ls[3]);
    OrdinaryIsCode(s, 6, alnum);
    OrdinaryIsCode(s, 10, alnum);
    LiteralsOk(s, hi, lo, alnum);
    assert ls[1..][1..][1..] == [Code(c)] && [Code(c)][1..] == [];
    assert Lexes(s, 10, [Code(c)], alnum);
    assert ls[1..][1..] == [CharLit('"'), Code(c)] && [CharLit('"'), Code(c)][1..] == [Code(c)];
    assert Lexes(s, 7, [CharLit('"'), Code(c)], alnum);
    assert Lexes(s, 6, ls[1..], alnum);
  }

  lemma LiteralsOk(s: string, hi: char, lo: char, alnum: AlnumTest)
    requires IsHex(hi) && IsHex(lo)
    ensures LexemeOk(s, 0, ByteEscapeLit(hi, lo), alnum) && LexemeOk(s, 7, CharLit('"'), alnum)
  {
  }

  lemma FiveKept(s: string, hi: char, lo: char, alnum: AlnumTest)
    requires |s| > 5 && IsHex(hi) && IsHex(lo) && s[..5] == ['\'', '\\', 'x', hi, lo] && s[5] == '\''
    ensures MaskFrom(s, 0, alnum) == s[..5] + MaskFrom(s, 5, alnum)
  {
    hide MaskFrom;
    var t := s[..5];
    assert s[0] == t[0] && s[1] == t[1] && s[2] == t[2] && s[3] == t[3] && s[4] == t[4];
    Kept(s, 0, alnum);
    Kept(s, 1, alnum);
    Kept(s, 2, alnum);
    Kept(s, 3, alnum);
    Kept(s, 4, alnum);
    var rest := MaskFrom(s, 5, alnum);
    assert t + rest == [t[0]] + ([t[1]] + ([t[2]] + ([t[3]] + ([t[4]] + rest))));
  }

  lemma CommaTaken(s: string, alnum: AlnumTest)
    requires |s| > 8 && s[5..8] == "','"
    ensures MaskFrom(s, 5, alnum) == "   " + MaskFrom(s, 8, alnum)
  {
    hide MaskFrom, Blanked;
    assert s[5] == s[5..8][0] && s[6] == s[5..8][1] && s[7] == s[5..8][2];
    NoRaw(s, 5, alnum);
    PairAt(s, "//", 5);
    PairAt(s, "/*", 5);
    MaskStep(s, 5, alnum);
    ThreeBlanks();
  }

  lemma ThreeBlanks()
    ensures Blanked("','") == "   "
  {
  }

  /** A raw C string is not recognised either: a backslash before its closing quote hides what follows. */
  lemma RawCStringHidesCode(tail: string, alnum: AlnumTest)
    requires alnum('c') && forall k :: 0 <= k < |tail| ==> tail[k] != '"'
    ensures Mask("cr\"\\\"" + tail, alnum) == "cr" + Blanked("\"\\\"" + tail)
  {
    hide MaskFrom, Blanked;
    var s := "cr\"\\\"" + tail;
    assert s[0] == 'c' && s[1] == 'r' && s[2] == '"' && s[3] == '\\' && s[4] == '"';
    assert forall k :: 5 <= k < |s| ==> s[k] == tail[k - 5];
    Kept(s, 0, alnum);
    AfterLetter(s, alnum);
    EscapedQuote(s);
    BlankedToEnd(s, 2, 5, alnum);
    assert s[2..] == "\"\\\"" + tail;
    var rest := Blanked("\"\\\"" + tail);
    assert ['c'] + (['r'] + rest) == "cr" + rest;
  }

  lemma EscapedQuote(s: string)
    requires |s| > 4 && s[3] == '\\' && s[4] == '"'
    ensures StringEnd(s, 3, false) == StringEnd(s, 5, false)
  {
  }

  lemma AfterLetter(s: string, alnum: AlnumTest)
    requires |s| > 1 && s[0] == 'c' && s[1] == 'r' && alnum('c')
    ensures MaskFrom(s, 1, alnum) == [s[1]] + MaskFrom(s, 2, alnum)
  {
    PairAt(s, "//", 1);
    PairAt(s, "/*", 1);
    hide MaskFrom;
    MaskStep(s, 1, alnum);
  }
}
