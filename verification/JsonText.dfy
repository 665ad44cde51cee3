/** JSON string escaping as the proof emitter does it (`escape_json`), against the decoding of
    section 7 of RFC 8259. */
module JsonText {
  import opened Wrappers

  function HexDigit(d: nat): char
    requires d < 16
  {
    "0123456789abcdef"[d]
  }

  /** Four lower-case hexadecimal digits. */
  function Hex4(n: nat): string {
    [HexDigit(n / 4096 % 16), HexDigit(n / 256 % 16), HexDigit(n / 16 % 16), HexDigit(n % 16)]
  }

  function EscapeChar(c: char): string {
    if c == '"' then "\\\""
    else if c == '\\' then "\\\\"
    else if c == '\n' then "\\n"
    else if c == '\r' then "\\r"
    else if c == '\t' then "\\t"
    else if c as int < 0x20 then "\\u" + Hex4(c as int)
    else [c]
  }

  function Escaped(s: string): string {
    if s == "" then "" else EscapeChar(s[0]) + Escaped(s[1..])
  }

  method EscapeJson(s: string) returns (out: string)
    ensures out == Escaped(s)
  {
    out := "";
    assert s[0..] == s && "" + Escaped(s) == Escaped(s);
    for i := 0 to |s|
      invariant out + Escaped(s[i..]) == Escaped(s)
    {
      assert s[i..][1..] == s[i + 1..];
      Regroup(out, EscapeChar(s[i]), Escaped(s[i + 1..]));
      if s[i] == '"' {
        out := out + "\\\"";
      } else if s[i] == '\\' {
        out := out + "\\\\";
      } else if s[i] == '\n' {
        out := out + "\\n";
      } else if s[i] == '\r' {
        out := out + "\\r";
      } else if s[i] == '\t' {
        out := out + "\\t";
      } else if s[i] as int < 0x20 {
        out := out + ("\\u" + Hex4(s[i] as int));
      } else {
        out := out + [s[i]];
      }
    }
    assert out + "" == out;
  }

  lemma Regroup(a: string, b: string, c: string)
    ensures a + (b + c) == a + b + c
  {
  }

  // --- Decoding, RFC 8259 section 7 -----------------------------------------------------------------

  function HexValue(c: char): Option<nat> {
    if '0' <= c <= '9' then Some(c as int - '0' as int)
    else if 'a' <= c <= 'f' then Some(c as int - 'a' as int + 10)
    else if 'A' <= c <= 'F' then Some(c as int - 'A' as int + 10)
    else None
  }

  /** The code unit written by the four hexadecimal digits at the front. */
  function CodeUnit(s: string): Option<nat> {
    if |s| < 4 then None
    else
      var (a, b, c, d) := (HexValue(s[0]), HexValue(s[1]), HexValue(s[2]), HexValue(s[3]));
      if a.None? || b.None? || c.None? || d.None? then None
      else Some(a.value * 4096 + b.value * 256 + c.value * 16 + d.value)
  }

  function Prepend(c: char, rest: Option<string>): Option<string> {
    if rest.None? then None else Some([c] + rest.value)
  }

  /** The contents of a JSON string literal; None where they are not well formed. */
  function Decode(s: string): Option<string>
    decreases |s|
  {
    if s == "" then Some("")
    else if s[0] == '"' || s[0] as int < 0x20 then None
    else if s[0] != '\\' then Prepend(s[0], Decode(s[1..]))
    else if |s| < 2 then None
    else
      match s[1]
      case '"' => Prepend('"', Decode(s[2..]))
      case '\\' => Prepend('\\', Decode(s[2..]))
      case '/' => Prepend('/', Decode(s[2..]))
      case 'b' => Prepend(8 as char, Decode(s[2..]))
      case 'f' => Prepend(12 as char, Decode(s[2..]))
      case 'n' => Prepend('\n', Decode(s[2..]))
      case 'r' => Prepend('\r', Decode(s[2..]))
      case 't' => Prepend('\t', Decode(s[2..]))
      case 'u' => DecodeUnit(s)
      case _ => None
  }

  /** A four-digit escape, or a surrogate pair of two of them. */
  function DecodeUnit(s: string): Option<string>
    requires |s| >= 2
    decreases |s|, 0
  {
    var unit := CodeUnit(s[2..]);
    if unit.None? then None
    else if unit.value < 0xD800 || 0xE000 <= unit.value < 0x1_0000 then Prepend(unit.value as char, Decode(s[6..]))
    else if unit.value < 0xDC00 && |s| >= 8 && s[6] == '\\' && s[7] == 'u' then
      var low := CodeUnit(s[8..]);
      if low.Some? && 0xDC00 <= low.value < 0xE000
      then Prepend((0x1_0000 + (unit.value - 0xD800) * 0x400 + (low.value - 0xDC00)) as char, Decode(s[12..]))
      else None
    else None
  }

  lemma HexRoundTrip(d: nat)
    requires d < 16
    ensures HexValue(HexDigit(d)) == Some(d)
  {
    assert d < 10 ==> "0123456789"[d] as int == '0' as int + d;
    assert d >= 10 ==> "abcdef"[d - 10] as int == 'a' as int + d - 10;
  }

  lemma Hex4OfSmall(n: nat)
    requires n < 0x20
    ensures Hex4(n) == [HexDigit(0), HexDigit(0), HexDigit(n / 16), HexDigit(n % 16)]
  {
    hide HexDigit;
    assert n / 4096 == 0 && n / 256 == 0;
  }

  lemma CodeUnitOfDigits(x: nat, y: nat, rest: string)
    requires x < 16 && y < 16
    ensures CodeUnit([HexDigit(0), HexDigit(0), HexDigit(x), HexDigit(y)] + rest) == Some(x * 16 + y)
  {
    HexRoundTrip(0);
    HexRoundTrip(x);
    HexRoundTrip(y);
    hide HexDigit, HexValue;
  }

  lemma CodeUnitOfHex4(n: nat, rest: string)
    requires n < 0x20
    ensures CodeUnit(Hex4(n) + rest) == Some(n)
  {
    Hex4OfSmall(n);
    CodeUnitOfDigits(n / 16, n % 16, rest);
    hide CodeUnit, Hex4, HexDigit;
  }

  /** A control character written as a four-digit escape. */
  lemma DecodeControl(n: nat, rest: string)
    requires n < 0x20
    ensures Decode("\\u" + Hex4(n) + rest) == Prepend(n as char, Decode(rest))
  {
    hide Hex4, CodeUnit;
    var s := "\\u" + Hex4(n) + rest;
    CodeUnitOfHex4(n, rest);
    Hex4Length(n);
    assert s[0] == '\\' && s[1] == 'u' && s[2..] == Hex4(n) + rest && s[6..] == rest;
    assert Decode(s) == DecodeUnit(s);
  }

  lemma Hex4Length(n: nat)
    ensures |Hex4(n)| == 4
  {
  }

  lemma DecodePair(c: char, e: char, rest: string)
    requires (c == '"' && e == '"') || (c == '\\' && e == '\\') ||
             (c == '\n' && e == 'n') || (c == '\r' && e == 'r') || (c == '\t' && e == 't')
    ensures Decode(['\\', e] + rest) == Prepend(c, Decode(rest))
  {
    hide DecodeUnit;
    var s := ['\\', e] + rest;
    assert s[2..] == rest && s[0] == '\\' && s[1] == e;
  }

  lemma DecodeBare(c: char, rest: string)
    requires c != '"' && c != '\\' && c as int >= 0x20
    ensures Decode([c] + rest) == Prepend(c, Decode(rest))
  {
    hide DecodeUnit;
    var s := [c] + rest;
    assert s[1..] == rest && s[0] == c;
  }

  lemma DecodeStep(c: char, rest: string)
    ensures Decode(EscapeChar(c) + rest) == Prepend(c, Decode(rest))
  {
    hide Decode, Hex4;
    match c
    case '"' => DecodePair(c, '"', rest);
    case '\\' => DecodePair(c, '\\', rest);
    case '\n' => DecodePair(c, 'n', rest);
    case '\r' => DecodePair(c, 'r', rest);
    case '\t' => DecodePair(c, 't', rest);
    case _ => if c as int < 0x20 { DecodeControl(c as int, rest); } else { DecodeBare(c, rest); }
  }

  /** Read in escape pairs, the text has no quote outside a pair and does not end inside one, so a quote
      put after it is the first to close the literal. */
  predicate NoBareQuote(t: string) {
    if t == "" then true
    else if t[0] == '\\' then |t| >= 2 && NoBareQuote(t[2..])
    else t[0] != '"' && NoBareQuote(t[1..])
  }

  lemma {:induction false} NoBareQuoteConcat(a: string, b: string)
    requires NoBareQuote(a) && NoBareQuote(b)
    ensures NoBareQuote(a + b)
    decreases a
  {
    if a == "" {
      assert a + b == b;
    } else if a[0] == '\\' {
      assert (a + b)[2..] == a[2..] + b;
      NoBareQuoteConcat(a[2..], b);
    } else {
      assert (a + b)[1..] == a[1..] + b;
      NoBareQuoteConcat(a[1..], b);
    }
  }

  lemma HexIsClean(n: nat)
    ensures forall k :: 0 <= k < 4 ==> Hex4(n)[k] as int >= 0x20 && Hex4(n)[k] != '"' && Hex4(n)[k] != '\\'
  {
    hide HexDigit;
    forall d: nat | d < 16
      ensures HexDigit(d) as int >= 0x20 && HexDigit(d) != '"' && HexDigit(d) != '\\'
    {
      HexRoundTrip(d);
    }
  }

  lemma {:induction false} CleanRun(t: string)
    requires forall k :: 0 <= k < |t| ==> t[k] != '"' && t[k] != '\\'
    ensures NoBareQuote(t)
  {
    if t != "" { CleanRun(t[1..]); }
  }

  lemma CharIsClean(c: char)
    ensures NoBareQuote(EscapeChar(c)) && forall k :: 0 <= k < |EscapeChar(c)| ==> EscapeChar(c)[k] as int >= 0x20
  {
    var e := EscapeChar(c);
    if |e| == 6 {
      hide Hex4;
      HexIsClean(c as int);
      Hex4Length(c as int);
      assert e[2..] == Hex4(c as int);
      CleanRun(Hex4(c as int));
    } else if |e| == 2 {
      assert e[2..] == "";
    } else {
      assert e[1..] == "";
    }
  }

  /** Escaped text holds no raw control character and no unescaped quote. */
  lemma {:induction false} EscapedIsClean(s: string)
    ensures NoBareQuote(Escaped(s)) && forall k :: 0 <= k < |Escaped(s)| ==> Escaped(s)[k] as int >= 0x20
  {
    hide EscapeChar, NoBareQuote;
    if s == "" {
      CleanRun("");
    } else {
      CharIsClean(s[0]);
      EscapedIsClean(s[1..]);
      NoBareQuoteConcat(EscapeChar(s[0]), Escaped(s[1..]));
    }
  }

  /** A JSON reader gets back exactly the string that was escaped, for every string. */
  lemma {:induction false} EscapeRoundTrip(s: string)
    ensures Decode(Escaped(s)) == Some(s)
  {
    if s == "" {
    } else {
      EscapeRoundTrip(s[1..]);
      DecodeStep(s[0], Escaped(s[1..]));
      assert s == [s[0]] + s[1..];
    }
  }

  /** Different strings are never escaped alike. */
  lemma EscapeInjective(s: string, t: string)
    requires Escaped(s) == Escaped(t)
    ensures s == t
  {
    EscapeRoundTrip(s);
    EscapeRoundTrip(t);
  }
}
