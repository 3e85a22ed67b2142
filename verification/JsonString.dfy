/** The canonical JSON string form: every character outside printable ASCII is escaped. */
module JsonString {
  import opened Wrappers

  // ---------------------------------------------------------------- printing

  function HexDigit(d: nat): char
    requires d < 16
  {
    if d < 10 then ('0' as int + d) as char else ('a' as int + (d - 10)) as char
  }

  function ToHex(n: nat): string
  {
    if n < 16 then [HexDigit(n)] else ToHex(n / 16) + [HexDigit(n % 16)]
  }

  /** `lpad`: fill on the left, truncate on the right. */
  function LPad(s: string, width: nat, fill: char): string
    decreases width - |s|
  {
    if |s| >= width then s[..width] else LPad([fill] + s, width, fill)
  }

  function UnicodeEscape(n: nat): string
  {
    "\\u" + LPad(ToHex(n), 4, '0')
  }

  /** The branches that depend on the code point alone. */
  function EscapeCodepoint(codepoint: nat): string
  {
    if codepoint <= 65535 then UnicodeEscape(codepoint)
    else
      var shifted := codepoint - 65536;
      UnicodeEscape(55296 + shifted / 1024) + UnicodeEscape(56320 + shifted % 1024)
  }

  /** One turn of the loop: what is appended for one character. */
  function EscapeChar(c: char): string
  {
    if c == '"' then "\\\""
    else if c == '\\' then "\\\\"
    else if c as int == 8 then "\\b"
    else if c as int == 12 then "\\f"
    else if c as int == 10 then "\\n"
    else if c as int == 13 then "\\r"
    else if c as int == 9 then "\\t"
    else if 32 <= c as int <= 126 then [c]
    else EscapeCodepoint(c as int)
  }

  function EscapeAll(s: string): string
  {
    if s == [] then [] else EscapeChar(s[0]) + EscapeAll(s[1..])
  }

  function Quote(s: string): string
  {
    "\"" + EscapeAll(s) + "\""
  }

  lemma ConcatAssociative(a: string, b: string, c: string)
    ensures (a + b) + c == a + (b + c)
  {
  }

  lemma {:induction false} EscapeAllAppend(s: string, c: char)
    ensures EscapeAll(s + [c]) == EscapeAll(s) + EscapeChar(c)
    decreases |s|
  {
    if s == [] {
      assert s + [c] == [c];
      assert EscapeAll([c]) == EscapeChar(c) + EscapeAll([]);
    } else {
      assert (s + [c])[1..] == s[1..] + [c];
      EscapeAllAppend(s[1..], c);
      ConcatAssociative(EscapeChar(s[0]), EscapeAll(s[1..]), EscapeChar(c));
    }
  }

  lemma EscapePrefix(value: string, i: nat)
    requires i < |value|
    ensures "\"" + EscapeAll(value[..i + 1]) == ("\"" + EscapeAll(value[..i])) + EscapeChar(value[i])
  {
    assert value[..i + 1] == value[..i] + [value[i]];
    EscapeAllAppend(value[..i], value[i]);
    ConcatAssociative("\"", EscapeAll(value[..i]), EscapeChar(value[i]));
  }

  /** The printer's loop over the characters of its argument. */
  method CanonicalString(value: string) returns (r: string)
    ensures r == Quote(value)
  {
    r := "\"";
    for i := 0 to |value|
      invariant r == "\"" + EscapeAll(value[..i])
    {
      EscapePrefix(value, i);
      r := r + EscapeChar(value[i]);
    }
    assert value[..|value|] == value;
    r := r + "\"";
  }

  // ---------------------------------------------------------------- reading (RFC 8259, section 7)

  function HexDigitValue(c: char): Option<nat>
  {
    if '0' <= c <= '9' then Some(c as int - '0' as int)
    else if 'a' <= c <= 'f' then Some(c as int - 'a' as int + 10)
    else if 'A' <= c <= 'F' then Some(c as int - 'A' as int + 10)
    else None
  }

  /** The four hex digits at the front of `s`. */
  function ReadHex4(s: string): (r: Option<nat>)
    ensures r.Some? ==> |s| >= 4 && r.value < 0x10000
  {
    if |s| < 4 then None
    else
      match (HexDigitValue(s[0]), HexDigitValue(s[1]), HexDigitValue(s[2]), HexDigitValue(s[3]))
      case (Some(a), Some(b), Some(c), Some(d)) =>
        if a < 16 && b < 16 && c < 16 && d < 16 then Some(a * 4096 + b * 256 + c * 16 + d) else None
      case _ => None
  }

  /** A `\uXXXX` escape, with its second half when it starts a surrogate pair. */
  function ReadUnicode(s: string): (r: Option<(char, string)>)
    requires |s| >= 2
    ensures r.Some? ==> |r.value.1| < |s|
  {
    match ReadHex4(s[2..])
    case None => None
    case Some(n) =>
      if n < 0xD800 || 0xE000 <= n then Some((n as char, s[6..]))
      else if n < 0xDC00 && |s| >= 8 && s[6] == '\\' && s[7] == 'u' then
        match ReadHex4(s[8..])
        case Some(m) =>
          if 0xDC00 <= m < 0xE000
          then Some(((0x10000 + (n - 0xD800) * 1024 + (m - 0xDC00)) as char, s[12..]))
          else None
        case None => None
      else None
  }

  function ReadChar(s: string): (r: Option<(char, string)>)
    requires s != []
    ensures r.Some? ==> |r.value.1| < |s|
  {
    if s[0] != '\\' then
      if s[0] as int < 32 then None else Some((s[0], s[1..]))
    else if |s| == 1 then None
    else if s[1] == 'u' then ReadUnicode(s)
    else
      match s[1]
      case '"' => Some(('"', s[2..]))
      case '\\' => Some(('\\', s[2..]))
      case '/' => Some(('/', s[2..]))
      case 'b' => Some((8 as char, s[2..]))
      case 'f' => Some((12 as char, s[2..]))
      case 'n' => Some((10 as char, s[2..]))
      case 'r' => Some((13 as char, s[2..]))
      case 't' => Some((9 as char, s[2..]))
      case _ => None
  }

  /** The characters up to the closing quote, and what follows it. */
  function ReadBody(s: string): (r: Option<(string, string)>)
    ensures r.Some? ==> |r.value.1| < |s|
    decreases |s|
  {
    if s == [] then None
    else if s[0] == '"' then Some(("", s[1..]))
    else
      match ReadChar(s)
      case None => None
      case Some((c, rest)) =>
        match ReadBody(rest)
        case None => None
        case Some((t, after)) => Some(([c] + t, after))
  }

  // ---------------------------------------------------------------- round trip

  function Hex4(a: nat, b: nat, c: nat, d: nat): string
    requires a < 16 && b < 16 && c < 16 && d < 16
  {
    [HexDigit(a), HexDigit(b), HexDigit(c), HexDigit(d)]
  }

  lemma Pad1(a: char)
    ensures LPad([a], 4, '0') == ['0', '0', '0', a]
  {
    assert ['0'] + [a] == ['0', a];
    assert ['0'] + ['0', a] == ['0', '0', a];
    assert LPad(['0', '0', a], 4, '0') == LPad(['0', '0', '0', a], 4, '0');
  }

  lemma Pad2(a: char, b: char)
    ensures LPad([a, b], 4, '0') == ['0', '0', a, b]
  {
    assert ['0'] + [a, b] == ['0', a, b];
    assert LPad(['0', a, b], 4, '0') == LPad(['0', '0', a, b], 4, '0');
  }

  lemma Pad3(a: char, b: char, c: char)
    ensures LPad([a, b, c], 4, '0') == ['0', a, b, c]
  {
  }

  lemma ToHexStep(n: nat, high: nat, d: nat)
    requires high > 0 && d < 16 && n == high * 16 + d
    ensures ToHex(n) == ToHex(high) + [HexDigit(d)]
  {
  }

  lemma ToHex2(n: nat, c: nat, d: nat)
    requires 0 < c < 16 && d < 16 && n == c * 16 + d
    ensures ToHex(n) == [HexDigit(c), HexDigit(d)]
  {
  }

  lemma ToHex3(n: nat, high: nat, b: nat, c: nat, d: nat)
    requires 0 < b < 16 && c < 16 && d < 16 && high == b * 16 + c && n == high * 16 + d
    ensures ToHex(n) == [HexDigit(b), HexDigit(c), HexDigit(d)]
  {
    ToHexStep(n, high, d);
    ToHex2(high, b, c);
  }

  /** Every code unit has four hex digits ... */
  lemma HexDigits(n: nat) returns (a: nat, b: nat, c: nat, d: nat)
    requires n < 0x10000
    ensures a < 16 && b < 16 && c < 16 && d < 16 && n == a * 4096 + b * 256 + c * 16 + d
  {
    var high3 := n / 16;
    var high2 := high3 / 16;
    a, b, c, d := high2 / 16, high2 % 16, high3 % 16, n % 16;
  }

  /** ... and padding produces exactly them. */
  lemma PaddedHex(n: nat, a: nat, b: nat, c: nat, d: nat)
    requires a < 16 && b < 16 && c < 16 && d < 16 && n == a * 4096 + b * 256 + c * 16 + d
    ensures LPad(ToHex(n), 4, '0') == Hex4(a, b, c, d)
  {
    var high2, high3 := a * 16 + b, (a * 16 + b) * 16 + c;
    if a > 0 {
      ToHexStep(n, high3, d);
      ToHex3(high3, high2, a, b, c);
    } else if b > 0 {
      ToHex3(n, high3, b, c, d);
      Pad3(HexDigit(b), HexDigit(c), HexDigit(d));
    } else if c > 0 {
      ToHex2(n, c, d);
      Pad2(HexDigit(c), HexDigit(d));
    } else {
      Pad1(HexDigit(d));
    }
  }

  lemma ReadHex4Digits(s: string, a: nat, b: nat, c: nat, d: nat)
    requires a < 16 && b < 16 && c < 16 && d < 16 && |s| >= 4
    requires s[0] == HexDigit(a) && s[1] == HexDigit(b) && s[2] == HexDigit(c) && s[3] == HexDigit(d)
    ensures ReadHex4(s) == Some(a * 4096 + b * 256 + c * 16 + d)
  {
  }

  lemma ReadHex4RoundTrip(n: nat, rest: string)
    requires n < 0x10000
    ensures |LPad(ToHex(n), 4, '0')| == 4
    ensures ReadHex4(LPad(ToHex(n), 4, '0') + rest) == Some(n)
  {
    var a, b, c, d := HexDigits(n);
    PaddedHex(n, a, b, c, d);
    ReadHex4Digits(Hex4(a, b, c, d) + rest, a, b, c, d);
  }

  lemma UnicodeEscapeShape(n: nat, rest: string)
    requires n < 0x10000
    ensures |UnicodeEscape(n)| == 6
    ensures var s := UnicodeEscape(n) + rest;
            s[0] == '\\' && s[1] == 'u' && s[6..] == rest && ReadHex4(s[2..]) == Some(n)
  {
    ReadHex4RoundTrip(n, rest);
    assert (UnicodeEscape(n) + rest)[2..] == LPad(ToHex(n), 4, '0') + rest;
  }

  lemma ReadUnicodeSingle(n: nat, rest: string)
    requires n < 0xD800 || 0xE000 <= n < 0x10000
    ensures ReadUnicode(UnicodeEscape(n) + rest) == Some((n as char, rest))
  {
    UnicodeEscapeShape(n, rest);
  }

  lemma ReadUnicodePair(high: nat, low: nat, rest: string)
    requires high < 1024 && low < 1024
    ensures ReadUnicode(UnicodeEscape(55296 + high) + (UnicodeEscape(56320 + low) + rest))
         == Some(((65536 + high * 1024 + low) as char, rest))
  {
    var second := UnicodeEscape(56320 + low) + rest;
    var s := UnicodeEscape(55296 + high) + second;
    UnicodeEscapeShape(55296 + high, second);
    UnicodeEscapeShape(56320 + low, rest);
    assert s[6] == second[0] && s[7] == second[1];
    assert s[8..] == second[2..] && s[12..] == second[6..];
  }

  lemma ReadCodepointRoundTrip(c: char, rest: string)
    ensures var e := EscapeCodepoint(c as int);
            |e| >= 2 && e[0] == '\\' && e[1] == 'u' && ReadUnicode(e + rest) == Some((c, rest))
  {
    hide UnicodeEscape, ReadUnicode, ReadHex4;
    var codepoint := c as int;
    if codepoint <= 65535 {
      UnicodeEscapeShape(codepoint, rest);
      ReadUnicodeSingle(codepoint, rest);
    } else {
      var high, low := (codepoint - 65536) / 1024, (codepoint - 65536) % 1024;
      var first, second := UnicodeEscape(55296 + high), UnicodeEscape(56320 + low);
      UnicodeEscapeShape(55296 + high, second + rest);
      ReadUnicodePair(high, low, rest);
      ConcatAssociative(first, second, rest);
    }
  }

  lemma ReadCharRoundTrip(c: char, rest: string)
    ensures EscapeChar(c) != [] && EscapeChar(c)[0] != '"'
    ensures ReadChar(EscapeChar(c) + rest) == Some((c, rest))
  {
    var s := EscapeChar(c) + rest;
    if c == '"' || c == '\\' || c as int in {8, 9, 10, 12, 13} {
      assert |EscapeChar(c)| == 2 && s[2..] == rest;
    } else if 32 <= c as int <= 126 {
      assert s[1..] == rest;
    } else {
      ReadCodepointRoundTrip(c, rest);
    }
  }

  /** Reading undoes escaping, for every text and whatever follows the closing quote. */
  lemma {:induction false} ReadBodyRoundTrip(s: string, rest: string)
    ensures ReadBody(EscapeAll(s) + ("\"" + rest)) == Some((s, rest))
    decreases |s|
  {
    if s == [] {
      assert EscapeAll(s) + ("\"" + rest) == "\"" + rest;
    } else {
      var tail := EscapeAll(s[1..]) + ("\"" + rest);
      assert EscapeAll(s) + ("\"" + rest) == EscapeChar(s[0]) + tail;
      ReadCharRoundTrip(s[0], tail);
      ReadBodyRoundTrip(s[1..], rest);
      assert [s[0]] + s[1..] == s;
    }
  }

  /** Distinct texts have distinct quoted forms. */
  lemma QuoteInjective(a: string, b: string)
    requires Quote(a) == Quote(b)
    ensures a == b
  {
    hide EscapeAll, ReadBody;
    ReadBodyRoundTrip(a, "");
    ReadBodyRoundTrip(b, "");
    assert EscapeAll(a) + ("\"" + "") == Quote(a)[1..];
    assert EscapeAll(b) + ("\"" + "") == Quote(b)[1..];
  }

  // ---------------------------------------------------------------- character set

  ghost predicate PrintableAscii(s: string)
  {
    forall i | 0 <= i < |s| :: 32 <= s[i] as int <= 126
  }

  lemma HexDigitPrintable(d: nat)
    requires d < 16
    ensures 32 <= HexDigit(d) as int <= 126
  {
  }

  lemma UnicodeEscapePrintable(n: nat)
    requires n < 0x10000
    ensures PrintableAscii(UnicodeEscape(n))
  {
    var a, b, c, d := HexDigits(n);
    PaddedHex(n, a, b, c, d);
    HexDigitPrintable(a);
    HexDigitPrintable(b);
    HexDigitPrintable(c);
    HexDigitPrintable(d);
  }

  lemma EscapeCharPrintable(c: char)
    ensures PrintableAscii(EscapeChar(c))
  {
    var codepoint := c as int;
    if codepoint > 65535 {
      UnicodeEscapePrintable(55296 + (codepoint - 65536) / 1024);
      UnicodeEscapePrintable(56320 + (codepoint - 65536) % 1024);
    } else {
      UnicodeEscapePrintable(codepoint);
    }
  }

  lemma {:induction false} EscapeAllPrintable(s: string)
    ensures PrintableAscii(EscapeAll(s))
    decreases |s|
  {
    if s != [] {
      EscapeCharPrintable(s[0]);
      EscapeAllPrintable(s[1..]);
    }
  }

  /** The quoted form is printable ASCII. */
  lemma UnicodeEscapeLower(n: nat, x: char)
    requires n < 0x10000 && x in UnicodeEscape(n)
    ensures !('A' <= x <= 'Z')
  {
    var a, b, c, d := HexDigits(n);
    PaddedHex(n, a, b, c, d);
    assert UnicodeEscape(n) == "\\u" + Hex4(a, b, c, d);
  }

  lemma EscapeCharLower(c: char, x: char)
    requires x in EscapeChar(c) && 'A' <= x <= 'Z'
    ensures x == c
  {
    hide UnicodeEscape;
    var n := c as int;
    if EscapeChar(c) == EscapeCodepoint(n) && !(32 <= n <= 126) {
      if n <= 65535 {
        UnicodeEscapeLower(n, x);
      } else {
        var m := n - 65536;
        if x in UnicodeEscape(55296 + m / 1024) {
          UnicodeEscapeLower(55296 + m / 1024, x);
        } else {
          UnicodeEscapeLower(56320 + m % 1024, x);
        }
      }
    }
  }

  /** Escapes are written with small letters: a capital in the quoted form is one of the text. */
  lemma {:induction false} QuoteCapitals(s: string, x: char)
    requires x in EscapeAll(s) && 'A' <= x <= 'Z'
    ensures x in s
    decreases |s|
  {
    hide EscapeChar;
    if x in EscapeChar(s[0]) {
      EscapeCharLower(s[0], x);
    } else {
      QuoteCapitals(s[1..], x);
    }
  }

  lemma QuotePrintable(s: string)
    ensures PrintableAscii(Quote(s))
  {
    EscapeAllPrintable(s);
  }
}
