/** The JSON string printer and parser of the local LLM bridge (section 7 of RFC 8259). Strings are
    sequences of Unicode scalar values. */
module JsonText {
  import opened Wire

  const SPACE := 0x20

  // ---------------------------------------------------------------- printing

  function HexDigit(n: nat): char
    requires n < 16
  {
    "0123456789abcdef"[n]
  }

  /** The escape of one character; a control character without a short form becomes \u00xx. */
  function Escaped(ch: char): string {
    if ch == '"' then ['\\', '"']
    else if ch == '\\' then ['\\', '\\']
    else if ch == '\n' then ['\\', 'n']
    else if ch == '\r' then ['\\', 'r']
    else if ch == '\t' then ['\\', 't']
    else if ch as int < SPACE then ['\\', 'u', '0', '0', HexDigit(ch as int / 16), HexDigit(ch as int % 16)]
    else [ch]
  }

  function EscapedAll(s: string): string {
    if s == "" then "" else EscapedAll(s[..|s| - 1]) + Escaped(s[|s| - 1])
  }

  /** `local_llm_json_string` */
  method Print(value: string) returns (out: string)
    ensures out == "\"" + EscapedAll(value) + "\""
  {
    hide Escaped;
    out := "\"";
    var i := 0;
    while i < |value|
      invariant 0 <= i <= |value| && out == "\"" + EscapedAll(value[..i])
    {
      assert value[..i + 1][..i] == value[..i];
      out := out + Escaped(value[i]);
      i := i + 1;
    }
    assert value[..i] == value;
    out := out + "\"";
  }

  // ---------------------------------------------------------------- parsing

  function HexValue(ch: char): (r: Option<nat>)
    ensures r.Some? ==> r.value < 16
  {
    if '0' <= ch <= '9' then Some(ch as int - '0' as int)
    else if 'a' <= ch <= 'f' then Some(ch as int - 'a' as int + 10)
    else if 'A' <= ch <= 'F' then Some(ch as int - 'A' as int + 10)
    else None
  }

  /** The character is the hexadecimal digit of this value, in either case. */
  predicate IsHexDigit(ch: char, n: nat) {
    n < 16 && (ch == "0123456789abcdef"[n] || ch == "0123456789ABCDEF"[n])
  }

  /** All characters are hexadecimal digits. */
  predicate AllHex(s: string) {
    forall k :: 0 <= k < |s| ==> s[k] in "0123456789abcdefABCDEF"
  }

  /** A character has a value exactly if it is a hexadecimal digit, and then that digit's. */
  lemma HexValueIs(ch: char, n: nat)
    ensures HexValue(ch) == Some(n) <==> IsHexDigit(ch, n)
  {
    if n < 16 {
      OneOfSixteen(n);
    }
  }

  lemma OneOfSixteen(n: nat)
    requires n < 16
    ensures n in {0, 1, 2, 3, 4, 5, 6, 7, 8, 9, 10, 11, 12, 13, 14, 15}
  {}

  /** Four hexadecimal digits, most significant first. */
  function Hex4(s: string): (r: Option<nat>)
    ensures r.Some? ==> r.value < 0x10000
  {
    if |s| != 4 then None
    else
      match (HexValue(s[0]), HexValue(s[1]), HexValue(s[2]), HexValue(s[3]))
      case (Some(a), Some(b), Some(c), Some(d)) =>
        Some(((a * 16 + b) * 16 + c) * 16 + d)
      case _ => None
  }

  /** Four characters give the number they spell exactly if each is a digit. */
  lemma Hex4Is(s: string)
    ensures Hex4(s).Some? <==> |s| == 4 && AllHex(s)
    ensures forall a: nat, b: nat, c: nat, d: nat :: |s| == 4 && IsHexDigit(s[0], a) && IsHexDigit(s[1], b) && IsHexDigit(s[2], c) && IsHexDigit(s[3], d) ==>
              Hex4(s) == Some(0x1000 * a + 0x100 * b + 0x10 * c + d)
  {
    hide HexValue, IsHexDigit;
    if |s| == 4 {
      HasValue(s[0]);
      HasValue(s[1]);
      HasValue(s[2]);
      HasValue(s[3]);
      assert Hex4(s).Some? <==> HexValue(s[0]).Some? && HexValue(s[1]).Some? && HexValue(s[2]).Some? && HexValue(s[3]).Some?;
    }
  }

  lemma HasValue(ch: char)
    ensures HexValue(ch).Some? <==> ch in "0123456789abcdefABCDEF"
    ensures forall n: nat :: IsHexDigit(ch, n) ==> HexValue(ch) == Some(n)
  {
    hide HexValue, IsHexDigit;
    forall n: nat ensures HexValue(ch) == Some(n) <==> IsHexDigit(ch, n) {
      HexValueIs(ch, n);
    }
    DigitOrLetter(ch);
  }

  lemma DigitOrLetter(ch: char)
    ensures HexValue(ch).Some? <==> ch in "0123456789abcdefABCDEF"
  {
    var digits := "0123456789abcdefABCDEF";
    if HexValue(ch).Some? {
      OneOfSixteen(HexValue(ch).value);
    }
    if k :| 0 <= k < |digits| && digits[k] == ch {
      assert k < 10 || k == 10 || k == 11 || k == 12 || k == 13 || k == 14 || k == 15
          || k == 16 || k == 17 || k == 18 || k == 19 || k == 20 || k == 21;
      assert k < 10 ==> k in {0, 1, 2, 3, 4, 5, 6, 7, 8, 9};
    }
  }

  /** `local_llm_decode_json_hex4` */
  method DecodeHex4(s: string) returns (r: Option<nat>)
    ensures r == Hex4(s)
    ensures r.Some? <==> |s| == 4 && AllHex(s)
    ensures forall a: nat, b: nat, c: nat, d: nat :: |s| == 4 && IsHexDigit(s[0], a) && IsHexDigit(s[1], b) && IsHexDigit(s[2], c) && IsHexDigit(s[3], d) ==>
              r == Some(0x1000 * a + 0x100 * b + 0x10 * c + d)
  {
    hide HexValue, IsHexDigit, AllHex;
    Hex4Is(s);
    if |s| != 4 {
      return None;
    }
    var value := 0;
    var i := 0;
    while i < 4
      invariant 0 <= i <= 4
      invariant forall k :: 0 <= k < i ==> HexValue(s[k]).Some?
      invariant i == 0 ==> value == 0
      invariant i == 1 ==> value == HexValue(s[0]).value
      invariant i == 2 ==> value == HexValue(s[0]).value * 16 + HexValue(s[1]).value
      invariant i == 3 ==> value == (HexValue(s[0]).value * 16 + HexValue(s[1]).value) * 16 + HexValue(s[2]).value
      invariant i == 4 ==> Some(value) == Hex4(s)
    {
      var digit := HexValue(s[i]);
      if digit.None? {
        return None;
      }
      value := value * 16 + digit.value;
      i := i + 1;
    }
    r := Some(value);
  }

  /** `char::from_u32(value).unwrap_or('\u{fffd}')`: surrogates become the replacement character. */
  function CharOf(value: nat): char
    requires value < 0x10000
  {
    if 0xD800 <= value < 0xE000 then '\U{FFFD}' else value as char
  }

  function Unescaped(ch: char): Option<char> {
    match ch
    case '"' => Some('"')
    case '\\' => Some('\\')
    case '/' => Some('/')
    case 'b' => Some(8 as char)
    case 'f' => Some(12 as char)
    case 'n' => Some('\n')
    case 'r' => Some('\r')
    case 't' => Some('\t')
    case _ => None
  }

  datatype Token = Done | Bad | Char(ch: char, width: nat)

  /** What the parser makes of the input at `i`: the closing quote, an error, or one character. */
  function TokenAt(input: string, i: nat): (t: Token)
    requires i < |input|
    ensures t.Char? ==> 0 < t.width && i + t.width <= |input|
  {
    var ch := input[i];
    if ch == '"' then Done
    else if ch == '\\' then
      if i + 1 >= |input| then Bad
      else if input[i + 1] == 'u' then
        if i + 6 > |input| then Bad
        else
          match Hex4(input[i + 2..i + 6])
          case None => Bad
          case Some(value) => Char(CharOf(value), 6)
      else
        match Unescaped(input[i + 1])
        case None => Bad
        case Some(c) => Char(c, 2)
    else if ch as int < SPACE then Bad
    else Char(ch, 1)
  }

  /** The characters that may follow a backslash, `u` apart, and the code points they stand for. */
  const LETTERS := ['"', '\\', '/', 'b', 'f', 'n', 'r', 't']
  const MEANINGS := [0x22, 0x5c, 0x2f, 0x08, 0x0c, 0x0a, 0x0d, 0x09]

  /** What every character of a document is taken for. A short escape means what section 7 of RFC 8259 says, and
      any other letter is an error; a raw control character is an error, and so are an escape cut short by
      the end of the input and a \u without four hexadecimal digits. */
  lemma TokenMeanings(input: string, i: nat)
    requires i < |input|
    ensures input[i] == '"' ==> TokenAt(input, i) == Done
    ensures input[i] != '"' && input[i] != '\\' ==> TokenAt(input, i) == if input[i] as int < 0x20 then Bad else Char(input[i], 1)
    ensures input[i] == '\\' && i + 1 == |input| ==> TokenAt(input, i) == Bad
    ensures input[i] == '\\' && i + 1 < |input| && input[i + 1] != 'u' ==>
              if input[i + 1] in LETTERS then forall k :: 0 <= k < |LETTERS| && input[i + 1] == LETTERS[k] ==> TokenAt(input, i) == Char(MEANINGS[k] as char, 2)
              else TokenAt(input, i) == Bad
    ensures input[i] == '\\' && i + 1 < |input| && input[i + 1] == 'u' ==>
              (TokenAt(input, i) == Bad <==> i + 6 > |input| || !AllHex(input[i + 2..i + 6]))
  {
    hide Hex4, HexValue, IsHexDigit, AllHex, CharOf;
    if input[i] == '\\' && i + 1 < |input| {
      if input[i + 1] == 'u' {
        if i + 6 <= |input| {
          Hex4Is(input[i + 2..i + 6]);
        }
      } else {
        ShortEscape(input[i + 1]);
      }
    }
  }

  lemma ShortEscape(ch: char)
    ensures if ch in LETTERS then forall k :: 0 <= k < |LETTERS| && ch == LETTERS[k] ==> Unescaped(ch) == Some(MEANINGS[k] as char)
            else Unescaped(ch) == None
  {}

  /** The string that the characters from `i` on decode to, up to the closing quote. */
  function DecodeFrom(input: string, i: nat): Option<string>
    requires i <= |input|
    decreases |input| - i
  {
    if i == |input| then None
    else
      match TokenAt(input, i)
      case Done => Some("")
      case Bad => None
      case Char(ch, width) =>
        match DecodeFrom(input, i + width)
        case None => None
        case Some(rest) => Some([ch] + rest)
  }

  function Decoded(input: string): Option<string> {
    if input == "" || input[0] != '"' then None else DecodeFrom(input, 1)
  }

  /** From position `i` the input holds the characters of `s`, one token each, and then the closing quote. */
  ghost predicate Spelled(input: string, i: nat, s: string)
    decreases |s|
  {
    && i < |input|
    && if s == "" then TokenAt(input, i) == Done
       else TokenAt(input, i).Char? && TokenAt(input, i).ch == s[0] && Spelled(input, i + TokenAt(input, i).width, s[1..])
  }

  lemma {:induction false} DecodeIsSpelled(input: string, i: nat, s: string)
    requires i <= |input|
    ensures DecodeFrom(input, i) == Some(s) <==> Spelled(input, i, s)
    decreases |input| - i
  {
    hide TokenAt;
    if i < |input| && TokenAt(input, i).Char? {
      var ch, next := TokenAt(input, i).ch, i + TokenAt(input, i).width;
      if s != "" {
        DecodeIsSpelled(input, next, s[1..]);
        assert s == [s[0]] + s[1..];
      }
      if DecodeFrom(input, i) == Some(s) {
        assert s[1..] == DecodeFrom(input, next).value;
      }
    }
  }

  /** A document text decodes to a string if and only if it begins with a quote and spells that string. */
  lemma DecodedIsSpelled(input: string, s: string)
    ensures Decoded(input) == Some(s) <==> input != "" && input[0] == '"' && Spelled(input, 1, s)
  {
    hide DecodeFrom;
    if input != "" {
      DecodeIsSpelled(input, 1, s);
    }
  }

  /** `local_llm_decode_json_string` */
  method Decode(input: string) returns (r: Option<string>)
    ensures r == Decoded(input)
  {
    hide TokenAt;
    if |input| == 0 || input[0] != '"' {
      return None;
    }
    var out := "";
    var i := 1;
    assert forall rest: string :: "" + rest == rest;
    while i < |input|
      invariant 1 <= i <= |input|
      invariant Decoded(input) == match DecodeFrom(input, i) case None => None case Some(rest) => Some(out + rest)
      decreases |input| - i
    {
      var token := NextToken(input, i);
      match token {
        case Done =>
          assert out + "" == out;
          return Some(out);
        case Bad => return None;
        case Char(ch, width) =>
          assert forall rest: string :: out + ([ch] + rest) == out + [ch] + rest;
          out := out + [ch];
          i := i + width;
      }
    }
    r := None;
  }

  /** The match in the parser's loop. */
  method NextToken(input: string, i: nat) returns (t: Token)
    requires i < |input|
    ensures t == TokenAt(input, i)
  {
    var ch := input[i];
    if ch == '"' {
      return Done;
    }
    if ch == '\\' {
      if i + 1 >= |input| {
        return Bad;
      }
      if input[i + 1] == 'u' {
        if i + 6 > |input| {
          return Bad;
        }
        var value := DecodeHex4(input[i + 2..i + 6]);
        return if value.None? then Bad else Char(CharOf(value.value), 6);
      }
      var escaped := Unescaped(input[i + 1]);
      return if escaped.None? then Bad else Char(escaped.value, 2);
    }
    t := if ch as int < SPACE then Bad else Char(ch, 1);
  }

  // ---------------------------------------------------------------- round trip

  /** Wherever it stands, the escape of a character is read as that character, whole. */
  lemma EscapeIsOneToken(input: string, i: nat, ch: char)
    requires i + |Escaped(ch)| <= |input| && input[i..i + |Escaped(ch)|] == Escaped(ch)
    ensures |Escaped(ch)| > 0 && TokenAt(input, i) == Char(ch, |Escaped(ch)|)
  {
    var e := Escaped(ch);
    var part := input[i..i + |e|];
    assert input[i] == part[0];
    if |e| >= 2 {
      assert input[i + 1] == part[1];
    }
    if |e| == 6 {
      assert input[i + 2..i + 6] == e[2..6];
      ControlHex(ch);
    }
  }

  lemma ControlHex(ch: char)
    requires ch as int < SPACE
    ensures var hi, lo := ch as int / 16, ch as int % 16;
            Hex4(['0', '0', HexDigit(hi), HexDigit(lo)]) == Some(ch as nat) && CharOf(ch as nat) == ch
  {
    HexDigitValue(ch as int / 16);
    HexDigitValue(ch as int % 16);
    HexDigitValue(0);
  }

  lemma HexDigitValue(n: nat)
    requires n < 16
    ensures HexValue(HexDigit(n)) == Some(n)
  {
    assert n == 0 || n == 1 || n == 2 || n == 3 || n == 4 || n == 5 || n == 6 || n == 7
        || n == 8 || n == 9 || n == 10 || n == 11 || n == 12 || n == 13 || n == 14 || n == 15;
  }

  lemma {:induction false} EscapedSplit(s: string, n: nat)
    requires n < |s|
    ensures EscapedAll(s[n..]) == Escaped(s[n]) + EscapedAll(s[n + 1..])
    decreases |s| - n
  {
    hide Escaped;
    var t := s[n..];
    if n + 1 == |s| {
      assert t[..0] == "" && s[n + 1..] == "";
    } else {
      var last := |s| - 1;
      EscapedSplit(s[..last], n);
      assert s[..last][n..] == t[..|t| - 1];
      assert s[..last][n + 1..] == s[n + 1..][..|s| - n - 2];
    }
  }

  lemma {:induction false} DecodeEscaped(s: string, n: nat, prefix: string, t: string)
    requires n <= |s|
    ensures DecodeFrom(prefix + EscapedAll(s[n..]) + "\"" + t, |prefix|) == Some(s[n..])
    decreases |s| - n
  {
    hide Escaped, TokenAt;
    var input := prefix + EscapedAll(s[n..]) + "\"" + t;
    if n == |s| {
      assert input[|prefix|] == '"';
      QuoteEnds(input, |prefix|);
    } else {
      EscapedSplit(s, n);
      var e := Escaped(s[n]);
      assert input == prefix + e + EscapedAll(s[n + 1..]) + "\"" + t;
      assert input[|prefix|..|prefix| + |e|] == e;
      EscapeIsOneToken(input, |prefix|, s[n]);
      DecodeEscaped(s, n + 1, prefix + e, t);
      assert [s[n]] + s[n + 1..] == s[n..];
    }
  }

  lemma QuoteEnds(input: string, i: nat)
    requires i < |input| && input[i] == '"'
    ensures TokenAt(input, i) == Done
  {}

  /** For every string and whatever follows it in the document: decoding what was printed gives the
      string back. */
  lemma JsonRoundTrip(s: string, t: string)
    ensures Decoded("\"" + EscapedAll(s) + "\"" + t) == Some(s)
  {
    hide EscapedAll, DecodeFrom;
    assert s[0..] == s;
    DecodeEscaped(s, 0, "\"", t);
  }

  /** A \u escape gives the code unit it names if and only if that is no surrogate. */
  lemma UnicodeEscape(input: string, i: nat, value: nat)
    requires i + 6 <= |input| && input[i] == '\\' && input[i + 1] == 'u' && Hex4(input[i + 2..i + 6]) == Some(value)
    ensures TokenAt(input, i).Char? && TokenAt(input, i).width == 6
    ensures TokenAt(input, i).ch as nat == value <==> !(0xD800 <= value < 0xE000)
    ensures 0xD800 <= value < 0xE000 ==> TokenAt(input, i).ch == '\U{FFFD}'
  {}

  /** So a surrogate pair, which section 7 of RFC 8259 reads as one character, becomes two replacement
      characters. */
  lemma SurrogatePairIsLost()
    ensures Decoded("\"\\ud83d\\ude00\"") == Some("\U{FFFD}\U{FFFD}")
  {
    hide TokenAt;
    var input := "\"\\ud83d\\ude00\"";
    assert |input| == 14 && input[13] == '"';
    assert input[3..7] == "d83d" && input[9..13] == "de00";
    UnicodeEscape(input, 1, 0xd83d);
    UnicodeEscape(input, 7, 0xde00);
    QuoteEnds(input, 13);
    assert DecodeFrom(input, 13) == Some("");
    var lost := ['\U{FFFD}'];
    assert lost + "" == lost && lost + lost == "\U{FFFD}\U{FFFD}";
    assert DecodeFrom(input, 7) == Some(lost);
  }

  /** How each character is printed: the short escapes, four lower-case digits for any other control character, and
      everything else as it is. */
  lemma EscapeForms(ch: char)
    ensures ch == '"' ==> Escaped(ch) == "\\\""
    ensures ch == '\\' ==> Escaped(ch) == "\\\\"
    ensures ch as int == 0x0a ==> Escaped(ch) == "\\n"
    ensures ch as int == 0x0d ==> Escaped(ch) == "\\r"
    ensures ch as int == 0x09 ==> Escaped(ch) == "\\t"
    ensures ch as int < 0x20 && ch as int !in {0x0a, 0x0d, 0x09} ==>
              && |Escaped(ch)| == 6 && Escaped(ch)[..4] == "\\u00" && Hex4(Escaped(ch)[2..]) == Some(ch as nat)
              && Escaped(ch)[4] in "01" && Escaped(ch)[5] in "0123456789abcdef"
    ensures ch as int >= 0x20 && ch != '"' && ch != '\\' ==> Escaped(ch) == [ch]
  {
    hide HexDigit, Hex4;
    if ch as int < 0x20 && ch as int !in {0x0a, 0x0d, 0x09} {
      var hi, lo := ch as int / 16, ch as int % 16;
      ControlHex(ch);
      assert Escaped(ch)[2..] == ['0', '0', HexDigit(hi), HexDigit(lo)];
      LowerCase(hi);
      LowerCase(lo);
    }
  }

  lemma LowerCase(n: nat)
    requires n < 16
    ensures HexDigit(n) in "0123456789abcdef" && (n < 2 ==> HexDigit(n) in "01")
  {
    assert "0123456789abcdef"[n] in "0123456789abcdef";
  }

  /** A printed string holds no raw control character. */
  lemma {:induction false} PrintedIsClean(s: string)
    ensures forall i :: 0 <= i < |EscapedAll(s)| ==> EscapedAll(s)[i] as int >= SPACE
  {
    hide Escaped;
    if s != "" {
      PrintedIsClean(s[..|s| - 1]);
      EscapedIsClean(s[|s| - 1]);
    }
  }

  lemma EscapedIsClean(ch: char)
    ensures forall i :: 0 <= i < |Escaped(ch)| ==> Escaped(ch)[i] as int >= SPACE
  {
    if |Escaped(ch)| == 6 {
      HexDigitPrintable(ch as int / 16);
      HexDigitPrintable(ch as int % 16);
    }
  }

  lemma HexDigitPrintable(n: nat)
    requires n < 16
    ensures HexDigit(n) as int >= SPACE
  {
    HexDigitValue(n);
  }
}
