/**
 The bytes of JSON text as RFC 8259 has them, written as ASCII: what is printed,
 and which escapes and digits are read.
 */
module JsonRfc {
  import opened Bytes
  import opened Json
  import opened JsonString
  import opened JsonGrammar
  import JsonRoundTrip

  predicate IsAscii(text: string) {
    forall i :: 0 <= i < |text| ==> text[i] as int < 128
  }

  function Ascii(text: string): (b: bytes)
    requires IsAscii(text)
    ensures |b| == |text|
  {
    seq(|text|, i requires 0 <= i < |text| => text[i] as int)
  }

  /** The texts with a separator between each two. */
  function Join(texts: seq<bytes>, separator: bytes): bytes {
    if texts == [] then []
    else if |texts| == 1 then texts[0]
    else texts[0] + separator + Join(texts[1..], separator)
  }

  // ------------------------------------------------------------------
  // Tokens
  // ------------------------------------------------------------------

  /** The three names (section 3). */
  lemma Names(depth: nat, format: bool)
    ensures Render(Null, depth, format) == Ascii("null")
    ensures Render(Bool(true), depth, format) == Ascii("true")
    ensures Render(Bool(false), depth, format) == Ascii("false")
  {
  }

  /** The number that decimal digits stand for. */
  function Horner(digits: bytes): int {
    if digits == [] then 0 else Horner(digits[..|digits| - 1]) * 10 + digits[|digits| - 1] - 48
  }

  lemma {:induction false} DigitsAreTheNumber(n: nat)
    ensures Horner(Digits(n)) == n && forall i :: 0 <= i < |Digits(n)| ==> 48 <= Digits(n)[i] <= 57
    ensures Digits(n)[0] == 48 ==> n == 0 && |Digits(n)| == 1
    decreases n
  {
    var text := Digits(n);
    if n < 10 {
      assert text[..0] == [];
    } else {
      DigitsAreTheNumber(n / 10);
      assert text[..|text| - 1] == Digits(n / 10);
    }
  }

  /** A number is its decimal digits without leading zeros, after a minus sign if it is negative (section 6). */
  lemma NumberText(n: Int32, depth: nat, format: bool)
    ensures var text := Render(Number(n), depth, format);
            var digits := if n < 0 then text[1..] else text;
            && (n < 0 ==> text[..1] == Ascii("-"))
            && digits != [] && (forall i :: 0 <= i < |digits| ==> 48 <= digits[i] <= 57) && (digits[0] == 48 ==> |digits| == 1)
            && n == if n < 0 then -Horner(digits) else Horner(digits)
  {
    var magnitude: int := if n < 0 then 0 - n else n;
    DigitsAreTheNumber(magnitude);
    assert n < 0 ==> Decimal(n)[1..] == Digits(magnitude);
  }

  /** Digits, and the characters that are collected for a number. */
  lemma NumberCharacters(c: byte)
    ensures Digit(c) <==> c in Ascii("0123456789")
    ensures NumberChar(c) <==> c in Ascii("0123456789+-eE.")
  {
    assert Ascii("0123456789") == [48, 49, 50, 51, 52, 53, 54, 55, 56, 57];
    assert Ascii("0123456789+-eE.") == [48, 49, 50, 51, 52, 53, 54, 55, 56, 57, 43, 45, 101, 69, 46];
  }

  ghost predicate AreDigits(s: bytes) {
    forall i :: 0 <= i < |s| ==> 48 <= s[i] <= 57
  }

  lemma {:induction false} HornerValue(digits: bytes)
    requires AreDigits(digits)
    ensures (forall i :: 0 <= i < |digits| ==> Digit(digits[i])) && DigitsValue(digits, 0) == Horner(digits)
    decreases |digits|
  {
    if digits != [] {
      var n := |digits| - 1;
      HornerValue(digits[..n]);
      assert digits == digits[..n] + [digits[n]];
      JsonRoundTrip.ValueSnoc(digits[..n], digits[n], 0);
    }
  }

  lemma {:induction false} DigitsThenTail(digits: bytes, tail: bytes)
    requires AreDigits(digits) && (tail == [] || !(48 <= tail[0] <= 57))
    ensures DigitRun(digits + tail) == |digits|
  {
    if digits == [] {
      assert digits + tail == tail;
    } else {
      assert (digits + tail)[1..] == digits[1..] + tail;
      DigitsThenTail(digits[1..], tail);
    }
  }

  lemma Parts(sign: bytes, digits: bytes, tail: bytes)
    ensures var run := sign + digits + tail;
            && run[|sign|..] == digits + tail && run[|sign|..|sign| + |digits|] == digits
            && (tail != [] ==> run[|sign| + |digits|] == tail[0])
            && (sign != [] ==> run[0] == sign[0])
            && (sign == [] && digits != [] ==> run[0] == digits[0])
  {
  }

  /** The number that a sign and digits stand for. */
  function SignedNumber(sign: bytes, digits: bytes): int {
    if sign == [] then Horner(digits) else -Horner(digits)
  }

  /**
   A run of number characters is read up to the end of its first digits when a
   sign or nothing follows them: as those digits' number, negated behind a minus
   sign, if it has 32 bits.  A fraction or an exponent is not read here.
   */
  lemma IntegerRead(sign: bytes, digits: bytes, tail: bytes)
    requires sign == [45] || (sign == [] && digits != [])
    requires AreDigits(digits) && (tail == [] || !(48 <= tail[0] <= 57))
    ensures ReadInteger(sign + digits + tail) ==
      if digits != [] && (tail == [] || tail[0] == 43 || tail[0] == 45)
         && -2147483648 <= SignedNumber(sign, digits) < 2147483648
      then Some((SignedNumber(sign, digits), |sign| + |digits|)) else None
  {
    hide DigitsValue;
    hide DigitRun;
    hide Horner;
    HornerValue(digits);
    DigitsThenTail(digits, tail);
    Parts(sign, digits, tail);
  }

  // ------------------------------------------------------------------
  // Strings (section 7)
  // ------------------------------------------------------------------

  function EscapeText(c: byte): bytes {
    if c == 34 then Ascii("\\\"")
    else if c == 92 then Ascii("\\\\")
    else if c == 8 then Ascii("\\b")
    else if c == 12 then Ascii("\\f")
    else if c == 10 then Ascii("\\n")
    else if c == 13 then Ascii("\\r")
    else if c == 9 then Ascii("\\t")
    else if c < 32 then Ascii("\\u00") + [Ascii("0123456789abcdef")[c / 16], Ascii("0123456789abcdef")[c % 16]]
    else [c]
  }

  lemma HexDigitText(d: nat)
    requires d < 16
    ensures HexDigit(d) == Ascii("0123456789abcdef")[d]
  {
  }

  /** Quotes, backslashes and control characters are escaped, and nothing else is. */
  lemma EscapedByte(c: byte)
    ensures Escape(c) == EscapeText(c)
  {
    if c < 32 {
      HexDigitText(c / 16);
      HexDigitText(c % 16);
      hide HexDigit;
    }
  }

  lemma {:induction false} StringText(s: bytes, depth: nat, format: bool)
    ensures Render(String(s), depth, format)
         == Ascii("\"") + Join(seq(|s|, i requires 0 <= i < |s| => EscapeText(s[i])), []) + Ascii("\"")
  {
    EscapesJoin(s);
  }

  lemma {:induction false} EscapesJoin(s: bytes)
    ensures EscapeAll(s) == Join(seq(|s|, i requires 0 <= i < |s| => EscapeText(s[i])), [])
  {
    hide EscapeText;
    hide Escape;
    hide Ascii;
    var texts := seq(|s|, i requires 0 <= i < |s| => EscapeText(s[i]));
    if s != [] {
      EscapedByte(s[0]);
      EscapesJoin(s[1..]);
      assert texts[1..] == seq(|s| - 1, i requires 0 <= i < |s| - 1 => EscapeText(s[1..][i]));
      if |s| == 1 {
        assert EscapeAll(s[1..]) == [];
      }
    }
  }

  /** The escapes of one character that are read. */
  lemma ShortEscapes(c: byte)
    ensures ShortEscape(c) ==
      if c == Ascii("b")[0] then Some(8) else if c == Ascii("f")[0] then Some(12)
      else if c == Ascii("n")[0] then Some(10) else if c == Ascii("r")[0] then Some(13)
      else if c == Ascii("t")[0] then Some(9)
      else if c in Ascii("\"\\/") then Some(c) else None
  {
    var same := Ascii("\"\\/");
    assert same == [34, 92, 47];
  }

  /** The digits that are read in an escape of four. */
  lemma HexDigits(c: byte, d: nat)
    requires d < 16
    ensures HexNibble(c) == Some(d) <==> c == Ascii("0123456789abcdef")[d] || c == Ascii("0123456789ABCDEF")[d]
  {
  }

  lemma {:induction false} FourDigits(h: bytes, d: seq<nat>)
    requires |h| == |d| == 4 && forall i :: 0 <= i < 4 ==> d[i] < 16 && HexNibble(h[i]) == Some(d[i])
    ensures Hex4(h) == ((d[0] * 16 + d[1]) * 16 + d[2]) * 16 + d[3]
  {
    hide HexNibble;
  }

  /** The two halves of a surrogate pair have 110110 and 110111 for their top six bits (RFC 2781, section 2.2). */
  lemma SurrogateBits(n: nat)
    requires n < 65536
    ensures HighSurrogate(n) <==> n / 1024 == 54
    ensures LowSurrogate(n) <==> n / 1024 == 55
  {
  }

  // ------------------------------------------------------------------
  // Arrays and objects (sections 4 and 5)
  // ------------------------------------------------------------------

  function ItemTexts(items: seq<Json>, depth: nat, format: bool): seq<bytes> {
    seq(|items|, i requires 0 <= i < |items| => Render(items[i], depth, format))
  }

  lemma {:induction false} ItemsJoin(items: seq<Json>, depth: nat, format: bool)
    ensures RenderItems(items, depth, format) == Join(ItemTexts(items, depth, format), if format then Ascii(", ") else Ascii(","))
  {
    hide Render;
    if |items| > 1 {
      ItemsJoin(items[1..], depth, format);
      assert ItemTexts(items, depth, format)[1..] == ItemTexts(items[1..], depth, format);
      assert CommaText(format) == if format then Ascii(", ") else Ascii(",");
    }
  }

  /** An array is its items between brackets, with commas between them. */
  lemma ArrayText(items: seq<Json>, depth: nat, format: bool)
    ensures Render(Array(items), depth, format)
         == Ascii("[") + Join(ItemTexts(items, depth + 1, format), if format then Ascii(", ") else Ascii(",")) + Ascii("]")
  {
    ItemsJoin(items, depth + 1, format);
    assert Ascii("[") == [LBRACKET] && Ascii("]") == [RBRACKET];
  }

  function Repeat(c: byte, n: nat): bytes {
    if n == 0 then [] else [c] + Repeat(c, n - 1)
  }

  lemma {:induction false} TabsRepeat(n: nat)
    ensures Tabs(n) == Repeat(9, n)
  {
    if n > 0 {
      TabsRepeat(n - 1);
      assert Tabs(n) == [9] + Tabs(n - 1);
    }
  }

  /** A member is its key, a colon and its value; formatted, it is indented and has a tab behind the colon. */
  function MemberText(m: Member, depth: nat, format: bool): bytes {
    (if format then Repeat(9, depth) else []) + Render(String(m.key), depth, format)
    + (if format then Ascii(":\t") else Ascii(":")) + Render(m.value, depth, format)
  }

  function MemberTexts(members: seq<Member>, depth: nat, format: bool): seq<bytes> {
    seq(|members|, i requires 0 <= i < |members| => MemberText(members[i], depth, format))
  }

  function LineBreak(format: bool): bytes {
    if format then Ascii("\n") else []
  }

  lemma MemberIsText(m: Member, depth: nat, format: bool, last: bool)
    ensures RenderMember(m, depth, format, last)
         == MemberText(m, depth, format) + (if last then [] else Ascii(",")) + LineBreak(format)
  {
    hide EscapeAll;
    TabsRepeat(depth);
    hide Tabs;
    hide Repeat;
    assert ColonText(format) == if format then Ascii(":\t") else Ascii(":");
    assert Ascii(",") == [COMMA] && LineEnd(format) == LineBreak(format);
    assert Render(String(m.key), depth, format) == Quoted(m.key);
  }

  lemma {:induction false} MembersJoin(members: seq<Member>, depth: nat, format: bool)
    requires members != []
    ensures RenderMembers(members, depth, format)
         == Join(MemberTexts(members, depth, format), Ascii(",") + LineBreak(format)) + LineBreak(format)
  {
    hide RenderMember;
    hide MemberText;
    MemberIsText(members[0], depth, format, |members| == 1);
    var texts := MemberTexts(members, depth, format);
    if |members| == 1 {
      assert RenderMembers(members[1..], depth, format) == [];
      assert texts[0] + [] + LineBreak(format) + [] == texts[0] + LineBreak(format);
    } else {
      MembersJoin(members[1..], depth, format);
      assert texts[1..] == MemberTexts(members[1..], depth, format);
      JoinedLine(texts[0], Ascii(","), LineBreak(format), Join(texts[1..], Ascii(",") + LineBreak(format)));
    }
  }

  lemma JoinedLine(a: bytes, comma: bytes, line: bytes, later: bytes)
    ensures a + comma + line + (later + line) == a + (comma + line) + later + line
  {
  }

  /** An object is its members between braces, with commas between them; formatted, each has a line of its own. */
  lemma ObjectText(members: seq<Member>, depth: nat, format: bool)
    ensures Render(Object(members), depth, format)
         == Ascii("{") + LineBreak(format)
            + (if members == [] then [] else
                 Join(MemberTexts(members, depth + 1, format), Ascii(",") + LineBreak(format)) + LineBreak(format))
            + (if format then Repeat(9, depth) else []) + Ascii("}")
  {
    hide RenderMember;
    hide MemberTexts;
    if members != [] {
      MembersJoin(members, depth + 1, format);
    }
    TabsRepeat(depth);
    hide Tabs;
    hide Repeat;
    assert Ascii("{") == [LBRACE] && Ascii("}") == [RBRACE] && LineEnd(format) == LineBreak(format);
  }
}
