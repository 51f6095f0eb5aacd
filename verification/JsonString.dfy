/**
 Decoding string literals.

 cJSON scans a literal twice: once to find its end and to bound the length of
 its value, once to decode it.  On malformed escapes the two scans may cut the
 text up differently; the second one fits the bound of the first all the same.
 */
module JsonString {
  import opened Bytes
  import opened Json

  // ------------------------------------------------------------------
  // The first scan
  // ------------------------------------------------------------------

  /** Index of the closing quote in the text after the opening one. */
  function ScanEnd(t: bytes): (end: Option<nat>)
    ensures end.Some? ==> end.value < |t| && t[end.value] == QUOTE
  {
    if t == [] then None
    else if t[0] == QUOTE then Some(0)
    else if t[0] == BACKSLASH then
      if |t| < 2 then None else
        match ScanEnd(t[2..]) case None => None case Some(n) => Some(n + 2)
    else match ScanEnd(t[1..]) case None => None case Some(n) => Some(n + 1)
  }

  /** Does the byte at the front start an escape, for a scan that stands between tokens or inside one? */
  predicate StartsEscape(u: bytes, between: bool)
    requires u != []
  {
    between && u[0] == BACKSLASH
  }

  /**
   How many escapes the first scan skips in u, the rest of a literal with its
   closing quote, when it stands between tokens there or not.
   */
  function Escapes(u: bytes, between: bool): nat {
    if |u| <= 1 then 0 else
      (if StartsEscape(u, between) then 1 else 0) + Escapes(u[1..], !StartsEscape(u, between))
  }

  /** The first scan, standing there, ends at the last byte of u. */
  predicate EndsAtLast(u: bytes, between: bool) {
    u != [] && (if |u| == 1 then between else EndsAtLast(u[1..], !StartsEscape(u, between)))
  }

  /** Room for output that the first scan reserves for u. */
  function Reserve(u: bytes, between: bool): int {
    |u| - 1 - Escapes(u, between)
  }

  lemma {:induction false} ScanEndsAtLast(t: bytes)
    requires ScanEnd(t).Some?
    ensures EndsAtLast(t[..ScanEnd(t).value + 1], true)
    decreases |t|
  {
    var u := t[..ScanEnd(t).value + 1];
    if t[0] == BACKSLASH {
      ScanEndsAtLast(t[2..]);
      assert u[1..][1..] == t[2..][..ScanEnd(t[2..]).value + 1];
      assert EndsAtLast(u[1..], false);
    } else if t[0] != QUOTE {
      ScanEndsAtLast(t[1..]);
      assert u[1..] == t[1..][..ScanEnd(t[1..]).value + 1];
    }
  }

  // ------------------------------------------------------------------
  // Code points
  // ------------------------------------------------------------------

  /** A hexadecimal digit, or None. */
  function HexNibble(c: byte): (d: Option<nat>)
    ensures d.Some? ==> d.value < 16
  {
    if 48 <= c <= 57 then Some(c - 48)
    else if 65 <= c <= 70 then Some(c - 55)
    else if 97 <= c <= 102 then Some(c - 87)
    else None
  }

  /** parse_hex4: the number, or 0 when some digit is not hexadecimal. */
  function Hex4(h: bytes): (n: nat)
    requires |h| == 4
    ensures n < 0x1_0000
  {
    match (HexNibble(h[0]), HexNibble(h[1]), HexNibble(h[2]), HexNibble(h[3]))
    case (Some(a), Some(b), Some(c), Some(d)) => HexNumber(a, b, c, d)
    case _ => 0
  }

  function HexNumber(a: nat, b: nat, c: nat, d: nat): nat {
    a * 0x1000 + b * 0x100 + c * 0x10 + d
  }

  type CodePoint = x: int | 0 <= x <= 0x10_FFFF

  /** UTF-8 (RFC 3629, section 3). */
  function Utf8(c: CodePoint): (b: bytes)
    ensures 1 <= |b| <= 4 && (c < 0x1_0000 ==> |b| <= 3)
  {
    if c < 0x80 then [c]
    else if c < 0x800 then [0xC0 + c / 0x40, 0x80 + c % 0x40]
    else if c < 0x1_0000 then [0xE0 + c / 0x1000, 0x80 + c / 0x40 % 0x40, 0x80 + c % 0x40]
    else [0xF0 + c / 0x4_0000, 0x80 + c / 0x1000 % 0x40, 0x80 + c / 0x40 % 0x40, 0x80 + c % 0x40]
  }

  /** The number of bytes that the first byte of a UTF-8 sequence announces, and the bits it carries. */
  function Utf8Lead(b: byte): (nat, nat) {
    if b < 0x80 then (1, b)
    else if b < 0xE0 then (2, b % 0x20)
    else if b < 0xF0 then (3, b % 0x10)
    else (4, b % 0x08)
  }

  /** Reading a UTF-8 sequence back: six bits from every byte after the first. */
  function Utf8Read(b: bytes, acc: nat): nat {
    if b == [] then acc else Utf8Read(b[1..], acc * 0x40 + b[0] % 0x40)
  }

  lemma ReadOne(x: byte, rest: bytes, acc: nat)
    ensures Utf8Read([x] + rest, acc) == Utf8Read(rest, acc * 0x40 + x % 0x40)
  {
    assert ([x] + rest)[1..] == rest;
  }

  lemma ReadTwo(x: byte, y: byte, acc: nat)
    ensures Utf8Read([x, y], acc) == (acc * 0x40 + x % 0x40) * 0x40 + y % 0x40
  {
    ReadOne(x, [y], acc);
    ReadOne(y, [], acc * 0x40 + x % 0x40);
    assert [x] + [y] == [x, y] && [y] + [] == [y];
  }

  lemma ReadThree(x: byte, y: byte, z: byte, acc: nat)
    ensures Utf8Read([x, y, z], acc) == ((acc * 0x40 + x % 0x40) * 0x40 + y % 0x40) * 0x40 + z % 0x40
  {
    ReadOne(x, [y, z], acc);
    ReadTwo(y, z, acc * 0x40 + x % 0x40);
    assert [x] + [y, z] == [x, y, z];
  }

  /** The lead bytes carry the top bits, and the others six bits each. */
  lemma LeadTwo(c: nat)
    requires 0x80 <= c < 0x800
    ensures Utf8Lead(0xC0 + c / 0x40) == (2, c / 0x40) && (0x80 + c % 0x40) % 0x40 == c % 0x40
    ensures c / 0x40 * 0x40 + c % 0x40 == c
  {
  }

  lemma LeadThree(c: nat)
    requires 0x800 <= c < 0x1_0000
    ensures Utf8Lead(0xE0 + c / 0x1000) == (3, c / 0x1000)
    ensures (c / 0x1000 * 0x40 + c / 0x40 % 0x40) * 0x40 + c % 0x40 == c
  {
    assert c / 0x1000 == c / 0x40 / 0x40;
  }

  lemma LeadFour(c: nat)
    requires 0x1_0000 <= c <= 0x10_FFFF
    ensures Utf8Lead(0xF0 + c / 0x4_0000) == (4, c / 0x4_0000)
    ensures ((c / 0x4_0000 * 0x40 + c / 0x1000 % 0x40) * 0x40 + c / 0x40 % 0x40) * 0x40 + c % 0x40 == c
  {
    assert c / 0x1000 == c / 0x40 / 0x40 && c / 0x4_0000 == c / 0x1000 / 0x40;
  }

  lemma Trail(d: nat)
    ensures (0x80 + d % 0x40) % 0x40 == d % 0x40
  {
  }

  /** Every code point can be read back from its encoding, and the first byte tells how long that is. */
  lemma Utf8RoundTrip(c: CodePoint)
    ensures var b := Utf8(c); Utf8Lead(b[0]).0 == |b| && Utf8Read(b[1..], Utf8Lead(b[0]).1) == c
  {
    var b := Utf8(c);
    Trail(c);
    Trail(c / 0x40);
    Trail(c / 0x1000);
    if 0x80 <= c < 0x800 {
      assert b[1..] == [b[1]] + [];
      ReadOne(b[1], [], c / 0x40);
      LeadTwo(c);
    } else if 0x800 <= c < 0x1_0000 {
      assert b[1..] == [b[1], b[2]];
      ReadTwo(b[1], b[2], c / 0x1000);
      LeadThree(c);
    } else if 0x1_0000 <= c {
      assert b[1..] == [b[1], b[2], b[3]];
      ReadThree(b[1], b[2], b[3], c / 0x4_0000);
      LeadFour(c);
    }
  }

  /** The mask arithmetic of the encoder's loop, on 32-bit words. */
  lemma ContinuationByte(c: bv32)
    ensures (c | 0x80) & 0xBF == 0x80 + (c & 0x3F)
  {
  }

  predicate HighSurrogate(n: nat) {
    0xD800 <= n <= 0xDBFF
  }

  predicate LowSurrogate(n: nat) {
    0xDC00 <= n <= 0xDFFF
  }

  /** Two halves of a surrogate pair (RFC 2781, section 2.2). */
  function PairValue(high: nat, low: nat): CodePoint
    requires HighSurrogate(high) && LowSurrogate(low)
  {
    0x1_0000 + high % 0x400 * 0x400 + low % 0x400
  }

  // ------------------------------------------------------------------
  // The second scan
  // ------------------------------------------------------------------

  /** What one step of decoding writes, and how much of the text it uses up. */
  datatype Piece = Piece(out: bytes, used: nat)

  /** utf16_literal_to_utf8: u is the rest of the literal with its closing quote, at a \u. */
  function Utf16Piece(u: bytes): (p: Option<Piece>)
    requires |u| >= 2
    ensures p.Some? ==>
      && p.value.used < |u|
      && ((p.value.used == 6 && 1 <= |p.value.out| <= 3) || (p.value.used == 12 && 1 <= |p.value.out| <= 4))
  {
    if |u| - 1 < 6 then None else
      var first := Hex4(u[2..6]);
      if LowSurrogate(first) then None
      else if HighSurrogate(first) then
        if |u| - 1 < 12 || u[6] != BACKSLASH || u[7] != LETTER_U then None else
          var second := Hex4(u[8..12]);
          if LowSurrogate(second) then Some(Piece(Utf8(PairValue(first, second)), 12)) else None
      else Some(Piece(Utf8(first), 6))
  }

  /** The byte that a short escape stands for. */
  function ShortEscape(c: byte): Option<byte> {
    if c == 98 then Some(8)
    else if c == 102 then Some(12)
    else if c == 110 then Some(NEWLINE)
    else if c == 114 then Some(13)
    else if c == 116 then Some(TAB)
    else if c == QUOTE || c == BACKSLASH || c == SLASH then Some(c)
    else None
  }

  function NextPiece(u: bytes): (p: Option<Piece>)
    requires |u| >= 2
    ensures p.Some? ==> 1 <= p.value.used <= |u|
  {
    if u[0] != BACKSLASH then Some(Piece([u[0]], 1))
    else if u[1] == LETTER_U then Utf16Piece(u)
    else match ShortEscape(u[1])
      case None => None
      case Some(c) => Some(Piece([c], 2))
  }

  /** The decoded text of u, the rest of a literal with its closing quote. */
  function Unescape(u: bytes): Option<bytes>
    decreases |u|
  {
    if |u| <= 1 then Some([]) else
      match NextPiece(u)
      case None => None
      case Some(p) =>
        match Unescape(u[p.used..])
        case None => None
        case Some(rest) => Some(p.out + rest)
  }

  /** What a C string of these bytes is: it ends at the first NUL. */
  function UpToNul(s: bytes): (c: bytes)
    ensures CString(c)
  {
    if s == [] || s[0] == 0 then [] else [s[0]] + UpToNul(s[1..])
  }

  lemma {:induction false} CStringIsWhole(s: bytes)
    requires CString(s)
    ensures UpToNul(s) == s
  {
    if s != [] {
      CStringIsWhole(s[1..]);
    }
  }

  // ------------------------------------------------------------------
  // The second scan fits what the first one reserved
  // ------------------------------------------------------------------

  /** Where the first scan stands k bytes further on. */
  function BetweenAfter(u: bytes, between: bool, k: nat): bool
    requires k < |u|
  {
    if k == 0 then between else BetweenAfter(u[1..], !StartsEscape(u, between), k - 1)
  }

  /** k bytes on, the first scan still ends at the last byte, and has skipped at most every other byte. */
  lemma {:induction false} ScanOn(u: bytes, between: bool, k: nat)
    requires k < |u| && EndsAtLast(u, between)
    ensures EndsAtLast(u[k..], BetweenAfter(u, between, k))
    ensures Escapes(u, between) <= Escapes(u[k..], BetweenAfter(u, between, k)) + (k + (if between then 1 else 0)) / 2
    decreases k
  {
    if k == 0 {
      assert u[0..] == u;
    } else {
      ScanOn(u[1..], !StartsEscape(u, between), k - 1);
      assert u[1..][k - 1..] == u[k..];
    }
  }

  /**
   A step of decoding writes no more than the reserve shrinks by, whether or
   not the two scans agree where escapes begin.
   */
  lemma StepFits(u: bytes, between: bool)
    requires |u| >= 2 && EndsAtLast(u, between) && NextPiece(u).Some?
    ensures var p := NextPiece(u).value;
            if p.used < |u|
            then |p.out| + Reserve(u[p.used..], BetweenAfter(u, between, p.used)) <= Reserve(u, between)
            else |p.out| <= Reserve(u, between)
  {
    var p := NextPiece(u).value;
    if p.used == 1 {
      assert BetweenAfter(u, between, 1) == BetweenAfter(u[1..], true, 0);
    } else if p.used < |u| {
      ScanOn(u, between, p.used);
    } else {
      assert EndsAtLast(u[1..], !StartsEscape(u, between));
      assert Escapes(u[1..], !StartsEscape(u, between)) == 0;
    }
  }

  lemma {:induction false} ReserveIsNatural(u: bytes, between: bool)
    requires EndsAtLast(u, between)
    ensures 0 <= Reserve(u, between)
  {
    if |u| > 1 {
      ReserveIsNatural(u[1..], !StartsEscape(u, between));
    }
  }

  /** On every literal the decoded text fits the reserve. */
  lemma {:induction false} DecodedFits(u: bytes, between: bool)
    requires EndsAtLast(u, between) && Unescape(u).Some?
    ensures |Unescape(u).value| <= Reserve(u, between)
    decreases |u|
  {
    if |u| > 1 {
      StepFits(u, between);
      var p := NextPiece(u).value;
      if p.used < |u| {
        ScanOn(u, between, p.used);
        DecodedFits(u[p.used..], BetweenAfter(u, between, p.used));
      }
    }
  }

  // ------------------------------------------------------------------
  // Well-formed literals mean what RFC 8259 says
  // ------------------------------------------------------------------

  /** One item of a string literal (RFC 8259, section 7), as bytes of UTF-8 text. */
  datatype Element = Raw(c: byte) | Short(c: byte) | Unicode(hex: bytes) | Pair(high: bytes, low: bytes)

  predicate IsHex(h: bytes) {
    |h| == 4 && forall i :: 0 <= i < 4 ==> HexNibble(h[i]).Some?
  }

  /** Unescaped bytes are not controls, quotes or backslashes; a surrogate comes only as a high and a low together. */
  predicate WellFormed(e: Element) {
    match e
    case Raw(c) => c >= 32 && c != QUOTE && c != BACKSLASH
    case Short(c) => ShortEscape(c).Some?
    case Unicode(hex) => IsHex(hex) && !HighSurrogate(Hex4(hex)) && !LowSurrogate(Hex4(hex))
    case Pair(high, low) => IsHex(high) && IsHex(low) && HighSurrogate(Hex4(high)) && LowSurrogate(Hex4(low))
  }

  function Text(e: Element): bytes {
    match e
    case Raw(c) => [c]
    case Short(c) => [BACKSLASH, c]
    case Unicode(hex) => [BACKSLASH, LETTER_U] + hex
    case Pair(high, low) => [BACKSLASH, LETTER_U] + high + [BACKSLASH, LETTER_U] + low
  }

  /** The character an item stands for, in UTF-8. */
  function Meaning(e: Element): bytes
    requires WellFormed(e)
  {
    match e
    case Raw(c) => [c]
    case Short(c) => [ShortEscape(c).value]
    case Unicode(hex) => Utf8(Hex4(hex))
    case Pair(high, low) =>
      Utf8(0x1_0000 + (Hex4(high) - 0xD800) * 0x400 + (Hex4(low) - 0xDC00))
  }

  function Texts(es: seq<Element>): bytes {
    if es == [] then [] else Text(es[0]) + Texts(es[1..])
  }

  predicate AllWellFormed(es: seq<Element>) {
    forall i :: 0 <= i < |es| ==> WellFormed(es[i])
  }

  function Meanings(es: seq<Element>): bytes
    requires AllWellFormed(es)
  {
    if es == [] then [] else Meaning(es[0]) + Meanings(es[1..])
  }

  /** The masks and shifts of a surrogate pair, on 32-bit words. */
  lemma PairMasks(first: bv32, second: bv32)
    ensures ((first & 0x3FF) << 10) | (second & 0x3FF) == first % 0x400 * 0x400 + second % 0x400
  {
  }

  lemma SurrogateOffsets(high: nat, low: nat)
    requires HighSurrogate(high) && LowSurrogate(low)
    ensures PairValue(high, low) == 0x1_0000 + (high - 0xD800) * 0x400 + (low - 0xDC00)
  {
    assert high % 0x400 == high - 0xD800 && low % 0x400 == low - 0xDC00;
  }

  /** One step of decoding takes exactly one item. */
  lemma ElementDecodes(e: Element, u: bytes)
    requires WellFormed(e) && u != []
    ensures |Text(e) + u| >= 2
    ensures NextPiece(Text(e) + u) == Some(Piece(Meaning(e), |Text(e)|))
  {
    var t := Text(e) + u;
    match e
    case Raw(_) =>
    case Short(_) =>
    case Unicode(hex) =>
      assert t[2..6] == hex;
    case Pair(high, low) =>
      assert t[2..6] == high && t[8..12] == low && t[6] == BACKSLASH && t[7] == LETTER_U;
      SurrogateOffsets(Hex4(high), Hex4(low));
  }

  lemma {:induction false} LiteralDecodes(es: seq<Element>)
    requires AllWellFormed(es)
    ensures Unescape(Texts(es) + [QUOTE]) == Some(Meanings(es))
  {
    if es != [] {
      var later := Texts(es[1..]) + [QUOTE];
      var u := Texts(es) + [QUOTE];
      assert u == Text(es[0]) + later;
      ElementDecodes(es[0], later);
      LiteralDecodes(es[1..]);
      assert u[|Text(es[0])|..] == later;
    }
  }

  /** Plain bytes are passed over one by one. */
  lemma {:induction false} ScanPlain(plain: bytes, t: bytes)
    requires forall i :: 0 <= i < |plain| ==> plain[i] != QUOTE && plain[i] != BACKSLASH
    requires ScanEnd(t).Some?
    ensures ScanEnd(plain + t) == Some(|plain| + ScanEnd(t).value)
  {
    if plain == [] {
      assert plain + t == t;
    } else {
      ScanPlain(plain[1..], t);
      assert (plain + t)[1..] == plain[1..] + t;
    }
  }

  lemma ScanOnEscape(s: bytes)
    requires |s| >= 2 && s[0] == BACKSLASH && ScanEnd(s[2..]).Some?
    ensures ScanEnd(s) == Some(2 + ScanEnd(s[2..]).value)
  {
  }

  lemma ScanEscape(c: byte, t: bytes)
    requires ScanEnd(t).Some?
    ensures ScanEnd([BACKSLASH, c] + t) == Some(2 + ScanEnd(t).value)
  {
    hide ScanEnd;
    var s := [BACKSLASH, c] + t;
    assert s[2..] == t;
    ScanOnEscape(s);
  }

  /** A \u and its four digits. */
  lemma ScanUnicode(hex: bytes, t: bytes)
    requires IsHex(hex) && ScanEnd(t).Some?
    ensures ScanEnd([BACKSLASH, LETTER_U] + hex + t) == Some(6 + ScanEnd(t).value)
  {
    assert forall i :: 0 <= i < 4 ==> HexNibble(hex[i]).Some?;
    ScanPlain(hex, t);
    ScanEscape(LETTER_U, hex + t);
    assert [BACKSLASH, LETTER_U] + hex + t == [BACKSLASH, LETTER_U] + (hex + t);
  }

  lemma ScanPair(high: bytes, low: bytes, text: bytes, t: bytes)
    requires IsHex(high) && IsHex(low) && ScanEnd(t).Some?
    requires text == [BACKSLASH, LETTER_U] + high + [BACKSLASH, LETTER_U] + low
    ensures ScanEnd(text + t) == Some(12 + ScanEnd(t).value)
  {
    var second := [BACKSLASH, LETTER_U] + low + t;
    ScanUnicode(low, t);
    ScanUnicode(high, second);
    assert text + t == [BACKSLASH, LETTER_U] + high + second;
  }

  /** The first scan passes over a well-formed item without seeing a closing quote in it. */
  lemma ElementScans(e: Element, t: bytes)
    requires WellFormed(e) && ScanEnd(t).Some?
    ensures ScanEnd(Text(e) + t) == Some(|Text(e)| + ScanEnd(t).value)
  {
    hide ScanEnd;
    match e
    case Raw(c) => ScanPlain([c], t);
    case Short(c) => ScanEscape(c, t);
    case Unicode(hex) => ScanUnicode(hex, t);
    case Pair(high, low) => ScanPair(high, low, Text(e), t);
  }

  lemma {:induction false} LiteralEnds(es: seq<Element>, rest: bytes)
    requires AllWellFormed(es)
    ensures ScanEnd(Texts(es) + [QUOTE] + rest) == Some(|Texts(es)|)
  {
    if es == [] {
      assert (Texts(es) + [QUOTE] + rest)[0] == QUOTE;
    } else {
      hide Text;
      hide WellFormed;
      hide ScanEnd;
      LiteralEnds(es[1..], rest);
      ElementScans(es[0], Texts(es[1..]) + [QUOTE] + rest);
      FirstText(Text(es[0]), Texts(es[1..]), rest);
    }
  }

  lemma FirstText(first: bytes, later: bytes, rest: bytes)
    ensures first + later + [QUOTE] + rest == first + (later + [QUOTE] + rest)
  {
  }

  // ------------------------------------------------------------------
  // Literals as the grammar of values uses them
  // ------------------------------------------------------------------

  /** parse_string: the value and what follows the closing quote. */
  function ParseString(s: bytes): (r: Option<(bytes, bytes)>)
    ensures r.Some? ==> |r.value.1| + 2 <= |s| && CString(r.value.0)
  {
    if s == [] || s[0] != QUOTE then None else
      match ScanEnd(s[1..])
      case None => None
      case Some(end) =>
        match Unescape(s[1..end + 2])
        case None => None
        case Some(text) => Some((UpToNul(text), s[end + 2..]))
  }

  /** A well-formed literal is decoded to the UTF-8 of its characters, whatever follows it. */
  lemma LiteralParses(es: seq<Element>, rest: bytes)
    requires AllWellFormed(es)
    ensures ParseString([QUOTE] + Texts(es) + [QUOTE] + rest) == Some((UpToNul(Meanings(es)), rest))
  {
    hide Text;
    hide WellFormed;
    hide Unescape;
    hide ScanEnd;
    var s := [QUOTE] + Texts(es) + [QUOTE] + rest;
    var t := Texts(es) + [QUOTE] + rest;
    assert s[1..] == t;
    LiteralEnds(es, rest);
    LiteralDecodes(es);
    assert s[1..|Texts(es)| + 2] == Texts(es) + [QUOTE];
    assert s[|Texts(es)| + 2..] == rest;
  }

  /** The item that print_string_ptr writes for a byte. */
  function ElementOf(c: byte): (e: Element)
    ensures Text(e) == Escape(c)
  {
    if c > 31 && c != QUOTE && c != BACKSLASH then Raw(c)
    else if c == BACKSLASH || c == QUOTE then Short(c)
    else if c == 8 then Short(98)
    else if c == 12 then Short(102)
    else if c == NEWLINE then Short(110)
    else if c == 13 then Short(114)
    else if c == TAB then Short(116)
    else Unicode([48, 48, HexDigit(c / 16), HexDigit(c % 16)])
  }

  lemma ElementMeansByte(c: byte)
    ensures WellFormed(ElementOf(c)) && Meaning(ElementOf(c)) == [c]
  {
    var e := ElementOf(c);
    if e.Unicode? {
      assert HexNibble(HexDigit(c / 16)) == Some(c / 16) && HexNibble(HexDigit(c % 16)) == Some(c % 16);
      assert HexNibble(48) == Some(0);
      assert Hex4(e.hex) == c;
    }
  }

  function ElementsOf(s: bytes): (es: seq<Element>)
  {
    if s == [] then [] else [ElementOf(s[0])] + ElementsOf(s[1..])
  }

  lemma {:induction false} EscapingIsLiteral(s: bytes)
    ensures AllWellFormed(ElementsOf(s)) && Texts(ElementsOf(s)) == EscapeAll(s) && Meanings(ElementsOf(s)) == s
  {
    if s != [] {
      ElementMeansByte(s[0]);
      EscapingIsLiteral(s[1..]);
      assert ElementsOf(s)[1..] == ElementsOf(s[1..]);
    }
  }

  /** Printing a C string and parsing it back gives the string. */
  lemma StringRoundTrip(s: bytes, rest: bytes)
    requires CString(s)
    ensures ParseString(Quoted(s) + rest) == Some((s, rest))
  {
    EscapingIsLiteral(s);
    LiteralParses(ElementsOf(s), rest);
    CStringIsWhole(s);
  }
}
