/**
 JSON trees, and the text they print to.

 `Render` is the pure form of cJSON's printer: what ends up in the print buffer,
 without the buffer.
 */
module Json {
  import opened Bytes

  const NESTING_LIMIT: nat := 1000

  type Int32 = x: int | -0x8000_0000 <= x < 0x8000_0000

  datatype Json =
    | Null
    | Bool(b: bool)
    | Number(n: Int32)
    | String(s: bytes)
    | Array(items: seq<Json>)
    | Object(members: seq<Member>)

  datatype Member = Member(key: bytes, value: Json)

  // ------------------------------------------------------------------
  // Trees
  // ------------------------------------------------------------------

  /** What a C string can hold. */
  predicate CString(s: bytes) {
    forall i :: 0 <= i < |s| ==> s[i] != 0
  }

  /** Every string and key is a C string. */
  predicate Printable(v: Json) {
    match v
    case String(s) => CString(s)
    case Array(items) => forall i :: 0 <= i < |items| ==> Printable(items[i])
    case Object(members) => forall i :: 0 <= i < |members| ==> CString(members[i].key) && Printable(members[i].value)
    case _ => true
  }

  /** Arrays and objects are nested at most `room` deep. */
  predicate Fits(v: Json, room: int) {
    match v
    case Array(items) => 0 < room && forall i :: 0 <= i < |items| ==> Fits(items[i], room - 1)
    case Object(members) => 0 < room && forall i :: 0 <= i < |members| ==> Fits(members[i].value, room - 1)
    case _ => true
  }

  // ------------------------------------------------------------------
  // Characters
  // ------------------------------------------------------------------

  const TAB: byte := 9
  const NEWLINE: byte := 10
  const SPACE: byte := 32
  const QUOTE: byte := 34
  const COMMA: byte := 44
  const MINUS: byte := 45
  const SLASH: byte := 47
  const COLON: byte := 58
  const LBRACKET: byte := 91
  const BACKSLASH: byte := 92
  const RBRACKET: byte := 93
  const LETTER_U: byte := 117
  const LBRACE: byte := 123
  const RBRACE: byte := 125

  function NullText(): bytes { [110, 117, 108, 108] }

  function FalseText(): bytes { [102, 97, 108, 115, 101] }

  function TrueText(): bytes { [116, 114, 117, 101] }

  predicate Digit(c: byte) {
    48 <= c <= 57
  }

  /** "%d" of a non-negative number. */
  function Digits(n: nat): (text: bytes)
    ensures text != [] && forall i :: 0 <= i < |text| ==> Digit(text[i])
  {
    if n < 10 then [48 + n] else Digits(n / 10) + [48 + n % 10]
  }

  function Decimal(n: int): bytes {
    if n < 0 then [MINUS] + Digits(-n) else Digits(n)
  }

  /** A digit of "%04x". */
  function HexDigit(d: nat): byte
    requires d < 16
  {
    if d < 10 then 48 + d else 87 + d
  }

  /** What print_string_ptr writes for one byte. */
  function Escape(c: byte): bytes {
    if c > 31 && c != QUOTE && c != BACKSLASH then [c]
    else if c == BACKSLASH || c == QUOTE then [BACKSLASH, c]
    else if c == 8 then [BACKSLASH, 98]
    else if c == 12 then [BACKSLASH, 102]
    else if c == NEWLINE then [BACKSLASH, 110]
    else if c == 13 then [BACKSLASH, 114]
    else if c == TAB then [BACKSLASH, 116]
    else [BACKSLASH, LETTER_U, 48, 48, HexDigit(c / 16), HexDigit(c % 16)]
  }

  function EscapeAll(s: bytes): bytes {
    if s == [] then [] else Escape(s[0]) + EscapeAll(s[1..])
  }

  function Quoted(s: bytes): bytes {
    [QUOTE] + EscapeAll(s) + [QUOTE]
  }

  // ------------------------------------------------------------------
  // Rendering
  // ------------------------------------------------------------------

  function Tabs(n: nat): bytes {
    seq(n, _ => TAB)
  }

  /** Indentation, line ends and spaces appear only in formatted text. */
  function Indent(depth: nat, format: bool): bytes {
    if format then Tabs(depth) else []
  }

  function LineEnd(format: bool): bytes {
    if format then [NEWLINE] else []
  }

  function CommaText(format: bool): bytes {
    if format then [COMMA, SPACE] else [COMMA]
  }

  function ColonText(format: bool): bytes {
    if format then [COLON, TAB] else [COLON]
  }

  /** The text of a value inside `depth` arrays and objects. */
  function Render(v: Json, depth: nat, format: bool): bytes
    decreases v, 1
  {
    match v
    case Null => NullText()
    case Bool(b) => if b then TrueText() else FalseText()
    case Number(n) => Decimal(n)
    case String(s) => Quoted(s)
    case Array(items) => [LBRACKET] + RenderItems(items, depth + 1, format) + [RBRACKET]
    case Object(members) =>
      [LBRACE] + LineEnd(format) + RenderMembers(members, depth + 1, format) + Indent(depth, format) + [RBRACE]
  }

  function RenderItems(items: seq<Json>, depth: nat, format: bool): bytes
    decreases items, 0
  {
    if items == [] then []
    else if |items| == 1 then Render(items[0], depth, format)
    else Render(items[0], depth, format) + CommaText(format) + RenderItems(items[1..], depth, format)
  }

  function RenderMember(m: Member, depth: nat, format: bool, last: bool): bytes
    decreases m, 2
  {
    Indent(depth, format) + Quoted(m.key) + ColonText(format) + Render(m.value, depth, format)
    + (if last then [] else [COMMA]) + LineEnd(format)
  }

  function RenderMembers(members: seq<Member>, depth: nat, format: bool): bytes
    decreases members, 0
  {
    if members == [] then [] else
      RenderMember(members[0], depth, format, |members| == 1) + RenderMembers(members[1..], depth, format)
  }

  // ------------------------------------------------------------------
  // What the text looks like
  // ------------------------------------------------------------------

  /** Every rendered value begins with a visible byte. */
  lemma RenderStarts(v: Json, depth: nat, format: bool)
    ensures Render(v, depth, format) != [] && Render(v, depth, format)[0] > 32
  {
  }

  lemma {:induction false} EscapesAreText(s: bytes)
    requires CString(s)
    ensures CString(EscapeAll(s))
  {
    if s != [] {
      EscapesAreText(s[1..]);
    }
  }

  /** Rendered text contains no NUL, so it is a C string too. */
  lemma DecimalIsText(n: Int32)
    ensures CString(Decimal(n))
  {
  }

  lemma {:induction false} RenderIsText(v: Json, depth: nat, format: bool)
    requires Printable(v)
    ensures CString(Render(v, depth, format))
    decreases v, 1
  {
    hide EscapeAll;
    hide Decimal;
    match v
    case Number(n) => DecimalIsText(n);
    case String(s) => EscapesAreText(s);
    case Array(items) => ItemsAreText(items, depth + 1, format);
    case Object(members) => MembersAreText(members, depth + 1, format);
    case _ =>
  }

  lemma {:induction false} ItemsAreText(items: seq<Json>, depth: nat, format: bool)
    requires forall i :: 0 <= i < |items| ==> Printable(items[i])
    ensures CString(RenderItems(items, depth, format))
    decreases items, 0
  {
    if items != [] {
      RenderIsText(items[0], depth, format);
      ItemsAreText(items[1..], depth, format);
    }
  }

  lemma MemberIsText(m: Member, depth: nat, format: bool, last: bool)
    requires CString(m.key) && CString(Render(m.value, depth, format))
    ensures CString(RenderMember(m, depth, format, last))
  {
    EscapesAreText(m.key);
  }

  lemma {:induction false} MembersAreText(members: seq<Member>, depth: nat, format: bool)
    requires forall i :: 0 <= i < |members| ==> CString(members[i].key) && Printable(members[i].value)
    ensures CString(RenderMembers(members, depth, format))
    decreases members, 0
  {
    if members != [] {
      hide RenderMember;
      RenderIsText(members[0].value, depth, format);
      MemberIsText(members[0], depth, format, |members| == 1);
      MembersAreText(members[1..], depth, format);
    }
  }
}
