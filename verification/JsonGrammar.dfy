/**
 What cJSON's parser accepts, as functions on the text still to be read.

 Each function takes the text from the current offset on and gives a value and
 the text after it.  The parse buffer's methods are proved against these.
 */
module JsonGrammar {
  import opened Bytes
  import opened Json
  import opened JsonString

  // ------------------------------------------------------------------
  // White space
  // ------------------------------------------------------------------

  function DropBlank(s: bytes): (r: bytes)
    ensures |r| <= |s| && (r != [] ==> r[0] > 32)
  {
    if s != [] && s[0] <= 32 then DropBlank(s[1..]) else s
  }

  /** buffer_skip_whitespace: at the end of the buffer it steps back onto the last byte. */
  function Skip(s: bytes): (r: bytes)
    ensures |r| <= |s| && (s != [] ==> r != [])
  {
    var r := DropBlank(s);
    if s != [] && r == [] then s[|s| - 1..] else r
  }

  // ------------------------------------------------------------------
  // Numbers
  // ------------------------------------------------------------------

  /** The characters parse_number collects for strtod. */
  predicate NumberChar(c: byte) {
    Digit(c) || c == 43 || c == MINUS || c == 101 || c == 69 || c == 46
  }

  function NumberRun(s: bytes): (n: nat)
    ensures n <= |s|
  {
    if s != [] && NumberChar(s[0]) then 1 + NumberRun(s[1..]) else 0
  }

  function DigitRun(s: bytes): (n: nat)
    ensures n <= |s| && forall i :: 0 <= i < n ==> Digit(s[i])
  {
    if s != [] && Digit(s[0]) then 1 + DigitRun(s[1..]) else 0
  }

  function DigitsValue(s: bytes, acc: nat): nat
    requires forall i :: 0 <= i < |s| ==> Digit(s[i])
  {
    if s == [] then acc else
      assert Digit(s[0]);
      DigitsValue(s[1..], acc * 10 + ((s[0] as int) - 48))
  }

  /**
   strtod on a run of number characters, where it is an integer of 32 bits:
   the value and how much of the run it took.  Fractions, exponents and larger
   numbers are outside this model.
   */
  function ReadInteger(run: bytes): (r: Option<(Int32, nat)>)
    ensures r.Some? ==> 0 < r.value.1 <= |run|
  {
    var sign := if run != [] && run[0] == MINUS then 1 else 0;
    var n := DigitRun(run[sign..]);
    if n == 0 then None
    else if sign + n < |run| && run[sign + n] != 43 && run[sign + n] != MINUS then None
    else
      var magnitude := DigitsValue(run[sign..sign + n], 0);
      var value: int := if sign == 1 then -(magnitude as int) else magnitude;
      if -0x8000_0000 <= value < 0x8000_0000 then Some((value, sign + n)) else None
  }

  function ParseNumber(s: bytes): (r: Option<(Json, bytes)>)
    ensures r.Some? ==> |r.value.1| < |s|
  {
    match ReadInteger(s[..NumberRun(s)])
    case None => None
    case Some((value, used)) => Some((Number(value), s[used..]))
  }

  // ------------------------------------------------------------------
  // Values
  // ------------------------------------------------------------------

  function ParseValue(s: bytes, depth: nat): (r: Option<(Json, bytes)>)
    ensures r.Some? ==> |r.value.1| < |s|
    decreases |s|, 2
  {
    if NullText() <= s then Some((Null, s[4..]))
    else if FalseText() <= s then Some((Bool(false), s[5..]))
    else if TrueText() <= s then Some((Bool(true), s[4..]))
    else if s == [] then None
    else if s[0] == QUOTE then
      match ParseString(s) case None => None case Some((text, rest)) => Some((String(text), rest))
    else if s[0] == MINUS || Digit(s[0]) then ParseNumber(s)
    else if s[0] == LBRACKET then ParseArray(s, depth)
    else if s[0] == LBRACE then ParseObject(s, depth)
    else None
  }

  function ParseArray(s: bytes, depth: nat): (r: Option<(Json, bytes)>)
    requires s != [] && s[0] == LBRACKET
    ensures r.Some? ==> |r.value.1| < |s|
    decreases |s|, 1
  {
    if depth >= 1000 then None else
      var t := Skip(s[1..]);
      if t == [] then None
      else if t[0] == RBRACKET then Some((Array([]), t[1..]))
      else match ParseItems(t, depth + 1)
        case None => None
        case Some((items, rest)) => Some((Array(items), rest))
  }

  /** One or more items separated by commas, and the closing bracket. */
  function ParseItems(s: bytes, depth: nat): (r: Option<(seq<Json>, bytes)>)
    ensures r.Some? ==> |r.value.1| < |s|
    decreases |s|, 3
  {
    match ParseValue(Skip(s), depth)
    case None => None
    case Some((item, after)) =>
      var u := Skip(after);
      if u == [] then None
      else if u[0] == COMMA then
        match ParseItems(u[1..], depth)
        case None => None
        case Some((items, rest)) => Some(([item] + items, rest))
      else if u[0] == RBRACKET then Some(([item], u[1..]))
      else None
  }

  function ParseObject(s: bytes, depth: nat): (r: Option<(Json, bytes)>)
    requires s != [] && s[0] == LBRACE
    ensures r.Some? ==> |r.value.1| < |s|
    decreases |s|, 1
  {
    if depth >= 1000 then None else
      var t := Skip(s[1..]);
      if t == [] then None
      else if t[0] == RBRACE then Some((Object([]), t[1..]))
      else match ParseMembers(t, depth + 1)
        case None => None
        case Some((members, rest)) => Some((Object(members), rest))
  }

  /** A key, a colon and a value. */
  function ParseMember(s: bytes, depth: nat): (r: Option<(Member, bytes)>)
    ensures r.Some? ==> |r.value.1| < |s|
    decreases |s|, 3
  {
    match ParseString(Skip(s))
    case None => None
    case Some((key, after)) =>
      var u := Skip(after);
      if u == [] || u[0] != COLON then None else
        match ParseValue(Skip(u[1..]), depth)
        case None => None
        case Some((value, rest)) => Some((Member(key, value), rest))
  }

  /** One or more members separated by commas, and the closing brace. */
  function ParseMembers(s: bytes, depth: nat): (r: Option<(seq<Member>, bytes)>)
    ensures r.Some? ==> |r.value.1| < |s|
    decreases |s|, 4
  {
    match ParseMember(s, depth)
    case None => None
    case Some((member, after)) =>
      var u := Skip(after);
      if u == [] then None
      else if u[0] == COMMA then
        match ParseMembers(u[1..], depth)
        case None => None
        case Some((members, rest)) => Some(([member] + members, rest))
      else if u[0] == RBRACE then Some(([member], u[1..]))
      else None
  }

  // ------------------------------------------------------------------
  // Documents
  // ------------------------------------------------------------------

  function SkipBom(s: bytes): bytes {
    if |s| > 4 && s[0] == 0xEF && s[1] == 0xBB && s[2] == 0xBF then s[3..] else s
  }

  /** cJSON_ParseWithLengthOpts on a whole buffer. */
  function ParseBuffer(buffer: bytes, requireNullTerminated: bool): Option<Json> {
    if buffer == [] then None else
      match ParseValue(Skip(SkipBom(buffer)), 0)
      case None => None
      case Some((v, rest)) =>
        if requireNullTerminated then
          var end := Skip(rest);
          if end != [] && end[0] == 0 then Some(v) else None
        else Some(v)
  }

  /** cJSON_ParseWithOpts on a C string: its terminator belongs to the buffer. */
  function ParseText(text: bytes, requireNullTerminated: bool): Option<Json> {
    ParseBuffer(text + [0], requireNullTerminated)
  }
}
