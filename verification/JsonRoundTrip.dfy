/** What is printed, formatted or not, parses back to the tree it came from. */
module JsonRoundTrip {
  import opened Bytes
  import opened Json
  import opened JsonString
  import opened JsonGrammar

  // ------------------------------------------------------------------
  // White space
  // ------------------------------------------------------------------

  predicate Blank(pad: bytes) {
    forall i :: 0 <= i < |pad| ==> pad[i] <= 32
  }

  predicate Visible(t: bytes) {
    t != [] && t[0] > 32
  }

  lemma {:induction false} SkipPad(pad: bytes, t: bytes)
    requires Blank(pad) && Visible(t)
    ensures DropBlank(pad + t) == t && Skip(pad + t) == t
  {
    if pad == [] {
      assert pad + t == t;
    } else {
      SkipPad(pad[1..], t);
      assert (pad + t)[1..] == pad[1..] + t;
    }
  }

  lemma SkipVisible(t: bytes)
    requires Visible(t)
    ensures Skip(t) == t
  {
  }

  // ------------------------------------------------------------------
  // Numbers
  // ------------------------------------------------------------------

  /** What may follow a number for it to end there. */
  predicate StopsNumber(rest: bytes) {
    rest == [] || !NumberChar(rest[0])
  }

  lemma {:induction false} RunThenStop(run: bytes, rest: bytes)
    requires (forall i :: 0 <= i < |run| ==> NumberChar(run[i])) && StopsNumber(rest)
    ensures NumberRun(run + rest) == |run|
  {
    if run == [] {
      assert run + rest == rest;
    } else {
      RunThenStop(run[1..], rest);
      assert (run + rest)[1..] == run[1..] + rest;
    }
  }

  lemma {:induction false} AllDigits(s: bytes)
    requires forall i :: 0 <= i < |s| ==> Digit(s[i])
    ensures DigitRun(s) == |s|
  {
    if s != [] {
      AllDigits(s[1..]);
    }
  }

  lemma {:induction false} ValueSnoc(s: bytes, d: byte, acc: nat)
    requires (forall i :: 0 <= i < |s| ==> Digit(s[i])) && Digit(d)
    ensures forall i :: 0 <= i < |s + [d]| ==> Digit((s + [d])[i])
    ensures DigitsValue(s + [d], acc) == DigitsValue(s, acc) * 10 + (d - 48)
  {
    if s == [] {
      assert [d][1..] == [];
    } else {
      ValueSnoc(s[1..], d, acc * 10 + ((s[0] as int) - 48));
      assert (s + [d])[1..] == s[1..] + [d];
    }
  }

  lemma {:induction false} DigitsRoundTrip(n: nat)
    ensures DigitsValue(Digits(n), 0) == n
  {
    if n >= 10 {
      DigitsRoundTrip(n / 10);
      ValueSnoc(Digits(n / 10), 48 + n % 10, 0);
    } else {
      ValueSnoc([], 48 + n, 0);
      assert [] + [48 + n] == Digits(n);
    }
  }

  lemma IntegerRoundTrip(n: Int32)
    ensures ReadInteger(Decimal(n)) == Some((n, |Decimal(n)|))
  {
    var text := Decimal(n);
    var sign := if n < 0 then 1 else 0;
    var digits := Digits(if n < 0 then -(n as int) else n);
    assert Digit(digits[0]);
    assert text[sign..] == digits && text[sign..sign + |digits|] == digits;
    AllDigits(digits);
    DigitsRoundTrip(if n < 0 then -(n as int) else n);
  }

  lemma NumberRoundTrip(n: Int32, rest: bytes)
    requires StopsNumber(rest)
    ensures ParseNumber(Decimal(n) + rest) == Some((Number(n), rest))
  {
    var text := Decimal(n);
    assert forall i :: 0 <= i < |text| ==> NumberChar(text[i]);
    RunThenStop(text, rest);
    assert (text + rest)[..|text|] == text && (text + rest)[|text|..] == rest;
    IntegerRoundTrip(n);
  }

  // ------------------------------------------------------------------
  // Which branch a value's first byte selects
  // ------------------------------------------------------------------

  /** No keyword starts with this byte. */
  lemma NotKeyword(s: bytes)
    requires s != [] && s[0] != 110 && s[0] != 102 && s[0] != 116
    ensures !(NullText() <= s) && !(FalseText() <= s) && !(TrueText() <= s)
  {
  }

  lemma KeywordRoundTrip(v: Json, rest: bytes, depth: nat)
    requires v.Null? || v.Bool?
    ensures ParseValue(Render(v, depth, true) + rest, depth) == Some((v, rest))
    ensures Render(v, depth, false) == Render(v, depth, true)
  {
    var s := Render(v, depth, true) + rest;
    assert s[|Render(v, depth, true)|..] == rest;
    assert s[0] == Render(v, depth, true)[0];
  }

  lemma StringValueRoundTrip(text: bytes, rest: bytes, depth: nat)
    requires CString(text)
    ensures ParseValue(Quoted(text) + rest, depth) == Some((String(text), rest))
  {
    NotKeyword(Quoted(text) + rest);
    StringRoundTrip(text, rest);
  }

  lemma NumberValueRoundTrip(n: Int32, rest: bytes, depth: nat)
    requires StopsNumber(rest)
    ensures ParseValue(Decimal(n) + rest, depth) == Some((Number(n), rest))
  {
    var s := Decimal(n) + rest;
    assert s[0] == MINUS || Digit(s[0]);
    NotKeyword(s);
    NumberRoundTrip(n, rest);
  }

  // ------------------------------------------------------------------
  // One step of the parser at a time
  // ------------------------------------------------------------------

  lemma EmptyArrayStep(rest: bytes, depth: nat)
    requires depth < NESTING_LIMIT
    ensures ParseValue([LBRACKET, RBRACKET] + rest, depth) == Some((Array([]), rest))
  {
    hide ParseItems;
    var s := [LBRACKET, RBRACKET] + rest;
    NotKeyword(s);
    SkipVisible(s[1..]);
    assert s[1..][1..] == rest;
  }

  lemma ArrayStep(inner: bytes, items: seq<Json>, rest: bytes, depth: nat)
    requires depth < NESTING_LIMIT && Visible(inner) && inner[0] != RBRACKET
    requires ParseItems(inner, depth + 1) == Some((items, rest))
    ensures ParseValue([LBRACKET] + inner, depth) == Some((Array(items), rest))
  {
    hide ParseItems;
    var s := [LBRACKET] + inner;
    NotKeyword(s);
    assert s[1..] == inner;
    SkipVisible(inner);
  }

  lemma LastItemStep(pad: bytes, t: bytes, v: Json, rest: bytes, depth: nat)
    requires Blank(pad) && Visible(t) && ParseValue(t, depth) == Some((v, [RBRACKET] + rest))
    ensures ParseItems(pad + t, depth) == Some(([v], rest))
  {
    hide ParseValue;
    SkipPad(pad, t);
    SkipVisible([RBRACKET] + rest);
    assert ([RBRACKET] + rest)[1..] == rest;
  }

  lemma MoreItemsStep(pad: bytes, t: bytes, v: Json, later: bytes, items: seq<Json>, rest: bytes, depth: nat)
    requires Blank(pad) && Visible(t) && ParseValue(t, depth) == Some((v, [COMMA] + later))
    requires ParseItems(later, depth) == Some((items, rest))
    ensures ParseItems(pad + t, depth) == Some(([v] + items, rest))
  {
    hide ParseValue;
    SkipPad(pad, t);
    SkipVisible([COMMA] + later);
    assert ([COMMA] + later)[1..] == later;
  }

  lemma EmptyObjectStep(pad: bytes, rest: bytes, depth: nat)
    requires depth < NESTING_LIMIT && Blank(pad)
    ensures ParseValue([LBRACE] + (pad + ([RBRACE] + rest)), depth) == Some((Object([]), rest))
  {
    hide ParseMembers;
    var s := [LBRACE] + (pad + ([RBRACE] + rest));
    NotKeyword(s);
    assert s[1..] == pad + ([RBRACE] + rest);
    SkipPad(pad, [RBRACE] + rest);
    assert ([RBRACE] + rest)[1..] == rest;
  }

  lemma ObjectStep(pad: bytes, inner: bytes, members: seq<Member>, rest: bytes, depth: nat)
    requires depth < NESTING_LIMIT && Blank(pad) && Visible(inner) && inner[0] == QUOTE
    requires ParseMembers(inner, depth + 1) == Some((members, rest))
    ensures ParseValue([LBRACE] + (pad + inner), depth) == Some((Object(members), rest))
  {
    hide ParseMembers;
    var s := [LBRACE] + (pad + inner);
    NotKeyword(s);
    assert s[1..] == pad + inner;
    SkipPad(pad, inner);
  }

  lemma MemberAfterPad(pad: bytes, inner: bytes, depth: nat)
    requires Blank(pad) && Visible(inner)
    ensures ParseMember(pad + inner, depth) == ParseMember(inner, depth)
  {
    hide ParseValue;
    hide ParseString;
    SkipPad(pad, inner);
    SkipVisible(inner);
  }

  /** White space in front of members does not matter. */
  lemma MembersAfterPad(pad: bytes, inner: bytes, depth: nat)
    requires Blank(pad) && Visible(inner)
    ensures ParseMembers(pad + inner, depth) == ParseMembers(inner, depth)
  {
    hide ParseMember;
    MemberAfterPad(pad, inner, depth);
  }

  lemma MemberStep(pad: bytes, key: bytes, blank: bytes, t: bytes, v: Json, tail: bytes, depth: nat)
    requires Blank(pad) && Blank(blank) && CString(key) && Visible(t) && ParseValue(t, depth) == Some((v, tail))
    ensures ParseMember(pad + (Quoted(key) + ([COLON] + (blank + t))), depth) == Some((Member(key, v), tail))
  {
    hide ParseValue;
    hide ParseString;
    var after := [COLON] + (blank + t);
    assert Visible(Quoted(key) + after);
    SkipPad(pad, Quoted(key) + after);
    StringRoundTrip(key, after);
    SkipVisible(after);
    assert after[1..] == blank + t;
    SkipPad(blank, t);
  }

  lemma LastMemberStep(s: bytes, m: Member, pad: bytes, rest: bytes, depth: nat)
    requires Blank(pad) && ParseMember(s, depth) == Some((m, pad + ([RBRACE] + rest)))
    ensures ParseMembers(s, depth) == Some(([m], rest))
  {
    hide ParseMember;
    SkipPad(pad, [RBRACE] + rest);
    assert ([RBRACE] + rest)[1..] == rest;
  }

  lemma MoreMembersStep(s: bytes, m: Member, later: bytes, members: seq<Member>, rest: bytes, depth: nat)
    requires ParseMember(s, depth) == Some((m, [COMMA] + later))
    requires ParseMembers(later, depth) == Some((members, rest))
    ensures ParseMembers(s, depth) == Some(([m] + members, rest))
  {
    hide ParseMember;
    SkipVisible([COMMA] + later);
    assert ([COMMA] + later)[1..] == later;
  }

  // ------------------------------------------------------------------
  // The text, regrouped the way the parser takes it
  // ------------------------------------------------------------------

  lemma Regroup3(a: bytes, b: bytes, c: bytes)
    ensures a + b + c == a + (b + c)
  {
  }

  lemma Regroup4(a: bytes, b: bytes, c: bytes, d: bytes)
    ensures a + b + c + d == a + (b + (c + d))
  {
  }

  lemma RegroupMember(i: bytes, k: bytes, c: bytes, v: bytes, comma: bytes, nl: bytes, later: bytes)
    ensures (i + k + c + v + comma + nl) + later == i + (k + (c + (v + (comma + (nl + later)))))
  {
  }

  lemma LastItemText(items: seq<Json>, depth: nat, format: bool, rest: bytes)
    requires |items| == 1
    ensures RenderItems(items, depth, format) + ([RBRACKET] + rest) == Render(items[0], depth, format) + ([RBRACKET] + rest)
  {
  }

  function ItemGap(format: bool): bytes {
    if format then [SPACE] else []
  }

  lemma MoreItemsText(items: seq<Json>, depth: nat, format: bool, end: bytes)
    requires |items| > 1
    ensures RenderItems(items, depth, format) + end
         == Render(items[0], depth, format) + ([COMMA] + (ItemGap(format) + (RenderItems(items[1..], depth, format) + end)))
  {
    var first, later := Render(items[0], depth, format), RenderItems(items[1..], depth, format);
    assert CommaText(format) == [COMMA] + ItemGap(format);
    ItemsTextShape(first, ItemGap(format), later, end);
  }

  lemma ItemsTextShape(first: bytes, gap: bytes, later: bytes, end: bytes)
    ensures (first + ([COMMA] + gap) + later) + end == first + ([COMMA] + (gap + (later + end)))
  {
  }

  function ValueGap(format: bool): bytes {
    if format then [TAB] else []
  }

  /** The members' text from the first key on, without the indentation before it. */
  lemma MembersText(members: seq<Member>, depth: nat, format: bool, end: bytes)
    requires members != []
    ensures RenderMembers(members, depth, format) + end
         == Indent(depth, format) + (Quoted(members[0].key) + ([COLON] + (ValueGap(format) + (Render(members[0].value, depth, format)
              + ((if |members| == 1 then [] else [COMMA]) + (LineEnd(format) + (RenderMembers(members[1..], depth, format) + end)))))))
  {
    var m := members[0];
    var later := RenderMembers(members[1..], depth, format);
    var v := Render(m.value, depth, format);
    var comma := if |members| == 1 then [] else [COMMA];
    assert ColonText(format) == [COLON] + ValueGap(format);
    RegroupMember(Indent(depth, format), Quoted(m.key), ColonText(format), v, comma, LineEnd(format), later + end);
    Regroup3(RenderMember(m, depth, format, |members| == 1), later, end);
    Regroup3([COLON], ValueGap(format), v + (comma + (LineEnd(format) + (later + end))));
  }

  // ------------------------------------------------------------------
  // Values
  // ------------------------------------------------------------------

  /** The text of a value, read where it was written, gives the value and leaves what follows it. */
  lemma {:induction false} ValueRoundTrip(v: Json, depth: nat, format: bool, rest: bytes)
    requires Printable(v) && Fits(v, NESTING_LIMIT - depth) && StopsNumber(rest)
    ensures ParseValue(Render(v, depth, format) + rest, depth) == Some((v, rest))
    decreases v, 1
  {
    hide ParseValue;
    hide ParseItems;
    hide ParseMembers;
    hide ParseMember;
    match v
    case Null => KeywordRoundTrip(v, rest, depth);
    case Bool(_) => KeywordRoundTrip(v, rest, depth);
    case Number(n) => NumberValueRoundTrip(n, rest, depth);
    case String(text) => StringValueRoundTrip(text, rest, depth);
    case Array(items) => ArrayRoundTrip(items, depth, format, rest);
    case Object(members) => ObjectRoundTrip(members, depth, format, rest);
  }

  lemma {:induction false} ArrayRoundTrip(items: seq<Json>, depth: nat, format: bool, rest: bytes)
    requires depth < NESTING_LIMIT
    requires forall i :: 0 <= i < |items| ==> Printable(items[i]) && Fits(items[i], NESTING_LIMIT - (depth + 1))
    ensures ParseValue(Render(Array(items), depth, format) + rest, depth) == Some((Array(items), rest))
    decreases items, 3
  {
    hide ParseValue;
    hide ParseItems;
    var text := RenderItems(items, depth + 1, format);
    ArrayText(items, depth, format, rest);
    hide Render;
    hide RenderItems;
    if items == [] {
      EmptyArrayStep(rest, depth);
      assert [LBRACKET] + ([] + ([RBRACKET] + rest)) == [LBRACKET, RBRACKET] + rest;
    } else {
      ItemsRoundTrip(items, depth + 1, format, [], rest);
      ItemsStart(items, depth + 1, format);
      BracketedStep(text, items, rest, depth);
    }
  }

  lemma ArrayText(items: seq<Json>, depth: nat, format: bool, rest: bytes)
    ensures Render(Array(items), depth, format) + rest == [LBRACKET] + (RenderItems(items, depth + 1, format) + ([RBRACKET] + rest))
    ensures items == [] ==> RenderItems(items, depth + 1, format) == []
  {
    Regroup4([LBRACKET], RenderItems(items, depth + 1, format), [RBRACKET], rest);
  }

  lemma BracketedStep(text: bytes, items: seq<Json>, rest: bytes, depth: nat)
    requires depth < NESTING_LIMIT && Visible(text) && text[0] != RBRACKET
    requires ParseItems([] + (text + ([RBRACKET] + rest)), depth + 1) == Some((items, rest))
    ensures ParseValue([LBRACKET] + (text + ([RBRACKET] + rest)), depth) == Some((Array(items), rest))
  {
    hide ParseItems;
    hide ParseValue;
    var inner := text + ([RBRACKET] + rest);
    assert [] + inner == inner;
    ArrayStep(inner, items, rest, depth);
  }

  lemma ItemsStart(items: seq<Json>, depth: nat, format: bool)
    requires items != []
    ensures Visible(RenderItems(items, depth, format)) && RenderItems(items, depth, format)[0] != RBRACKET
  {
    RenderStarts(items[0], depth, format);
  }

  /** One item, and either the end of the array or a comma and more. */
  lemma {:induction false} ItemsRoundTrip(items: seq<Json>, depth: nat, format: bool, pad: bytes, rest: bytes)
    requires items != [] && Blank(pad)
    requires forall i :: 0 <= i < |items| ==> Printable(items[i]) && Fits(items[i], NESTING_LIMIT - depth)
    ensures ParseItems(pad + (RenderItems(items, depth, format) + ([RBRACKET] + rest)), depth) == Some((items, rest))
    decreases items, 2
  {
    hide ParseValue;
    hide ParseItems;
    hide ParseMembers;
    hide ParseMember;
    var end := [RBRACKET] + rest;
    RenderStarts(items[0], depth, format);
    if |items| == 1 {
      ValueRoundTrip(items[0], depth, format, end);
      LastItemText(items, depth, format, rest);
      LastItemStep(pad, Render(items[0], depth, format) + end, items[0], rest, depth);
      assert items == [items[0]];
    } else {
      var later := ItemGap(format) + (RenderItems(items[1..], depth, format) + end);
      ValueRoundTrip(items[0], depth, format, [COMMA] + later);
      ItemsRoundTrip(items[1..], depth, format, ItemGap(format), rest);
      MoreItemsText(items, depth, format, end);
      MoreItemsStep(pad, Render(items[0], depth, format) + ([COMMA] + later), items[0], later, items[1..], rest, depth);
      assert items == [items[0]] + items[1..];
    }
  }

  lemma {:induction false} ObjectRoundTrip(members: seq<Member>, depth: nat, format: bool, rest: bytes)
    requires depth < NESTING_LIMIT
    requires forall i :: 0 <= i < |members| ==>
      CString(members[i].key) && Printable(members[i].value) && Fits(members[i].value, NESTING_LIMIT - (depth + 1))
    ensures ParseValue(Render(Object(members), depth, format) + rest, depth) == Some((Object(members), rest))
    decreases members, 5
  {
    hide ParseValue;
    hide ParseMembers;
    var text := RenderMembers(members, depth + 1, format);
    var nl, close := LineEnd(format), Indent(depth, format);
    ObjectText(nl, text, close, rest);
    if members == [] {
      BlankBracesStep(nl, close, rest, depth);
    } else {
      MembersRoundTrip(members, depth + 1, format, [], close, rest);
      MembersStart(members, depth + 1, format);
      BracedStep(nl, Indent(depth + 1, format), text, close, members, rest, depth);
    }
  }

  lemma BlankBracesStep(nl: bytes, close: bytes, rest: bytes, depth: nat)
    requires depth < NESTING_LIMIT && Blank(nl) && Blank(close)
    ensures ParseValue([LBRACE] + (nl + ([] + (close + ([RBRACE] + rest)))), depth) == Some((Object([]), rest))
  {
    hide ParseValue;
    Regroup3(nl, close, [RBRACE] + rest);
    assert [] + (close + ([RBRACE] + rest)) == close + ([RBRACE] + rest);
    EmptyObjectStep(nl + close, rest, depth);
  }

  lemma BracedStep(nl: bytes, indent: bytes, text: bytes, close: bytes, members: seq<Member>, rest: bytes, depth: nat)
    requires depth < NESTING_LIMIT && Blank(nl) && Blank(indent)
    requires indent < text && text[|indent|] == QUOTE
    requires ParseMembers([] + (text + (close + ([RBRACE] + rest))), depth + 1) == Some((members, rest))
    ensures ParseValue([LBRACE] + (nl + (text + (close + ([RBRACE] + rest)))), depth) == Some((Object(members), rest))
  {
    hide ParseValue;
    hide ParseMembers;
    var whole := text + (close + ([RBRACE] + rest));
    var inner := whole[|indent|..];
    assert [] + whole == whole && whole == indent + inner;
    MembersAfterPad(indent, inner, depth + 1);
    Regroup3(nl, indent, inner);
    ObjectStep(nl + indent, inner, members, rest, depth);
  }

  /** The members' text is their indentation, then a key. */
  lemma MembersStart(members: seq<Member>, depth: nat, format: bool)
    requires members != []
    ensures var indent, text := Indent(depth, format), RenderMembers(members, depth, format);
            indent < text && text[|indent|] == QUOTE
  {
    var text := RenderMembers(members, depth, format);
    MembersText(members, depth, format, []);
    assert text + [] == text;
  }

  lemma ObjectText(nl: bytes, text: bytes, close: bytes, rest: bytes)
    ensures [LBRACE] + nl + text + close + [RBRACE] + rest == [LBRACE] + (nl + (text + (close + ([RBRACE] + rest))))
  {
  }

  /** One member, and either the end of the object or a comma and more. */
  lemma {:induction false} MembersRoundTrip(members: seq<Member>, depth: nat, format: bool, pad: bytes, close: bytes, rest: bytes)
    requires members != [] && Blank(pad) && Blank(close)
    requires forall i :: 0 <= i < |members| ==>
               CString(members[i].key) && Printable(members[i].value) && Fits(members[i].value, NESTING_LIMIT - depth)
    ensures ParseMembers(pad + (RenderMembers(members, depth, format) + (close + ([RBRACE] + rest))), depth)
         == Some((members, rest))
    decreases members, 4
  {
    hide ParseValue;
    hide ParseItems;
    hide ParseMembers;
    hide ParseMember;
    var m := members[0];
    var end := close + ([RBRACE] + rest);
    var later := LineEnd(format) + (RenderMembers(members[1..], depth, format) + end);
    var tail := (if |members| == 1 then [] else [COMMA]) + later;
    var s := pad + (RenderMembers(members, depth, format) + end);
    MembersText(members, depth, format, end);
    ValueRoundTrip(m.value, depth, format, tail);
    RenderStarts(m.value, depth, format);
    var front := pad + Indent(depth, format);
    MemberStep(front, m.key, ValueGap(format), Render(m.value, depth, format) + tail, m.value, tail, depth);
    Regroup3(pad, Indent(depth, format),
      Quoted(m.key) + ([COLON] + (ValueGap(format) + (Render(m.value, depth, format) + tail))));
    if |members| == 1 {
      assert tail == (LineEnd(format) + close) + ([RBRACE] + rest);
      LastMemberStep(s, m, LineEnd(format) + close, rest, depth);
      assert members == [m];
    } else {
      MembersRoundTrip(members[1..], depth, format, LineEnd(format), close, rest);
      MoreMembersStep(s, m, later, members[1..], rest, depth);
      assert members == [m] + members[1..];
    }
  }

  /** cJSON_Parse of what cJSON_Print or cJSON_PrintUnformatted printed is the tree that was printed. */
  lemma PrintParseRoundTrip(v: Json, format: bool, requireNullTerminated: bool)
    requires Printable(v) && Fits(v, 1000)
    ensures ParseText(Render(v, 0, format), requireNullTerminated) == Some(v)
  {
    hide Render;
    hide ParseValue;
    var buffer := Render(v, 0, format) + [0];
    RenderStarts(v, 0, format);
    SkipVisible(buffer);
    NoBom(v, format);
    ValueRoundTrip(v, 0, format, [0]);
  }

  lemma NoBom(v: Json, format: bool)
    ensures Render(v, 0, format) != [] && Render(v, 0, format)[0] != 0xEF
  {
  }
}
