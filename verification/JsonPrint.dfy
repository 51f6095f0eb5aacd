/**
 cJSON's print buffer: a growing array, the offset of what is finished, and the
 printer that writes into it.

 The printer is proved against `Render`, writes only where `Ensure` granted
 room, and succeeds exactly when the nesting and the room allow it.
 */
module JsonPrint {
  import opened Bytes
  import opened Json
  import opened JsonString
  import JsonGrammar
  import JsonParser
  import JsonRoundTrip

  const INT_MAX: nat := 0x7FFF_FFFF

  class PrintBuffer {
    var buffer: array<byte>
    var offset: nat
    var depth: nat
    /** Up to where the last call of Ensure granted room. */
    ghost var limit: nat
    const noalloc: bool
    const format: bool

    ghost predicate Valid()
      reads this`buffer, this`offset
    {
      && buffer.Length <= INT_MAX
      && (offset < buffer.Length || offset == buffer.Length == 0)
    }

    /** What is finished. */
    ghost function Done(): (done: bytes)
      requires Valid()
      reads this`buffer, this`offset, buffer
      ensures |done| == offset
    {
      buffer[..offset]
    }

    /** How large the buffer can get. */
    ghost function Capacity(): nat
      reads this`buffer
    {
      if noalloc then buffer.Length else INT_MAX
    }

    /** The text so far ends at the first NUL from the offset on. */
    ghost predicate Ends(text: bytes)
      reads this`buffer, this`offset, buffer
    {
      offset <= |text| < buffer.Length && buffer[..|text| + 1] == text + [0] && CString(text[offset..])
    }

    /** The buffer is the one it was, or a new one where that is allowed. */
    twostate predicate Kept()
      reads this`buffer
    {
      && Capacity() == old(Capacity())
      && (buffer == old(buffer) || (!noalloc && fresh(buffer)))
    }

    constructor (buffer: array<byte>, noalloc: bool, format: bool)
      requires buffer.Length <= INT_MAX
      ensures Valid() && this.buffer == buffer && offset == depth == 0
      ensures this.noalloc == noalloc && this.format == format
    {
      this.buffer, this.noalloc, this.format := buffer, noalloc, format;
      offset, depth, limit := 0, 0, 0;
    }

    // ----------------------------------------------------------------
    // Room
    // ----------------------------------------------------------------

    /** The size of a buffer that has grown: twice what is needed, or as large as it can get. */
    ghost function Grown(total: nat): nat {
      if 2 * total <= 0x7FFF_FFFF then 2 * total else 0x7FFF_FFFF
    }

    /** Room for `needed` more bytes, by growing the buffer if need be; what is in the buffer stays. */
    method Ensure(needed: nat) returns (ok: bool)
      requires Valid()
      modifies this`buffer, this`limit
      ensures Valid() && Kept() && Done() == old(Done())
      ensures ok <==> offset + needed + 1 <= Capacity()
      ensures ok ==> limit == offset + needed < buffer.Length
      ensures old(buffer.Length) <= buffer.Length && buffer[..old(buffer.Length)] == old(buffer[..])
      ensures buffer.Length ==
        if !ok || offset + needed + 1 <= old(buffer.Length) then old(buffer.Length) else Grown(offset + needed + 1)
    {
      if buffer.Length > 0 && offset >= buffer.Length {
        return false;
      }
      if needed > INT_MAX {
        return false;
      }
      var total := needed + offset + 1;
      if total <= buffer.Length {
        limit := offset + needed;
        return true;
      }
      if noalloc {
        return false;
      }
      var newSize;
      if total > INT_MAX / 2 {
        if total <= INT_MAX {
          newSize := INT_MAX;
        } else {
          return false;
        }
      } else {
        newSize := total * 2;
      }
      var newBuffer := new byte[newSize];
      var old_ := buffer;
      forall i | 0 <= i < old_.Length {
        newBuffer[i] := old_[i];
      }
      buffer, limit := newBuffer, offset + needed;
      return true;
    }

    /** Writes a text at a place inside the room granted. */
    method Write(at: nat, text: bytes)
      requires Valid() && offset <= at && at + |text| <= limit <= buffer.Length
      modifies buffer
      ensures buffer[..at + |text|] == old(buffer[..at]) + text
    {
      var i := 0;
      while i < |text|
        invariant i <= |text| && buffer[..at + i] == old(buffer[..at]) + text[..i]
      {
        buffer[at + i] := text[i];
        i := i + 1;
      }
    }

    lemma NulIsNext(text: bytes)
      requires Ends(text)
      ensures buffer[|text|] == 0 && forall k :: offset <= k < |text| ==> buffer[k] != 0
    {
      assert forall k :: 0 <= k <= |text| ==> buffer[k] == buffer[..|text| + 1][k] == (text + [0])[k];
      forall k | offset <= k < |text|
        ensures buffer[k] != 0
      {
        assert text[offset..][k - offset] == text[k];
      }
    }

    /** update_offset: past the text up to its NUL. */
    method UpdateOffset(ghost text: bytes)
      requires Valid() && Ends(text)
      modifies this`offset
      ensures Valid() && offset == |text| && Done() == text
    {
      NulIsNext(text);
      var n := 0;
      while buffer[offset + n] != 0
        invariant offset + n <= |text|
        decreases |text| - n
      {
        n := n + 1;
      }
      offset := offset + n;
      assert buffer[..|text|] == buffer[..|text| + 1][..|text|];
    }

    lemma EndsHere(done: bytes, text: bytes)
      requires offset == |done| && CString(text) && |done| + |text| < buffer.Length
      requires buffer[..|done| + |text| + 1] == done + text + [0]
      ensures Ends(done + text)
    {
      assert (done + text)[offset..] == text;
    }

    // ----------------------------------------------------------------
    // Plain values
    // ----------------------------------------------------------------

    /** A text with its NUL at the offset, which stays in front of it. */
    method PrintText(text: bytes) returns (ok: bool)
      requires Valid() && CString(text)
      modifies this`buffer, this`limit, buffer
      ensures Valid() && Kept()
      ensures ok <==> offset + |text| + 2 <= Capacity()
      ensures ok ==> Ends(old(Done()) + text)
    {
      ghost var done := Done();
      ok := Ensure(|text| + 1);
      if ok {
        Write(offset, text + [0]);
        assert done + (text + [0]) == (done + text) + [0];
        EndsHere(done, text);
      }
    }

    method PrintNumber(n: Int32) returns (ok: bool)
      requires Valid()
      modifies this`buffer, this`limit, this`offset, buffer
      ensures Valid() && Kept()
      ensures ok <==> old(offset) + |Decimal(n)| + 2 <= Capacity()
      ensures ok ==> Ends(old(Done()) + Decimal(n)) && old(offset) <= offset
    {
      ghost var done := Done();
      var number := Decimal(n);
      DecimalIsShort(n);
      ok := Ensure(|number| + 1);
      if !ok {
        return;
      }
      hide Decimal;
      hide CString;
      Write(offset, number);
      Write(offset + |number|, [0]);
      EndsHere(done, number);
      offset := offset + |number|;
      EndsLater(done + number);
    }

    /** With the offset already at the end. */
    lemma EndsLater(text: bytes)
      requires offset == |text| < buffer.Length && buffer[..|text| + 1] == text + [0]
      ensures Ends(text)
    {
    }

    // ----------------------------------------------------------------
    // Strings
    // ----------------------------------------------------------------

    /** How many characters escaping adds. */
    static method CountEscapes(input: bytes) returns (escapes: nat)
      ensures |input| + escapes == |EscapeAll(input)|
      ensures escapes == 0 ==> EscapeAll(input) == input
    {
      escapes := 0;
      var i := 0;
      EscapeNothing();
      while i < |input|
        invariant i <= |input|
        invariant i + escapes == |EscapeAll(input[..i])|
        invariant escapes == 0 ==> EscapeAll(input[..i]) == input[..i]
      {
        var c := input[i];
        EscapeSnoc(input, i);
        if c == QUOTE || c == BACKSLASH || c == 8 || c == 12 || c == NEWLINE || c == 13 || c == TAB {
          escapes := escapes + 1;
        } else if c < 32 {
          escapes := escapes + 5;
        }
        i := i + 1;
      }
      assert input[..i] == input;
    }

    /** What comes after the backslash. */
    method WriteEscape(at: nat, c: byte) returns (next: nat)
      requires Valid() && offset < at && (c <= 31 || c == QUOTE || c == BACKSLASH)
      requires at + |Escape(c)| <= limit <= buffer.Length
      modifies buffer
      ensures next == at - 1 + |Escape(c)|
      ensures old(buffer[at - 1]) == BACKSLASH ==> buffer[..next] == old(buffer[..at - 1]) + Escape(c)
    {
      ghost var before := buffer[..at - 1];
      assert buffer[..at] == before + [buffer[at - 1]];
      if c == BACKSLASH || c == QUOTE {
        Write(at, [c]);
        next := at + 1;
      } else if c == 8 {
        Write(at, [98]);
        next := at + 1;
      } else if c == 12 {
        Write(at, [102]);
        next := at + 1;
      } else if c == NEWLINE {
        Write(at, [110]);
        next := at + 1;
      } else if c == 13 {
        Write(at, [114]);
        next := at + 1;
      } else if c == TAB {
        Write(at, [116]);
        next := at + 1;
      } else {
        Write(at, [LETTER_U, 48, 48, HexDigit(c / 16), HexDigit(c % 16), 0]);
        next := at + 5;
        assert buffer[..next] == buffer[..at + 6][..next];
      }
    }

    /** The characters one by one, each escaped where it has to be. */
    method WriteEscaped(at: nat, input: bytes)
      requires Valid() && offset < at && at + |EscapeAll(input)| + 1 <= limit <= buffer.Length
      modifies buffer
      ensures buffer[..at + |EscapeAll(input)|] == old(buffer[..at]) + EscapeAll(input)
    {
      hide EscapeAll;
      hide Escape;
      EscapeNothing();
      ghost var before := buffer[..at];
      var i, next := 0, at;
      while i < |input|
        invariant i <= |input|
        invariant next == at + |EscapeAll(input[..i])|
        invariant next <= buffer.Length && buffer[..next] == before + EscapeAll(input[..i])
      {
        EscapeSnoc(input, i);
        EscapeGrows(input, i + 1);
        EscapePlain(input[i]);
        assert before + (EscapeAll(input[..i]) + Escape(input[i])) == before + EscapeAll(input[..i]) + Escape(input[i]);
        if input[i] > 31 && input[i] != QUOTE && input[i] != BACKSLASH {
          Write(next, [input[i]]);
          next := next + 1;
        } else {
          Write(next, [BACKSLASH]);
          assert buffer[..next] == buffer[..next + 1][..next] && buffer[next] == buffer[..next + 1][next];
          next := WriteEscape(next + 1, input[i]);
        }
        i := i + 1;
      }
      assert input[..i] == input;
    }

    /** The quotes, what is between them, and a NUL. */
    method WriteQuoted(input: bytes, escapes: nat)
      requires Valid() && CString(input) && offset + |Quoted(input)| + 1 <= limit <= buffer.Length
      requires |input| + escapes == |EscapeAll(input)| && (escapes == 0 ==> EscapeAll(input) == input)
      modifies buffer
      ensures buffer[..offset + |Quoted(input)| + 1] == old(buffer[..offset]) + Quoted(input) + [0]
    {
      hide EscapeAll;
      ghost var done := buffer[..offset];
      var outputLength := |input| + escapes;
      Write(offset, [QUOTE]);
      if escapes == 0 {
        Write(offset + 1, input);
      } else {
        WriteEscaped(offset + 1, input);
      }
      assert buffer[..offset + 1 + outputLength] == done + [QUOTE] + EscapeAll(input);
      Write(offset + outputLength + 1, [QUOTE]);
      Write(offset + outputLength + 2, [0]);
      QuotedText(done, input);
    }

    method PrintStringPtr(input: bytes) returns (ok: bool)
      requires Valid() && CString(input)
      modifies this`buffer, this`limit, buffer
      ensures Valid() && Kept()
      ensures ok <==> offset + |Quoted(input)| + 2 <= Capacity()
      ensures ok ==> Ends(old(Done()) + Quoted(input))
    {
      ghost var done := Done();
      QuotedText(done, input);
      hide EscapeAll;
      hide Quoted;
      hide CString;
      var escapes := CountEscapes(input);
      ok := Ensure(|input| + escapes + 3);
      if ok {
        WriteQuoted(input, escapes);
        EndsHere(done, Quoted(input));
      }
    }

    // ----------------------------------------------------------------
    // Arrays and objects
    // ----------------------------------------------------------------

    /** Room for `needed` bytes, a text written into it and the offset moved past the text. */
    method Append(text: bytes, needed: nat, terminate: bool) returns (ok: bool)
      requires Valid() && |text| + (if terminate then 1 else 0) <= needed
      modifies this`buffer, this`limit, this`offset, buffer
      ensures Valid() && Kept()
      ensures ok <==> old(offset) + needed + 1 <= Capacity()
      ensures ok ==> Done() == old(Done()) + text && (terminate ==> offset < buffer.Length && buffer[offset] == 0)
    {
      ok := Ensure(needed);
      if ok {
        Write(offset, text);
        offset := offset + |text|;
        if terminate {
          Write(offset, [0]);
          assert buffer[..offset] == buffer[..offset + 1][..offset];
        }
      }
    }

    method PrintValue(v: Json) returns (ok: bool)
      requires Valid() && Printable(v)
      modifies this, buffer
      ensures Valid() && Kept()
      ensures ok <==> Fits(v, NESTING_LIMIT - old(depth)) && old(offset) + |Render(v, old(depth), format)| + 2 <= Capacity()
      ensures ok ==> old(offset) <= offset && depth == old(depth) && Ends(old(Done()) + Render(v, depth, format))
      decreases v, 1
    {
      match v
      case Null => ok := PrintText(NullText());
      case Bool(b) => ok := PrintText(if b then TrueText() else FalseText());
      case Number(n) => ok := PrintNumber(n);
      case String(text) => ok := PrintStringPtr(text);
      case Array(items) => ok := PrintArray(items);
      case Object(members) => ok := PrintObject(members);
    }

    /** One element, and a comma unless it is the last one. */
    method PrintItem(item: Json, last: bool) returns (ok: bool)
      requires Valid() && Printable(item)
      modifies this, buffer
      ensures Valid() && Kept()
      ensures ok <==> Fits(item, NESTING_LIMIT - old(depth))
                      && old(offset) + |RenderItem(item, old(depth), format, last)| + 2 <= Capacity()
      ensures ok ==> depth == old(depth) && Done() == old(Done()) + RenderItem(item, depth, format, last)
      decreases item, 2
    {
      hide Render;
      hide Fits;
      ghost var done := Done();
      ok := PrintValue(item);
      if ok {
        UpdateOffset(done + Render(item, depth, format));
        if !last {
          ok := Append(CommaText(format), |CommaText(format)| + 1, true);
        }
      }
    }

    /** The elements in order. */
    method PrintItems(items: seq<Json>) returns (ok: bool)
      requires Valid() && forall i :: 0 <= i < |items| ==> Printable(items[i])
      modifies this, buffer
      ensures Valid() && Kept()
      ensures ok ==> (forall i :: 0 <= i < |items| ==> Fits(items[i], NESTING_LIMIT - depth)) && depth == old(depth)
      ensures ok ==> Done() == old(Done()) + RenderItems(items, depth, format)
      ensures !ok ==> (exists i :: 0 <= i < |items| && !Fits(items[i], NESTING_LIMIT - old(depth)))
                      || old(offset) + |RenderItems(items, old(depth), format)| + 2 > Capacity()
      decreases items, 3
    {
      hide Fits;
      hide Done;
      hide RenderItems;
      hide RenderItem;
      ghost var goal := Done() + RenderItems(items, depth, format);
      assert items[0..] == items;
      var i := 0;
      while i < |items|
        invariant i <= |items| && Valid() && Kept() && depth == old(depth)
        invariant Done() + RenderItems(items[i..], depth, format) == goal
        invariant forall j :: 0 <= j < i ==> Fits(items[j], NESTING_LIMIT - depth)
      {
        ItemsTextOn(Done(), items, i, depth, format);
        ok := PrintItem(items[i], i + 1 == |items|);
        if !ok {
          return;
        }
        i := i + 1;
      }
      NothingLeft(items[i..], [], depth, format);
      assert Done() + [] == Done();
      ok := true;
    }

    /** The opening bracket, and one level deeper. */
    method PrintBracket() returns (ok: bool)
      requires Valid()
      modifies this, buffer
      ensures Valid() && Kept()
      ensures ok <==> old(offset) + 2 <= Capacity()
      ensures ok ==> Done() == old(Done()) + [LBRACKET] && depth == old(depth) + 1
    {
      ok := Append([LBRACKET], 1, false);
      if ok {
        depth := depth + 1;
      }
    }

    method PrintArray(items: seq<Json>) returns (ok: bool)
      requires Valid() && forall i :: 0 <= i < |items| ==> Printable(items[i])
      modifies this, buffer
      ensures Valid() && Kept()
      ensures ok <==> Fits(Array(items), NESTING_LIMIT - old(depth))
                      && old(offset) + |Render(Array(items), old(depth), format)| + 2 <= Capacity()
      ensures ok ==> old(offset) <= offset && depth == old(depth) && Ends(old(Done()) + Render(Array(items), depth, format))
      decreases items, 4
    {
      BracketedText(Done(), items, depth, format);
      FitsInside([], items, NESTING_LIMIT - depth);
      hide Fits;
      hide Render;
      hide RenderItems;
      hide Done;
      hide Ends;
      if depth >= NESTING_LIMIT {
        return false;
      }
      ok := PrintBracket();
      if ok {
        ok := PrintItems(items);
        if ok {
          ok := PrintText([RBRACKET]);
          depth := depth - 1;
        }
      }
    }

    method PrintIndent() returns (ok: bool)
      requires Valid()
      modifies this`buffer, this`limit, this`offset, buffer
      ensures Valid() && Kept()
      ensures ok <==> !format || old(offset) + |Indent(depth, format)| + 1 <= Capacity()
      ensures ok ==> Done() == old(Done()) + Indent(depth, format)
    {
      ok := true;
      if format {
        ok := Append(Tabs(depth), depth, false);
      }
    }

    /** The indentation, the name and the colon of a member. */
    method PrintKey(key: bytes) returns (ok: bool)
      requires Valid() && CString(key)
      modifies this`buffer, this`limit, this`offset, buffer
      ensures Valid() && Kept()
      ensures ok <==> old(offset) + |KeyText(key, depth, format)| + 1 <= Capacity()
      ensures ok ==> Done() == old(Done()) + KeyText(key, depth, format)
    {
      KeyTextParts(Done(), key, depth, format);
      hide KeyText;
      hide Indent;
      hide Quoted;
      hide Done;
      hide Ends;
      ok := PrintIndent();
      if !ok {
        return;
      }
      ghost var indented := Done();
      ok := PrintStringPtr(key);
      if !ok {
        return;
      }
      UpdateOffset(indented + Quoted(key));
      ok := Append(ColonText(format), |ColonText(format)|, false);
    }

    method PrintMember(m: Member, last: bool) returns (ok: bool)
      requires Valid() && CString(m.key) && Printable(m.value)
      modifies this, buffer
      ensures Valid() && Kept()
      ensures ok <==> Fits(m.value, NESTING_LIMIT - old(depth))
                      && old(offset) + |RenderMember(m, old(depth), format, last)| + 2 <= Capacity()
      ensures ok ==> depth == old(depth) && Done() == old(Done()) + RenderMember(m, depth, format, last)
      decreases m, 2
    {
      MemberText(Done(), m, depth, format, last);
      ghost var named := Done() + KeyText(m.key, depth, format);
      hide KeyText;
      hide Render;
      hide RenderMember;
      hide Fits;
      hide Done;
      hide Ends;
      ok := PrintKey(m.key);
      if !ok {
        return;
      }
      ok := PrintValue(m.value);
      if !ok {
        return;
      }
      UpdateOffset(named + Render(m.value, depth, format));
      var end := (if last then [] else [COMMA]) + LineEnd(format);
      ok := Append(end, |end| + 1, true);
    }

    /** The members in order. */
    method PrintMembers(members: seq<Member>) returns (ok: bool)
      requires Valid() && forall i :: 0 <= i < |members| ==> CString(members[i].key) && Printable(members[i].value)
      modifies this, buffer
      ensures Valid() && Kept()
      ensures ok ==> (forall i :: 0 <= i < |members| ==> Fits(members[i].value, NESTING_LIMIT - depth)) && depth == old(depth)
      ensures ok ==> Done() == old(Done()) + RenderMembers(members, depth, format)
      ensures !ok ==> (exists i :: 0 <= i < |members| && !Fits(members[i].value, NESTING_LIMIT - old(depth)))
                      || old(offset) + |RenderMembers(members, old(depth), format)| + 2 > Capacity()
      decreases members, 3
    {
      hide Fits;
      hide Done;
      hide RenderMembers;
      hide RenderMember;
      ghost var goal := Done() + RenderMembers(members, depth, format);
      assert members[0..] == members;
      var i := 0;
      while i < |members|
        invariant i <= |members| && Valid() && Kept() && depth == old(depth)
        invariant Done() + RenderMembers(members[i..], depth, format) == goal
        invariant forall j :: 0 <= j < i ==> Fits(members[j].value, NESTING_LIMIT - depth)
      {
        MembersTextOn(Done(), members, i, depth, format);
        ok := PrintMember(members[i], i + 1 == |members|);
        if !ok {
          return;
        }
        i := i + 1;
      }
      NothingLeft([], members[i..], depth, format);
      assert Done() + [] == Done();
      ok := true;
    }

    /** The closing brace, indented one level less. */
    method PrintBrace() returns (ok: bool)
      requires Valid() && 0 < depth
      modifies this, buffer
      ensures Valid() && Kept() && offset == old(offset) && depth == old(depth) - 1
      ensures ok <==> offset + |CloseText(depth, format)| + 2 <= Capacity()
      ensures ok ==> Ends(old(Done()) + CloseText(depth, format))
    {
      ok := PrintText(CloseText(depth - 1, format));
      depth := depth - 1;
    }

    /** The opening brace, its line end when formatting, and one level deeper. */
    method PrintOpening() returns (ok: bool)
      requires Valid()
      modifies this, buffer
      ensures Valid() && Kept()
      ensures ok <==> old(offset) + |OpenText(format)| + 2 <= Capacity()
      ensures ok ==> Done() == old(Done()) + OpenText(format) && depth == old(depth) + 1
    {
      hide OpenText;
      ok := Append(OpenText(format), |OpenText(format)| + 1, false);
      if ok {
        depth := depth + 1;
      }
    }

    method PrintObject(members: seq<Member>) returns (ok: bool)
      requires Valid() && forall i :: 0 <= i < |members| ==> CString(members[i].key) && Printable(members[i].value)
      modifies this, buffer
      ensures Valid() && Kept()
      ensures ok <==> Fits(Object(members), NESTING_LIMIT - old(depth))
                      && old(offset) + |Render(Object(members), old(depth), format)| + 2 <= Capacity()
      ensures ok ==> old(offset) <= offset && depth == old(depth) && Ends(old(Done()) + Render(Object(members), depth, format))
      decreases members, 4
    {
      BracedText(Done(), members, depth, format);
      FitsInside(members, [], NESTING_LIMIT - depth);
      hide OpenText;
      hide CloseText;
      hide Printable;
      hide Fits;
      hide Render;
      hide RenderMembers;
      hide Done;
      hide Ends;
      if depth >= NESTING_LIMIT {
        return false;
      }
      ok := PrintOpening();
      if ok {
        ok := PrintMembers(members);
        if ok {
          ok := PrintBrace();
        }
      }
    }
  }

  // ------------------------------------------------------------------
  // The rendered text, piece by piece
  // ------------------------------------------------------------------

  lemma BracketedText(done: bytes, items: seq<Json>, depth: nat, format: bool)
    ensures done + Render(Array(items), depth, format) == done + [LBRACKET] + RenderItems(items, depth + 1, format) + [RBRACKET]
  {
  }

  lemma NothingLeft(items: seq<Json>, members: seq<Member>, depth: nat, format: bool)
    requires items == [] && members == []
    ensures RenderItems(items, depth, format) == [] && RenderMembers(members, depth, format) == []
  {
  }

  function RenderItem(item: Json, depth: nat, format: bool, last: bool): bytes {
    Render(item, depth, format) + (if last then [] else CommaText(format))
  }

  /** What is still to come of an array begins with its next item. */
  lemma ItemsTextOn(before: bytes, items: seq<Json>, i: nat, depth: nat, format: bool)
    requires i < |items|
    ensures before + RenderItems(items[i..], depth, format)
         == before + RenderItem(items[i], depth, format, i + 1 == |items|) + RenderItems(items[i + 1..], depth, format)
  {
    hide Render;
    assert items[i..][1..] == items[i + 1..];
  }

  function OpenText(format: bool): bytes {
    [LBRACE] + LineEnd(format)
  }

  function CloseText(depth: nat, format: bool): bytes {
    Indent(depth, format) + [RBRACE]
  }

  lemma BracedText(done: bytes, members: seq<Member>, depth: nat, format: bool)
    ensures done + Render(Object(members), depth, format)
         == done + OpenText(format) + RenderMembers(members, depth + 1, format) + CloseText(depth, format)
    ensures CString(CloseText(depth, format)) && |CloseText(depth, format)| > 0
    ensures |Render(Object(members), depth, format)|
         == |OpenText(format)| + |RenderMembers(members, depth + 1, format)| + |CloseText(depth, format)|
  {
    hide RenderMembers;
    var inner := RenderMembers(members, depth + 1, format);
    assert Render(Object(members), depth, format) == OpenText(format) + inner + CloseText(depth, format);
    hide Render;
    Enclosed(done, OpenText(format), inner, CloseText(depth, format));
  }

  lemma Enclosed(done: bytes, open: bytes, inner: bytes, close: bytes)
    ensures done + (open + inner + close) == done + open + inner + close
  {
  }

  lemma FitsInside(members: seq<Member>, items: seq<Json>, room: int)
    ensures Fits(Array(items), room) <==> 0 < room && forall i :: 0 <= i < |items| ==> Fits(items[i], room - 1)
    ensures Fits(Object(members), room) <==> 0 < room && forall i :: 0 <= i < |members| ==> Fits(members[i].value, room - 1)
  {
  }

  function KeyText(key: bytes, depth: nat, format: bool): bytes {
    Indent(depth, format) + Quoted(key) + ColonText(format)
  }

  lemma KeyTextParts(done: bytes, key: bytes, depth: nat, format: bool)
    ensures done + KeyText(key, depth, format) == done + Indent(depth, format) + Quoted(key) + ColonText(format)
    ensures |Quoted(key)| > 0
  {
    hide EscapeAll;
  }

  lemma MemberText(done: bytes, m: Member, depth: nat, format: bool, last: bool)
    ensures done + RenderMember(m, depth, format, last)
         == done + KeyText(m.key, depth, format) + Render(m.value, depth, format)
            + ((if last then [] else [COMMA]) + LineEnd(format))
  {
    hide Render;
    hide Quoted;
  }

  /** What is still to come of an object begins with its next member. */
  lemma MembersTextOn(before: bytes, members: seq<Member>, i: nat, depth: nat, format: bool)
    requires i < |members|
    ensures before + RenderMembers(members[i..], depth, format)
         == before + RenderMember(members[i], depth, format, i + 1 == |members|) + RenderMembers(members[i + 1..], depth, format)
  {
    hide RenderMember;
    assert members[i..][1..] == members[i + 1..];
  }

  lemma QuotedText(done: bytes, input: bytes)
    requires CString(input)
    ensures done + [QUOTE] + EscapeAll(input) + [QUOTE] + [0] == done + Quoted(input) + [0]
    ensures CString(Quoted(input)) && |Quoted(input)| == |EscapeAll(input)| + 2
  {
    EscapesAreText(input);
    hide EscapeAll;
    assert done + [QUOTE] + EscapeAll(input) + [QUOTE] == done + Quoted(input);
  }

  lemma EscapePlain(c: byte)
    ensures 1 <= |Escape(c)|
    ensures c > 31 && c != QUOTE && c != BACKSLASH ==> Escape(c) == [c]
  {
  }

  lemma EscapeNothing()
    ensures EscapeAll([]) == []
  {
  }

  lemma {:induction false} EscapeSnoc(s: bytes, i: nat)
    requires i < |s|
    ensures EscapeAll(s[..i + 1]) == EscapeAll(s[..i]) + Escape(s[i])
  {
    hide Escape;
    if i == 0 {
      assert s[..1][1..] == [];
    } else {
      EscapeSnoc(s[1..], i - 1);
      assert s[..i + 1][1..] == s[1..][..i] && s[..i][1..] == s[1..][..i - 1];
    }
  }

  lemma {:induction false} EscapeGrows(s: bytes, i: nat)
    requires i <= |s|
    ensures |EscapeAll(s[..i])| <= |EscapeAll(s)|
    decreases |s| - i
  {
    if i == |s| {
      assert s[..i] == s;
    } else {
      EscapeSnoc(s, i);
      EscapeGrows(s, i + 1);
    }
  }

  // ------------------------------------------------------------------
  // Numbers fit print_number's buffer of 26 bytes
  // ------------------------------------------------------------------

  function PowerOfTen(k: nat): nat {
    if k == 0 then 1 else 10 * PowerOfTen(k - 1)
  }

  lemma {:induction false} DigitsAreShort(n: nat, k: nat)
    requires 1 <= k && n < PowerOfTen(k)
    ensures |Digits(n)| <= k
  {
    if n >= 10 {
      DigitsAreShort(n / 10, k - 1);
    }
  }

  lemma DecimalIsShort(n: Int32)
    ensures |Decimal(n)| <= 25 && CString(Decimal(n))
  {
    assert PowerOfTen(5) == 100_000;
    assert PowerOfTen(10) == 10_000_000_000;
    DigitsAreShort(if n < 0 then -(n as int) else n, 10);
  }

  // ------------------------------------------------------------------
  // Printing whole documents
  // ------------------------------------------------------------------

  const DEFAULT_BUFFER_SIZE: nat := 256

  /** cJSON_PrintPreallocated: it needs the text, its NUL and exactly one byte more. */
  method PrintPreallocated(v: Json, buffer: array<byte>, format: bool) returns (ok: bool)
    requires Printable(v) && buffer.Length <= INT_MAX
    modifies buffer
    ensures ok <==> Fits(v, 1000) && |Render(v, 0, format)| + 2 <= buffer.Length
    ensures ok ==> buffer[..|Render(v, 0, format)| + 1] == Render(v, 0, format) + [0]
  {
    hide Render;
    hide Fits;
    var p := new PrintBuffer(buffer, true, format);
    assert p.Done() == [];
    ok := p.PrintValue(v);
    assert [] + Render(v, 0, format) == Render(v, 0, format);
  }

  /** cJSON_PrintBuffered: the same text whatever the size it starts with. */
  method PrintBuffered(v: Json, prebuffer: int, format: bool) returns (printed: array?<byte>)
    requires Printable(v) && prebuffer <= INT_MAX
    ensures printed != null <==> 0 <= prebuffer && Fits(v, 1000) && |Render(v, 0, format)| + 2 <= 2147483647
    ensures printed != null ==>
      |Render(v, 0, format)| < printed.Length && printed[..|Render(v, 0, format)| + 1] == Render(v, 0, format) + [0]
  {
    hide Render;
    hide Fits;
    if prebuffer < 0 {
      return null;
    }
    var buffer := new byte[prebuffer];
    var p := new PrintBuffer(buffer, false, format);
    assert p.Done() == [];
    var ok := p.PrintValue(v);
    if !ok {
      return null;
    }
    assert [] + Render(v, 0, format) == Render(v, 0, format);
    printed := p.buffer;
  }

  /** cJSON_Print and cJSON_PrintUnformatted: the text as a C string of its own. */
  method Print(v: Json, format: bool) returns (printed: Option<bytes>)
    requires Printable(v)
    ensures printed == if Fits(v, 1000) && |Render(v, 0, format)| + 2 <= 2147483647 then Some(Render(v, 0, format)) else None
  {
    ghost var text := Render(v, 0, format);
    RenderIsText(v, 0, format);
    hide Render;
    hide Fits;
    var buffer := new byte[DEFAULT_BUFFER_SIZE];
    var p := new PrintBuffer(buffer, false, format);
    assert p.Done() == [];
    var ok := p.PrintValue(v);
    if !ok {
      return None;
    }
    assert [] + text == text;
    p.UpdateOffset(text);
    printed := Shrink(p, text);
  }

  /** The text and its NUL in an array of their own. */
  method Shrink(p: PrintBuffer, ghost text: bytes) returns (printed: Option<bytes>)
    requires p.Valid() && p.Done() == text && CString(text)
    ensures printed == Some(text)
  {
    var copy := new byte[p.offset + 1];
    var from := p.buffer;
    forall i | 0 <= i < p.offset {
      copy[i] := from[i];
    }
    copy[p.offset] := 0;
    assert copy[..p.offset] == p.buffer[..p.offset];
    assert copy[..] == text + [0] + [];
    JsonParser.TerminatedText(text, []);
    CStringIsWhole(text);
    return Some(UpToNul(copy[..]));
  }

  /** Printing a tree and parsing what was printed gives the tree. */
  method PrintAndParse(v: Json, format: bool, requireNullTerminated: bool) returns (item: Option<Json>)
    requires Printable(v) && Fits(v, 1000) && |Render(v, 0, format)| + 2 <= 2147483647
    ensures item == Some(v)
  {
    hide Render;
    hide Fits;
    hide JsonGrammar.ParseBuffer;
    var printed := Print(v, format);
    JsonRoundTrip.PrintParseRoundTrip(v, format, requireNullTerminated);
    item := JsonParser.ParseWithLength(printed.value + [0], requireNullTerminated);
  }
}
