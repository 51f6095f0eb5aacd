/**
 cJSON's parse buffer: the parser as it runs, moving one offset through the text.

 Every method is proved against the function of the same name on the text from
 the offset on, and reads only inside the buffer.
 */
module JsonParser {
  import opened Bytes
  import opened Json
  import opened JsonString
  import G = JsonGrammar

  // ------------------------------------------------------------------
  // Numbers in base 16 and base 64
  // ------------------------------------------------------------------

  predicate AllHex(h: bytes) {
    forall i :: 0 <= i < |h| ==> HexNibble(h[i]).Some?
  }

  /** The digits so far, most significant first. */
  function HexSoFar(h: bytes): nat
    requires AllHex(h)
  {
    if h == [] then 0 else HexSoFar(h[..|h| - 1]) * 16 + HexNibble(h[|h| - 1]).value
  }

  lemma FourDigits(h: bytes)
    requires |h| == 4
    ensures AllHex(h) ==> HexSoFar(h) == Hex4(h)
    ensures !AllHex(h) ==> Hex4(h) == 0
  {
    if AllHex(h) {
      var a, b, c := h[..1], h[..2], h[..3];
      assert h[..3][..2] == b && h[..2][..1] == a && a[..0] == [];
      assert HexSoFar(c) == HexSoFar(b) * 16 + HexNibble(h[2]).value;
      assert HexSoFar(b) == HexSoFar(a) * 16 + HexNibble(h[1]).value;
      assert HexSoFar(a) == HexNibble(h[0]).value;
    }
  }

  /** Six bits dropped n times. */
  function Shifted(c: nat, n: nat): nat {
    if n == 0 then c else Shifted(c, n - 1) / 0x40
  }

  /** The byte an encoder ors into the first one to announce the length. */
  function LeadMark(length: nat): nat {
    if length == 2 then 0xC0 else if length == 3 then 0xE0 else if length == 4 then 0xF0 else 0
  }

  /** UTF-8 as the encoder's loop writes it, from the last byte to the first. */
  lemma Utf8Bytes(c: CodePoint)
    ensures var b := Utf8(c);
            && b[0] == LeadMark(|b|) + Shifted(c, |b| - 1)
            && forall k :: 1 <= k < |b| ==> b[k] == 0x80 + Shifted(c, |b| - 1 - k) % 0x40
  {
    assert Shifted(c, 1) == c / 0x40;
    assert Shifted(c, 2) == c / 0x40 / 0x40 == c / 0x1000;
    assert Shifted(c, 3) == c / 0x1000 / 0x40 == c / 0x4_0000;
  }

  lemma Utf8Length(c: CodePoint)
    ensures |Utf8(c)| == if c >= 0x1_0000 then 4 else if c >= 0x800 then 3 else if c >= 0x80 then 2 else 1
    ensures LeadMark(|Utf8(c)|) == if c >= 0x1_0000 then 0xF0 else if c >= 0x800 then 0xE0 else if c >= 0x80 then 0xC0 else 0
  {
  }

  lemma ShiftOn(c: nat, n: nat)
    ensures Shifted(c, 0) == c && Shifted(c, n + 1) == Shifted(c, n) / 0x40
  {
  }

  // ------------------------------------------------------------------
  // Reading an output buffer as a C string
  // ------------------------------------------------------------------

  lemma {:induction false} TerminatedText(text: bytes, junk: bytes)
    ensures UpToNul(text + [0] + junk) == UpToNul(text)
  {
    if text != [] {
      TerminatedText(text[1..], junk);
      assert (text + [0] + junk)[1..] == text[1..] + [0] + junk;
    }
  }

  /** The text from a place on. */
  function Tail(content: bytes, i: nat): (tail: bytes)
    requires i <= |content|
    ensures |tail| == |content| - i
  {
    content[i..]
  }

  lemma TailHere(content: bytes, i: nat)
    requires i <= |content|
    ensures i < |content| ==> Tail(content, i)[0] == content[i] && Tail(content, i)[1..] == Tail(content, i + 1)
  {
  }

  class ParseBuffer {
    const content: bytes
    var offset: nat
    var depth: nat

    ghost predicate Valid()
      reads this`offset
    {
      offset <= |content|
    }

    constructor (content: bytes)
      ensures Valid() && this.content == content && offset == 0 && depth == 0
    {
      this.content, offset, depth := content, 0, 0;
    }

    method SkipWhitespace()
      requires Valid()
      modifies this`offset
      ensures Valid() && Tail(content, offset) == G.Skip(Tail(content, old(offset)))
    {
      if offset >= |content| {
        return;
      }
      while offset < |content| && content[offset] <= 32
        invariant old(offset) <= offset <= |content|
        invariant G.DropBlank(Tail(content, offset)) == G.DropBlank(Tail(content, old(offset)))
      {
        assert Tail(content, offset)[1..] == content[offset + 1..];
        offset := offset + 1;
      }
      if offset == |content| {
        offset := offset - 1;
      }
    }

    method SkipBom()
      requires offset == 0
      modifies this`offset
      ensures Valid() && Tail(content, offset) == G.SkipBom(content)
    {
      if offset + 4 < |content| && content[0] == 0xEF && content[1] == 0xBB && content[2] == 0xBF {
        offset := offset + 3;
      }
    }

    // ----------------------------------------------------------------
    // Strings
    // ----------------------------------------------------------------

    /** parse_hex4 */
    method ParseHex4(input: nat) returns (h: nat)
      requires input + 4 <= |content|
      ensures h == Hex4(content[input..input + 4])
    {
      ghost var digits := content[input..input + 4];
      h := 0;
      var i := 0;
      while i < 4
        invariant 0 <= i <= 4 && AllHex(digits[..i])
        invariant h == HexSoFar(digits[..i]) * (if i < 4 then 16 else 1)
      {
        assert digits[..i + 1][..i] == digits[..i] && digits[i] == content[input + i];
        match HexNibble(content[input + i]) {
          case None =>
            FourDigits(digits);
            return 0;
          case Some(d) =>
            h := h + d;
        }
        if i < 3 {
          h := h * 16;
        }
        i := i + 1;
      }
      assert digits[..4] == digits;
      FourDigits(digits);
    }

    /** The first scan: where the literal after the opening quote ends, and how many escapes it skips. */
    method FindEnd(start: nat) returns (found: bool, end: nat, skipped: nat)
      requires start <= |content|
      ensures found <==> ScanEnd(content[start..]).Some?
      ensures found ==> start <= end < |content| && ScanEnd(content[start..]) == Some(end - start)
      ensures found ==> skipped == Escapes(content[start..end + 1], true)
    {
      hide Scanning;
      hide ScanEnd;
      hide Escapes;
      end, skipped := start, 0;
      ScanningStarts(content[start..]);
      while end < |content| && content[end] != QUOTE
        invariant start <= end <= |content| && Scanning(content[start..], content[end..], skipped)
      {
        ScanningOn(content[start..], content[end..], skipped);
        assert content[end..][1..] == content[end + 1..];
        if content[end] == BACKSLASH {
          if end + 1 >= |content| {
            return false, end, skipped;
          }
          assert content[end..][2..] == content[end + 2..];
          skipped := skipped + 1;
          end := end + 1;
        }
        end := end + 1;
      }
      ScanningEnds(content[start..], content[end..], skipped);
      found := end < |content|;
      if found {
        assert content[start..][..end - start + 1] == content[start..end + 1];
      }
    }

    /** The character of the \u literal at `input`, or sequence length 0. */
    method Utf16Codepoint(input: nat, end: nat) returns (sequenceLength: nat, codepoint: CodePoint)
      requires input < end < |content|
      ensures var p := Utf16Piece(content[input..end + 1]);
              if p.None? then sequenceLength == 0
              else p == Some(Piece(Utf8(codepoint), sequenceLength)) && sequenceLength > 0
    {
      hide Hex4;
      hide Utf8;
      sequenceLength, codepoint := 0, 0;
      if end - input < 6 {
        return;
      }
      Utf16At(content, input, end);
      hide Utf16Piece;
      var first := ParseHex4(input + 2);
      if 0xDC00 <= first <= 0xDFFF {
        return;
      }
      if 0xD800 <= first <= 0xDBFF {
        if end - (input + 6) < 6 {
          return;
        }
        if content[input + 6] != BACKSLASH || content[input + 7] != LETTER_U {
          return;
        }
        var second := ParseHex4(input + 8);
        if second < 0xDC00 || second > 0xDFFF {
          return;
        }
        sequenceLength, codepoint := 12, 0x1_0000 + first % 0x400 * 0x400 + second % 0x400;
      } else {
        sequenceLength, codepoint := 6, first;
      }
    }

    /** Appends a character to the first `out` bytes of the output. */
    static method EncodeUtf8(codepoint: CodePoint, output: array<byte>, out: nat) returns (next: nat)
      requires out + |Utf8(codepoint)| <= output.Length
      modifies output
      ensures next == out + |Utf8(codepoint)| && output[..next] == old(output[..out]) + Utf8(codepoint)
    {
      hide *;
      ghost var expected := Utf8(codepoint);
      Utf8Bytes(codepoint);
      Utf8Length(codepoint);
      var length, mark := 1, 0;
      if codepoint >= 0x1_0000 {
        length, mark := 4, 0xF0;
      } else if codepoint >= 0x800 {
        length, mark := 3, 0xE0;
      } else if codepoint >= 0x80 {
        length, mark := 2, 0xC0;
      }
      ShiftOn(codepoint, 0);
      var bits: nat := codepoint;
      var position: nat := length - 1;
      while position > 0
        invariant 0 <= position < length
        invariant bits == Shifted(codepoint, length - 1 - position)
        invariant forall k :: position < k < length ==> output[out + k] == expected[k]
        invariant output[..out] == old(output[..out])
      {
        assert expected[position] == 0x80 + bits % 0x40;
        output[out + position] := 0x80 + bits % 0x40;
        ShiftOn(codepoint, length - 1 - position);
        bits := bits / 0x40;
        position := position - 1;
      }
      assert expected[0] == mark + bits;
      output[out] := mark + bits;
      next := out + length;
      assert output[out..next] == expected;
    }

    /** One character of the literal, raw or escaped; 0 used means a bad escape. */
    method DecodeOne(input: nat, end: nat, output: array<byte>, out: nat) returns (used: nat, next: nat)
      requires input < end < |content|
      requires var p := NextPiece(content[input..end + 1]); out <= output.Length && (p.Some? ==> out + |p.value.out| <= output.Length)
      modifies output
      ensures var p := NextPiece(content[input..end + 1]);
              if p.None? then used == 0 && next == out
              else used == p.value.used && next <= output.Length && output[..next] == old(output[..out]) + p.value.out
    {
      next := out;
      if content[input] != BACKSLASH {
        output[out] := content[input];
        return 1, out + 1;
      }
      if content[input + 1] == LETTER_U {
        var codepoint;
        used, codepoint := Utf16Codepoint(input, end);
        hide Utf16Piece;
        hide Utf8;
        if used != 0 {
          next := EncodeUtf8(codepoint, output, out);
        }
        return;
      }
      match ShortEscape(content[input + 1]) {
        case None =>
          return 0, out;
        case Some(c) =>
          output[out] := c;
          return 2, out + 1;
      }
    }

    /** The second scan: decodes the literal into the output, and never writes past what the first scan reserved. */
    method Decode(start: nat, end: nat, output: array<byte>) returns (ok: bool, length: nat, stopped: nat)
      requires start <= end < |content| && EndsAtLast(content[start..end + 1], true)
      requires Reserve(content[start..end + 1], true) <= output.Length
      modifies output
      ensures stopped <= |content| && length <= Reserve(content[start..end + 1], true)
      ensures ok <==> Unescape(content[start..end + 1]).Some?
      ensures ok ==> Unescape(content[start..end + 1]) == Some(output[..length])
    {
      hide *;
      ghost var literal := content[start..end + 1];
      ghost var between := true;
      length, stopped := 0, start;
      DecodingStarts(literal);
      while stopped < end
        invariant start <= stopped <= end + 1 && length <= output.Length
        invariant Decoding(literal, content[stopped..end + 1], between, output[..length])
        decreases end + 1 - stopped
      {
        ghost var u := content[stopped..end + 1];
        DecodingOn(literal, u, between, output[..length]);
        var used;
        used, length := DecodeOne(stopped, end, output, length);
        if used == 0 {
          return false, length, stopped;
        }
        SliceOfSlice(content, stopped, end + 1, used, |u|);
        assert u[used..] == u[used..|u|];
        between := used < |u| && BetweenAfter(u, between, used);
        stopped := stopped + used;
      }
      DecodingEnds(literal, content[stopped..end + 1], between, output[..length]);
      ok := true;
    }

    /** Allocates what the first scan reserved, decodes into it and ends the text with a NUL. */
    method DecodeLiteral(input: nat, end: nat, skipped: nat) returns (ok: bool, text: bytes, stopped: nat, ghost reserved: nat)
      requires input <= end < |content| && EndsAtLast(content[input..end + 1], true)
      requires skipped == Escapes(content[input..end + 1], true)
      ensures stopped <= |content| && (ok <==> Unescape(content[input..end + 1]).Some?)
      ensures ok ==> text == UpToNul(Unescape(content[input..end + 1]).value)
      ensures reserved == (end - input) + 1 - skipped + 1
    {
      hide EndsAtLast;
      hide Escapes;
      hide Unescape;
      ReserveIsNatural(content[input..end + 1], true);
      var allocationLength := end - (input - 1) - skipped;
      var output := new byte[allocationLength + 1];
      reserved := output.Length;
      var length;
      ok, length, stopped := Decode(input, end, output);
      text := [];
      if ok {
        ghost var decoded := output[..length];
        output[length] := 0;
        assert output[..] == decoded + [0] + output[length + 1..];
        TerminatedText(decoded, output[length + 1..]);
        text := UpToNul(output[..]);
      }
    }

    method ParseString() returns (ok: bool, text: bytes)
      requires Valid() && offset < |content|
      modifies this`offset
      ensures Valid() && (ok <==> JsonString.ParseString(Tail(content, old(offset))).Some?)
      ensures ok ==> JsonString.ParseString(Tail(content, old(offset))) == Some((text, Tail(content, offset)))
    {
      hide JsonString.ParseString;
      hide ScanEnd;
      hide EndsAtLast;
      hide Escapes;
      hide Unescape;
      hide UpToNul;
      ghost var s := Tail(content, offset);
      var input := offset + 1;
      text := [];
      StringStep(s);
      if content[offset] != QUOTE {
        offset := input;
        return false, text;
      }
      var found, end, skipped := FindEnd(input);
      assert s[1..] == content[input..];
      if !found {
        offset := input;
        return false, text;
      }
      LiteralAt(content, offset, end);
      var stopped;
      ghost var reserved;
      ok, text, stopped, reserved := DecodeLiteral(input, end, skipped);
      if !ok {
        offset := stopped;
        return;
      }
      offset := end;
      offset := offset + 1;
    }

    // ----------------------------------------------------------------
    // Numbers
    // ----------------------------------------------------------------

    /** The characters copied for strtod. */
    method CountNumber() returns (length: nat)
      requires Valid()
      ensures length == G.NumberRun(Tail(content, offset)) && offset + length <= |content|
      ensures Tail(content, offset)[..length] == content[offset..offset + length]
    {
      length := 0;
      while offset + length < |content| && G.NumberChar(content[offset + length])
        invariant offset + length <= |content|
        invariant G.NumberRun(Tail(content, offset)) == length + G.NumberRun(Tail(content, offset + length))
      {
        length := length + 1;
      }
      assert Tail(content, offset)[..length] == content[offset..offset + length];
    }

    method ParseNumber() returns (ok: bool, value: Json)
      requires Valid()
      modifies this`offset
      ensures Valid() && (ok <==> G.ParseNumber(Tail(content, old(offset))).Some?)
      ensures ok ==> G.ParseNumber(Tail(content, old(offset))) == Some((value, Tail(content, offset)))
    {
      ghost var s := Tail(content, offset);
      var length := CountNumber();
      match G.ReadInteger(content[offset..offset + length]) {
        case None =>
          return false, Null;
        case Some((n, used)) =>
          assert s[used..] == Tail(content, offset + used);
          offset := offset + used;
          return true, Number(n);
      }
    }

    // ----------------------------------------------------------------
    // Values
    // ----------------------------------------------------------------

    /** strncmp at the offset, where that much can be read. */
    predicate Reads(keyword: bytes)
      requires Valid()
      reads this
    {
      offset + |keyword| <= |content| && content[offset..offset + |keyword|] == keyword
    }

    lemma ReadsIsPrefix(keyword: bytes)
      requires Valid()
      ensures Reads(keyword) <==> keyword <= Tail(content, offset)
    {
      if offset + |keyword| <= |content| {
        assert content[offset..offset + |keyword|] == Tail(content, offset)[..|keyword|];
      }
    }

    method ParseValue() returns (ok: bool, value: Json)
      requires Valid()
      modifies this`offset, this`depth
      ensures Valid() && (ok <==> G.ParseValue(Tail(content, old(offset)), old(depth)).Some?)
      ensures ok ==> G.ParseValue(Tail(content, old(offset)), old(depth)) == Some((value, Tail(content, offset))) && depth == old(depth)
      decreases |content| - offset, 2
    {
      ghost var s := Tail(content, offset);
      value := Null;
      ReadsIsPrefix(NullText());
      ReadsIsPrefix(FalseText());
      ReadsIsPrefix(TrueText());
      if Reads(NullText()) {
        assert s[4..] == content[offset + 4..];
        offset := offset + 4;
        return true, Null;
      }
      if Reads(FalseText()) {
        assert s[5..] == content[offset + 5..];
        offset := offset + 5;
        return true, Bool(false);
      }
      if Reads(TrueText()) {
        assert s[4..] == content[offset + 4..];
        offset := offset + 4;
        return true, Bool(true);
      }
      hide NullText;
      hide FalseText;
      hide TrueText;
      hide Reads;
      if offset < |content| && content[offset] == QUOTE {
        var text;
        ok, text := ParseString();
        value := String(text);
        return;
      }
      if offset < |content| && (content[offset] == MINUS || Digit(content[offset])) {
        ok, value := ParseNumber();
        return;
      }
      if offset < |content| && content[offset] == LBRACKET {
        ok, value := ParseArray();
        return;
      }
      if offset < |content| && content[offset] == LBRACE {
        ok, value := ParseObject();
        return;
      }
      ok := false;
    }

    method ParseArray() returns (ok: bool, value: Json)
      requires Valid() && offset < |content| && content[offset] == LBRACKET
      modifies this`offset, this`depth
      ensures Valid() && (ok <==> G.ParseArray(Tail(content, old(offset)), old(depth)).Some?)
      ensures ok ==> G.ParseArray(Tail(content, old(offset)), old(depth)) == Some((value, Tail(content, offset))) && depth == old(depth)
      decreases |content| - offset, 1
    {
      hide G.ParseItems;
      hide G.Skip;
      TailHere(content, offset);
      hide Tail;
      value := Null;
      if depth >= NESTING_LIMIT {
        return false, value;
      }
      depth := depth + 1;
      offset := offset + 1;
      SkipWhitespace();
      TailHere(content, offset);
      if offset < |content| && content[offset] == RBRACKET {
        depth := depth - 1;
        offset := offset + 1;
        return true, Array([]);
      }
      if offset >= |content| {
        offset := offset - 1;
        return false, value;
      }
      offset := offset - 1;
      var items;
      ok, items := ParseItems();
      depth := if ok then depth - 1 else depth;
      value := Array(items);
    }

    /** The elements, separated by commas, and the closing bracket; the offset is in front of the first one. */
    method ParseItems() returns (ok: bool, items: seq<Json>)
      requires Valid() && offset < |content|
      modifies this`offset, this`depth
      ensures Valid() && (ok <==> G.ParseItems(Tail(content, old(offset) + 1), old(depth)).Some?)
      ensures ok ==> G.ParseItems(Tail(content, old(offset) + 1), old(depth)) == Some((items, Tail(content, offset))) && depth == old(depth)
      decreases |content| - offset, 0
    {
      hide G.ParseItems;
      hide G.Skip;
      hide G.ParseValue;
      hide Tail;
      ghost var inner := Tail(content, offset + 1);
      items := [];
      ItemsSoFarStarts(inner, depth);
      var more := true;
      while more
        invariant old(offset) <= offset <= |content| && depth == old(depth)
        invariant more ==> offset < |content| && ItemsSoFar(inner, items, Tail(content, offset + 1), depth)
        invariant !more ==> ItemsEnd(inner, items, Tail(content, offset), depth)
        decreases |content| - offset, more
      {
        ItemsStep(inner, items, Tail(content, offset + 1), depth);
        hide ItemsSoFar;
        offset := offset + 1;
        SkipWhitespace();
        var item;
        ok, item := ParseValue();
        if !ok {
          return;
        }
        items := items + [item];
        SkipWhitespace();
        TailHere(content, offset);
        more := offset < |content| && content[offset] == COMMA;
      }
      TailHere(content, offset);
      if offset >= |content| || content[offset] != RBRACKET {
        return false, items;
      }
      offset := offset + 1;
      ok := true;
    }

    method ParseObject() returns (ok: bool, value: Json)
      requires Valid() && offset < |content| && content[offset] == LBRACE
      modifies this`offset, this`depth
      ensures Valid() && (ok <==> G.ParseObject(Tail(content, old(offset)), old(depth)).Some?)
      ensures ok ==> G.ParseObject(Tail(content, old(offset)), old(depth)) == Some((value, Tail(content, offset))) && depth == old(depth)
      decreases |content| - offset, 1
    {
      hide G.ParseMembers;
      hide G.Skip;
      TailHere(content, offset);
      hide Tail;
      value := Null;
      if depth >= NESTING_LIMIT {
        return false, value;
      }
      depth := depth + 1;
      offset := offset + 1;
      SkipWhitespace();
      TailHere(content, offset);
      if offset < |content| && content[offset] == RBRACE {
        depth := depth - 1;
        offset := offset + 1;
        return true, Object([]);
      }
      if offset >= |content| {
        offset := offset - 1;
        return false, value;
      }
      offset := offset - 1;
      var members;
      ok, members := ParseMembers();
      depth := if ok then depth - 1 else depth;
      value := Object(members);
    }

    /** The members, separated by commas, and the closing brace; the offset is in front of the first one. */
    method ParseMembers() returns (ok: bool, members: seq<Member>)
      requires Valid() && offset < |content|
      modifies this`offset, this`depth
      ensures Valid() && (ok <==> G.ParseMembers(Tail(content, old(offset) + 1), old(depth)).Some?)
      ensures ok ==> G.ParseMembers(Tail(content, old(offset) + 1), old(depth)) == Some((members, Tail(content, offset))) && depth == old(depth)
      decreases |content| - offset, 0
    {
      hide G.ParseMembers;
      hide G.Skip;
      hide G.ParseMember;
      hide Tail;
      ghost var inner := Tail(content, offset + 1);
      members := [];
      MembersSoFarStarts(inner, depth);
      var more := true;
      while more
        invariant old(offset) <= offset <= |content| && depth == old(depth)
        invariant more ==> offset < |content| && MembersSoFar(inner, members, Tail(content, offset + 1), depth)
        invariant !more ==> MembersEnd(inner, members, Tail(content, offset), depth)
        decreases |content| - offset, more
      {
        MembersStep(inner, members, Tail(content, offset + 1), depth);
        hide MembersSoFar;
        if offset + 1 >= |content| {
          return false, members;
        }
        offset := offset + 1;
        var member;
        ok, member := ParseMember();
        if !ok {
          return;
        }
        members := members + [member];
        SkipWhitespace();
        TailHere(content, offset);
        more := offset < |content| && content[offset] == COMMA;
      }
      TailHere(content, offset);
      if offset >= |content| || content[offset] != RBRACE {
        return false, members;
      }
      offset := offset + 1;
      ok := true;
    }

    /** The name, the colon and the value of one member. */
    method ParseMember() returns (ok: bool, member: Member)
      requires Valid() && offset < |content|
      modifies this`offset, this`depth
      ensures Valid() && (ok <==> G.ParseMember(Tail(content, old(offset)), old(depth)).Some?)
      ensures ok ==> G.ParseMember(Tail(content, old(offset)), old(depth)) == Some((member, Tail(content, offset))) && depth == old(depth)
      decreases |content| - offset, 3
    {
      hide G.ParseValue;
      hide JsonString.ParseString;
      hide G.Skip;
      member := Member([], Null);
      SkipWhitespace();
      var key;
      ok, key := ParseString();
      if !ok {
        return;
      }
      SkipWhitespace();
      if offset >= |content| || content[offset] != COLON {
        return false, member;
      }
      TailHere(content, offset);
      offset := offset + 1;
      SkipWhitespace();
      var value;
      ok, value := ParseValue();
      member := Member(key, value);
    }
  }

  // ------------------------------------------------------------------
  // Documents
  // ------------------------------------------------------------------

  /** cJSON_ParseWithLengthOpts */
  method ParseWithLength(value: bytes, requireNullTerminated: bool) returns (item: Option<Json>)
    ensures item == G.ParseBuffer(value, requireNullTerminated)
  {
    hide G.ParseValue;
    hide G.Skip;
    hide G.SkipBom;
    if |value| == 0 {
      return None;
    }
    var buffer := new ParseBuffer(value);
    buffer.SkipBom();
    buffer.SkipWhitespace();
    var ok, v := buffer.ParseValue();
    if !ok {
      return None;
    }
    if requireNullTerminated {
      buffer.SkipWhitespace();
      if buffer.offset >= |buffer.content| || buffer.content[buffer.offset] != 0 {
        return None;
      }
    }
    return Some(v);
  }

  // ------------------------------------------------------------------
  // Lists, half way
  // ------------------------------------------------------------------

  ghost function PrependAll<T>(done: seq<T>, r: Option<(seq<T>, bytes)>): Option<(seq<T>, bytes)> {
    match r case None => None case Some((later, rest)) => Some((done + later, rest))
  }

  /** The items still to be read, after those read already, are what the whole list gives. */
  ghost predicate ItemsSoFar(inner: bytes, items: seq<Json>, t: bytes, depth: nat) {
    G.ParseItems(inner, depth) == PrependAll(items, G.ParseItems(t, depth))
  }

  /** The list ends here, or nowhere. */
  ghost predicate ItemsEnd(inner: bytes, items: seq<Json>, u: bytes, depth: nat) {
    G.ParseItems(inner, depth) == if u != [] && u[0] == RBRACKET then Some((items, u[1..])) else None
  }

  lemma ItemsSoFarStarts(inner: bytes, depth: nat)
    ensures ItemsSoFar(inner, [], inner, depth)
  {
    hide G.ParseItems;
    var r := G.ParseItems(inner, depth);
    if r.Some? {
      assert [] + r.value.0 == r.value.0;
    }
  }

  lemma ItemsStep(inner: bytes, items: seq<Json>, t: bytes, depth: nat)
    requires ItemsSoFar(inner, items, t, depth)
    ensures var r := G.ParseValue(G.Skip(t), depth);
            if r.None? then G.ParseItems(inner, depth).None?
            else
              var u := G.Skip(r.value.1);
              if u != [] && u[0] == COMMA then ItemsSoFar(inner, items + [r.value.0], u[1..], depth)
              else ItemsEnd(inner, items + [r.value.0], u, depth)
  {
    ItemsUnfold(items, t, depth);
  }

  lemma ItemsUnfold(items: seq<Json>, t: bytes, depth: nat)
    ensures PrependAll(items, G.ParseItems(t, depth)) ==
            var r := G.ParseValue(G.Skip(t), depth);
            if r.None? then None else
              var u := G.Skip(r.value.1);
              if u != [] && u[0] == COMMA then PrependAll(items + [r.value.0], G.ParseItems(u[1..], depth))
              else if u != [] && u[0] == RBRACKET then Some((items + [r.value.0], u[1..]))
              else None
  {
    hide G.ParseValue;
    hide G.ParseMember;
    hide G.Skip;
    match G.ParseValue(G.Skip(t), depth)
    case None =>
    case Some((v, after)) =>
      var u := G.Skip(after);
      if u != [] && u[0] == COMMA {
        var r := G.ParseItems(u[1..], depth);
        if r.Some? {
          assert items + ([v] + r.value.0) == items + [v] + r.value.0;
        }
      }
  }

  /** The members still to be read, after those read already, are what the whole list gives. */
  ghost predicate MembersSoFar(inner: bytes, members: seq<Member>, t: bytes, depth: nat) {
    G.ParseMembers(inner, depth) == PrependAll(members, G.ParseMembers(t, depth))
  }

  /** The list ends here, or nowhere. */
  ghost predicate MembersEnd(inner: bytes, members: seq<Member>, u: bytes, depth: nat) {
    G.ParseMembers(inner, depth) == if u != [] && u[0] == RBRACE then Some((members, u[1..])) else None
  }

  lemma MembersSoFarStarts(inner: bytes, depth: nat)
    ensures MembersSoFar(inner, [], inner, depth)
  {
    hide G.ParseMembers;
    var r := G.ParseMembers(inner, depth);
    if r.Some? {
      assert [] + r.value.0 == r.value.0;
    }
  }

  lemma MembersStep(inner: bytes, members: seq<Member>, t: bytes, depth: nat)
    requires MembersSoFar(inner, members, t, depth)
    ensures var r := G.ParseMember(t, depth);
            if r.None? then G.ParseMembers(inner, depth).None?
            else
              var u := G.Skip(r.value.1);
              if u != [] && u[0] == COMMA then MembersSoFar(inner, members + [r.value.0], u[1..], depth)
              else MembersEnd(inner, members + [r.value.0], u, depth)
  {
    MembersUnfold(members, t, depth);
  }

  lemma MembersUnfold(members: seq<Member>, t: bytes, depth: nat)
    ensures PrependAll(members, G.ParseMembers(t, depth)) ==
            var r := G.ParseMember(t, depth);
            if r.None? then None else
              var u := G.Skip(r.value.1);
              if u != [] && u[0] == COMMA then PrependAll(members + [r.value.0], G.ParseMembers(u[1..], depth))
              else if u != [] && u[0] == RBRACE then Some((members + [r.value.0], u[1..]))
              else None
  {
    hide G.ParseValue;
    hide G.ParseMember;
    hide G.Skip;
    match G.ParseMember(t, depth)
    case None =>
    case Some((v, after)) =>
      var u := G.Skip(after);
      if u != [] && u[0] == COMMA {
        var r := G.ParseMembers(u[1..], depth);
        if r.Some? {
          assert members + ([v] + r.value.0) == members + [v] + r.value.0;
        }
      }
  }

  // ------------------------------------------------------------------
  // The second scan, half way
  // ------------------------------------------------------------------

  ghost function Prepend(done: bytes, r: Option<bytes>): Option<bytes> {
    match r case None => None case Some(text) => Some(done + text)
  }

  lemma StringStep(s: bytes)
    requires s != []
    ensures s[0] != QUOTE || ScanEnd(s[1..]).None? ==> JsonString.ParseString(s).None?
    ensures s[0] == QUOTE && ScanEnd(s[1..]).Some? ==>
              var end := ScanEnd(s[1..]).value;
              EndsAtLast(s[1..end + 2], true)
              && JsonString.ParseString(s) ==
                 match Unescape(s[1..end + 2]) case None => None case Some(text) => Some((UpToNul(text), s[end + 2..]))
  {
    if ScanEnd(s[1..]).Some? {
      ScanEndsAtLast(s[1..]);
      assert s[1..ScanEnd(s[1..]).value + 2] == s[1..][..ScanEnd(s[1..]).value + 1];
    }
  }

  /** The literal and what follows it, as parts of the buffer and of the text from the offset on. */
  lemma LiteralAt(content: bytes, offset: nat, end: nat)
    requires offset < end < |content|
    ensures var s := content[offset..]; s[1..end + 1 - offset] == content[offset + 1..end + 1] && s[end + 1 - offset..] == content[end + 1..]
  {
  }

  /** The \u literal at `input`, by its places in the buffer. */
  lemma Utf16At(content: bytes, input: nat, end: nat)
    requires input + 6 <= end < |content|
    ensures var first := Hex4(content[input + 2..input + 6]);
            Utf16Piece(content[input..end + 1]) ==
            if LowSurrogate(first) then None
            else if !HighSurrogate(first) then Some(Piece(Utf8(first), 6))
            else if end - input < 12 || content[input + 6] != BACKSLASH || content[input + 7] != LETTER_U then None
            else
              var second := Hex4(content[input + 8..input + 12]);
              if LowSurrogate(second) then Some(Piece(Utf8(PairValue(first, second)), 12)) else None
  {
    hide Hex4;
    hide Utf8;
    var u := content[input..end + 1];
    SliceOfSlice(content, input, end + 1, 2, 6);
    if end - input >= 12 {
      SliceOfSlice(content, input, end + 1, 8, 12);
    }
  }

  lemma PrependNothing(r: Option<bytes>)
    ensures Prepend([], r) == r
  {
    if r.Some? {
      assert [] + r.value == r.value;
    }
  }

  lemma SliceOfSlice(s: bytes, a: nat, b: nat, i: nat, j: nat)
    requires i <= j && a + j <= b <= |s|
    ensures s[a..b][i..j] == s[a + i..a + j]
  {
    var t := s[a..b];
    assert forall k :: i <= k < j ==> t[k] == s[a + k];
    assert t[i..j] == s[a + i..a + j];
  }

  /**
   With u still to go of a literal and `done` decoded: the rest decides the
   result, and what is written with what is reserved for the rest fits.
   */
  ghost predicate Decoding(literal: bytes, u: bytes, between: bool, done: bytes) {
    && Unescape(literal) == Prepend(done, Unescape(u))
    && |done| <= Reserve(literal, true)
    && (u != [] ==> EndsAtLast(u, between) && |done| + Reserve(u, between) <= Reserve(literal, true))
  }

  lemma DecodingStarts(literal: bytes)
    requires EndsAtLast(literal, true)
    ensures Decoding(literal, literal, true, [])
  {
    ReserveIsNatural(literal, true);
    PrependNothing(Unescape(literal));
  }

  lemma DecodingEnds(literal: bytes, u: bytes, between: bool, done: bytes)
    requires Decoding(literal, u, between, done) && |u| <= 1
    ensures Unescape(literal) == Some(done) && |done| <= Reserve(literal, true)
  {
    assert done + [] == done;
  }

  lemma DecodingOn(literal: bytes, u: bytes, between: bool, done: bytes)
    requires |u| >= 2 && Decoding(literal, u, between, done)
    ensures var p := NextPiece(u);
            if p.None? then Unescape(literal).None? && |done| <= Reserve(literal, true) else
              && |done| + |p.value.out| <= Reserve(literal, true)
              && Decoding(literal, u[p.value.used..],
                          p.value.used < |u| && BetweenAfter(u, between, p.value.used), done + p.value.out)
  {
    UnescapeOn(u, done);
    if NextPiece(u).Some? {
      var p := NextPiece(u).value;
      hide NextPiece;
      hide Unescape;
      StepFits(u, between);
      if p.used < |u| {
        ScanOn(u, between, p.used);
        ReserveIsNatural(u[p.used..], BetweenAfter(u, between, p.used));
      }
    }
  }

  lemma UnescapeOn(u: bytes, done: bytes)
    requires |u| >= 2
    ensures NextPiece(u).None? ==> Unescape(u).None?
    ensures NextPiece(u).Some? ==>
              var p := NextPiece(u).value; Prepend(done, Unescape(u)) == Prepend(done + p.out, Unescape(u[p.used..]))
  {
    hide NextPiece;
    if NextPiece(u).Some? {
      var p := NextPiece(u).value;
      if Unescape(u[p.used..]).Some? {
        var rest := Unescape(u[p.used..]).value;
        assert done + (p.out + rest) == done + p.out + rest;
      }
    }
  }

  // ------------------------------------------------------------------
  // The first scan, half way
  // ------------------------------------------------------------------

  /** The literal at the front of a text, with its closing quote. */
  function Literal(t: bytes): bytes {
    if ScanEnd(t).Some? then t[..ScanEnd(t).value + 1] else []
  }

  /** With t still to go of a literal in text, the scan finds the same quote and the escapes not counted yet. */
  ghost predicate Scanning(text: bytes, t: bytes, skipped: nat) {
    match (ScanEnd(text), ScanEnd(t))
    case (None, None) => true
    case (Some(a), Some(b)) =>
      && |text| - a == |t| - b
      && skipped + Escapes(Literal(t), true) == Escapes(Literal(text), true)
    case _ => false
  }

  lemma ScanningStarts(text: bytes)
    ensures Scanning(text, text, 0)
  {
  }

  /** A byte that is neither a quote nor a backslash, or an escaped pair, at the front of a literal. */
  lemma LiteralOn(t: bytes)
    requires t != [] && t[0] != QUOTE && ScanEnd(t).Some?
    ensures t[0] != BACKSLASH ==>
      ScanEnd(t[1..]) == Some(ScanEnd(t).value - 1) && Escapes(Literal(t), true) == Escapes(Literal(t[1..]), true)
    ensures t[0] == BACKSLASH ==>
      |t| >= 2 && ScanEnd(t[2..]) == Some(ScanEnd(t).value - 2) && Escapes(Literal(t), true) == 1 + Escapes(Literal(t[2..]), true)
  {
    var n := ScanEnd(t).value;
    if t[0] == BACKSLASH {
      assert ScanEnd(t[2..]) == Some(n - 2);
      hide ScanEnd;
      PairOn(t[..n + 1]);
      assert t[..n + 1][2..] == t[2..][..n - 1];
    } else {
      assert ScanEnd(t[1..]) == Some(n - 1);
      hide ScanEnd;
      assert t[..n + 1][1..] == t[1..][..n];
    }
  }

  lemma PairOn(u: bytes)
    requires |u| >= 3 && u[0] == BACKSLASH
    ensures Escapes(u, true) == 1 + Escapes(u[2..], true)
  {
    assert u[1..][1..] == u[2..];
    assert Escapes(u, true) == 1 + Escapes(u[1..], false);
  }

  lemma ScanningOn(text: bytes, t: bytes, skipped: nat)
    requires t != [] && t[0] != QUOTE && Scanning(text, t, skipped)
    ensures t[0] == BACKSLASH && |t| >= 2 ==> Scanning(text, t[2..], skipped + 1)
    ensures t[0] == BACKSLASH && |t| == 1 ==> ScanEnd(text).None?
    ensures t[0] != BACKSLASH ==> Scanning(text, t[1..], skipped)
  {
    hide Escapes;
    hide Literal;
    if ScanEnd(t).Some? {
      LiteralOn(t);
    }
  }

  lemma ScanningEnds(text: bytes, t: bytes, skipped: nat)
    requires Scanning(text, t, skipped) && (t != [] ==> t[0] == QUOTE)
    ensures t != [] <==> ScanEnd(text).Some?
    ensures t != [] ==> ScanEnd(text) == Some(|text| - |t|) && skipped == Escapes(Literal(text), true)
  {
  }
}
