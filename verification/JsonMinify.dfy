/**
 cJSON_Minify: removing blanks and comments from a text, in place.

 Texts are buffers with a NUL in them, as C reads them; `Min` is what is left,
 up to and including the NUL.
 */
module JsonMinify {
  import opened Bytes
  import opened Json

  const ASTERISK: byte := 42

  predicate Removed(c: byte) {
    c == SPACE || c == TAB || c == 13 || c == NEWLINE
  }

  /** The last byte is a NUL, so reading on stops. */
  predicate Ended(s: bytes) {
    s != [] && s[|s| - 1] == 0
  }

  // ------------------------------------------------------------------
  // What is left
  // ------------------------------------------------------------------

  /** Behind a comment that runs to the end of the line, or at the NUL. */
  function AfterLine(t: bytes): (r: bytes)
    ensures |r| <= |t| && (Ended(t) ==> Ended(r))
  {
    if t == [] || t[0] == 0 then t
    else if t[0] == NEWLINE then t[1..]
    else AfterLine(t[1..])
  }

  /** Behind a comment that is closed, or at the NUL. */
  function AfterBlock(t: bytes): (r: bytes)
    ensures |r| <= |t| && (Ended(t) ==> Ended(r))
  {
    if t == [] || t[0] == 0 then t
    else if t[0] == ASTERISK && |t| >= 2 && t[1] == SLASH then t[2..]
    else AfterBlock(t[1..])
  }

  /**
   How much of the text after an opening quote minify_string copies: up to the
   first quote that does not come right after a backslash, or up to the NUL.
   */
  function StringEnd(t: bytes): (n: nat)
    ensures n <= |t|
  {
    if t == [] || t[0] == 0 then 0
    else if t[0] == QUOTE then 1
    else if t[0] == BACKSLASH && |t| >= 2 && t[1] == QUOTE then 2 + StringEnd(t[2..])
    else 1 + StringEnd(t[1..])
  }

  function Min(s: bytes): bytes
    decreases |s|
  {
    if s == [] || s[0] == 0 then [0]
    else if Removed(s[0]) then Min(s[1..])
    else if s[0] == SLASH then
      if |s| >= 2 && s[1] == SLASH then Min(AfterLine(s[2..]))
      else if |s| >= 2 && s[1] == ASTERISK then Min(AfterBlock(s[2..]))
      else Min(s[1..])
    else if s[0] == QUOTE then
      var n := StringEnd(s[1..]);
      s[..n + 1] + Min(s[n + 1..])
    else [s[0]] + Min(s[1..])
  }

  lemma {:induction false} CopiedPart(t: bytes)
    ensures CString(t[..StringEnd(t)]) && (Ended(t) ==> StringEnd(t) < |t|)
  {
    if t == [] || t[0] == 0 || t[0] == QUOTE {
    } else if t[0] == BACKSLASH && |t| >= 2 && t[1] == QUOTE {
      CopiedPart(t[2..]);
      assert t[..StringEnd(t)] == t[..2] + t[2..][..StringEnd(t[2..])];
    } else {
      CopiedPart(t[1..]);
      assert t[..StringEnd(t)] == t[..1] + t[1..][..StringEnd(t[1..])];
    }
  }

  lemma CopiedString(s: bytes)
    requires s != [] && s[0] != 0
    ensures CString(s[..StringEnd(s[1..]) + 1])
    ensures Ended(s) ==> Ended(s[StringEnd(s[1..]) + 1..])
  {
    CopiedPart(s[1..]);
    var n := StringEnd(s[1..]);
    hide StringEnd;
    assert s[..n + 1] == [s[0]] + s[1..][..n];
  }

  /** One NUL, at the end. */
  predicate Closed(m: bytes) {
    Ended(m) && CString(m[..|m| - 1])
  }

  lemma JoinClosed(a: bytes, b: bytes)
    requires CString(a) && Closed(b)
    ensures Closed(a + b)
  {
    assert (a + b)[..|a + b| - 1] == a + b[..|b| - 1];
  }

  // ------------------------------------------------------------------
  // One step at a time
  // ------------------------------------------------------------------

  lemma Drop(text: bytes, i: nat)
    requires i < |text|
    ensures text[i..][0] == text[i] && text[i..][1..] == text[i + 1..]
    ensures i + 1 < |text| ==> text[i..][1] == text[i + 1] && text[i..][2..] == text[i + 2..]
  {
  }

  lemma Grow(before: bytes, text: bytes, start: nat, i: nat)
    requires start <= i < |text|
    ensures before + text[start..i] + [text[i]] == before + text[start..i + 1]
  {
  }

  lemma LineStep(t: bytes)
    requires Ended(t)
    ensures t[0] == 0 ==> AfterLine(t) == t
    ensures t[0] != 0 ==> Ended(t[1..]) && AfterLine(t) == if t[0] == NEWLINE then t[1..] else AfterLine(t[1..])
  {
  }

  lemma BlockStep(t: bytes)
    requires Ended(t)
    ensures t[0] == 0 ==> AfterBlock(t) == t
    ensures t[0] != 0 ==>
      && |t| >= 2 && Ended(t[1..])
      && AfterBlock(t) == if t[0] == ASTERISK && t[1] == SLASH then t[2..] else AfterBlock(t[1..])
    ensures |t| >= 2 && t[1] == SLASH ==> Ended(t[2..])
  {
  }

  lemma StringStep(t: bytes)
    requires Ended(t)
    ensures t[0] == 0 ==> StringEnd(t) == 0
    ensures t[0] != 0 ==>
      && |t| >= 2 && Ended(t[1..])
      && StringEnd(t) == if t[0] == QUOTE then 1
                         else if t[0] == BACKSLASH && t[1] == QUOTE then 2 + StringEnd(t[2..])
                         else 1 + StringEnd(t[1..])
    ensures |t| >= 2 && t[1] == QUOTE ==> Ended(t[2..])
  {
  }

  lemma MinStep(s: bytes)
    requires Ended(s) && s[0] != 0
    ensures |s| >= 2 && Ended(s[1..])
    ensures s[0] == SLASH && (s[1] == SLASH || s[1] == ASTERISK) ==> Ended(s[2..])
    ensures Min(s) ==
      if Removed(s[0]) then Min(s[1..])
      else if s[0] == SLASH then
        if s[1] == SLASH then Min(AfterLine(s[2..])) else if s[1] == ASTERISK then Min(AfterBlock(s[2..])) else Min(s[1..])
      else if s[0] == QUOTE then s[..StringEnd(s[1..]) + 1] + Min(s[StringEnd(s[1..]) + 1..])
      else [s[0]] + Min(s[1..])
  {
  }
  /** What is left is a C string with its NUL, and no longer than the text. */
  lemma {:induction false} MinShape(s: bytes)
    requires Ended(s)
    ensures Closed(Min(s)) && |Min(s)| <= |s|
    decreases |s|
  {
    if s[0] != 0 {
      MinStep(s);
      hide Min;
      hide AfterLine;
      hide AfterBlock;
      hide StringEnd;
      hide Closed;
      if Removed(s[0]) {
        MinShape(s[1..]);
      } else if s[0] == SLASH {
        MinShape(if s[1] == SLASH then AfterLine(s[2..]) else if s[1] == ASTERISK then AfterBlock(s[2..]) else s[1..]);
      } else if s[0] == QUOTE {
        CopiedString(s);
        var rest := s[StringEnd(s[1..]) + 1..];
        MinShape(rest);
        JoinClosed(s[..StringEnd(s[1..]) + 1], Min(rest));
      } else {
        MinShape(s[1..]);
        JoinClosed([s[0]], Min(s[1..]));
      }
    }
  }

  // ------------------------------------------------------------------
  // The same, by places in one text
  // ------------------------------------------------------------------

  function LineEndAt(text: bytes, i: nat): int
    requires i <= |text|
  {
    |text| - |AfterLine(text[i..])|
  }

  function BlockEndAt(text: bytes, i: nat): int
    requires i <= |text|
  {
    |text| - |AfterBlock(text[i..])|
  }

  function StringEndAt(text: bytes, i: nat): nat
    requires i <= |text|
  {
    i + StringEnd(text[i..])
  }

  function MinAt(text: bytes, i: nat): bytes
    requires i <= |text|
  {
    Min(text[i..])
  }

  lemma LineHere(text: bytes, i: nat)
    requires i < |text| && Ended(text)
    ensures text[i] == 0 ==> LineEndAt(text, i) == i
    ensures text[i] != 0 ==>
      i + 1 < |text|
      && LineEndAt(text, i) == (if text[i] == NEWLINE then i + 1 else LineEndAt(text, i + 1))
  {
    Drop(text, i);
    LineStep(text[i..]);
  }

  lemma BlockHere(text: bytes, i: nat)
    requires i < |text| && Ended(text)
    ensures text[i] == 0 ==> BlockEndAt(text, i) == i
    ensures text[i] != 0 ==>
      i + 1 < |text|
      && BlockEndAt(text, i) == (if text[i] == ASTERISK && text[i + 1] == SLASH then i + 2 else BlockEndAt(text, i + 1))
  {
    Drop(text, i);
    BlockStep(text[i..]);
  }

  lemma StringHere(text: bytes, i: nat)
    requires i < |text| && Ended(text)
    ensures text[i] == 0 ==> StringEndAt(text, i) == i
    ensures text[i] != 0 ==>
      i + 1 < |text|
      && StringEndAt(text, i) == (if text[i] == QUOTE then i + 1
                                          else if text[i] == BACKSLASH && text[i + 1] == QUOTE then StringEndAt(text, i + 2)
                                          else StringEndAt(text, i + 1))
  {
    Drop(text, i);
    StringStep(text[i..]);
  }

  lemma {:induction false} LineSuffix(t: bytes)
    ensures AfterLine(t) == t[|t| - |AfterLine(t)|..]
  {
    if t != [] && t[0] != 0 && t[0] != NEWLINE {
      LineSuffix(t[1..]);
    }
  }

  lemma {:induction false} BlockSuffix(t: bytes)
    ensures AfterBlock(t) == t[|t| - |AfterBlock(t)|..]
  {
    if t != [] && t[0] != 0 && !(t[0] == ASTERISK && |t| >= 2 && t[1] == SLASH) {
      BlockSuffix(t[1..]);
    }
  }

  lemma CommentsHere(text: bytes, i: nat)
    requires i <= |text|
    ensures i <= LineEndAt(text, i) && Min(AfterLine(text[i..])) == MinAt(text, LineEndAt(text, i))
    ensures i <= BlockEndAt(text, i) && Min(AfterBlock(text[i..])) == MinAt(text, BlockEndAt(text, i))
  {
    LineSuffix(text[i..]);
    BlockSuffix(text[i..]);
    hide Min;
    hide AfterLine;
    hide AfterBlock;
    assert text[i..][|text| - i - |AfterLine(text[i..])|..] == text[LineEndAt(text, i)..];
    assert text[i..][|text| - i - |AfterBlock(text[i..])|..] == text[BlockEndAt(text, i)..];
  }

  lemma MinNulHere(text: bytes, i: nat)
    requires i < |text| && Ended(text)
    ensures text[i] == 0 ==> MinAt(text, i) == [0]
    ensures text[i] != 0 ==> i + 1 < |text|
  {
  }

  lemma MinByteHere(text: bytes, i: nat)
    requires i + 1 < |text| && Ended(text) && text[i] != 0 && text[i] != SLASH && text[i] != QUOTE
    ensures MinAt(text, i) == if Removed(text[i]) then MinAt(text, i + 1) else [text[i]] + MinAt(text, i + 1)
  {
    hide AfterLine;
    hide AfterBlock;
    hide StringEnd;
    Drop(text, i);
  }

  lemma MinSlashHere(text: bytes, i: nat)
    requires i + 1 < |text| && Ended(text) && text[i] == SLASH
    ensures text[i + 1] == SLASH || text[i + 1] == ASTERISK ==>
      i + 2 < |text| && i + 2 <= LineEndAt(text, i + 2) && i + 2 <= BlockEndAt(text, i + 2)
    ensures MinAt(text, i) ==
      if text[i + 1] == SLASH then MinAt(text, LineEndAt(text, i + 2))
      else if text[i + 1] == ASTERISK then MinAt(text, BlockEndAt(text, i + 2))
      else MinAt(text, i + 1)
  {
    Drop(text, i);
    MinStep(text[i..]);
    hide Min;
    hide AfterLine;
    hide AfterBlock;
    hide StringEnd;
    if i + 2 < |text| {
      CommentsHere(text, i + 2);
    }
  }

  lemma MinStringHere(text: bytes, i: nat)
    requires i + 1 < |text| && Ended(text) && text[i] == QUOTE
    ensures var end := StringEndAt(text, i + 1); i < end <= |text| && MinAt(text, i) == text[i..end] + MinAt(text, end)
  {
    hide Min;
    hide StringEnd;
    var n := StringEnd(text[i + 1..]);
    assert Min(text[i..]) == text[i..][..n + 1] + Min(text[i..][n + 1..]) by {
      Drop(text, i);
      MinString(text[i..]);
    }
    CopiedHere(text, i, n);
  }

  lemma MinString(s: bytes)
    requires s != [] && s[0] == QUOTE
    ensures var n := StringEnd(s[1..]); Min(s) == s[..n + 1] + Min(s[n + 1..])
  {
    hide StringEnd;
    hide AfterLine;
    hide AfterBlock;
  }

  lemma CopiedHere(text: bytes, i: nat, n: nat)
    requires i + 1 + n <= |text|
    ensures text[i..][..n + 1] == text[i..i + 1 + n] && text[i..][n + 1..] == text[i + 1 + n..]
  {
  }

  lemma Regroup(a: bytes, b: bytes, c: bytes)
    ensures a + (b + c) == a + b + c
  {
  }

  // ------------------------------------------------------------------
  // In place
  // ------------------------------------------------------------------

  /** From here on the array still holds the text, which ends with a NUL. */
  ghost predicate Unread(json: array<byte>, text: bytes, from: nat)
    reads json
  {
    from < json.Length == |text| && Ended(text) && forall i :: from <= i < json.Length ==> json[i] == text[i]
  }

  method SkipOnelineComment(json: array<byte>, start: nat, ghost text: bytes) returns (input: nat)
    requires Unread(json, text, start + 2)
    ensures start + 2 <= input && Unread(json, text, input) && input == LineEndAt(text, start + 2)
  {
    hide LineEndAt;
    input := start + 2;
    while json[input] != 0
      invariant start + 2 <= input && Unread(json, text, input)
      invariant LineEndAt(text, input) == LineEndAt(text, start + 2)
      decreases json.Length - input
    {
      LineHere(text, input);
      if json[input] == NEWLINE {
        input := input + 1;
        return;
      }
      input := input + 1;
    }
    LineHere(text, input);
  }

  method SkipMultilineComment(json: array<byte>, start: nat, ghost text: bytes) returns (input: nat)
    requires Unread(json, text, start + 2)
    ensures start + 2 <= input && Unread(json, text, input) && input == BlockEndAt(text, start + 2)
  {
    hide BlockEndAt;
    input := start + 2;
    while json[input] != 0
      invariant start + 2 <= input && Unread(json, text, input)
      invariant BlockEndAt(text, input) == BlockEndAt(text, start + 2)
      decreases json.Length - input
    {
      BlockHere(text, input);
      if json[input] == ASTERISK && json[input + 1] == SLASH {
        input := input + 2;
        return;
      }
      input := input + 1;
    }
    BlockHere(text, input);
  }

  /** One byte from the read cursor to the write cursor, which is never ahead of it. */
  method CopyByte(json: array<byte>, from: nat, into: nat, ghost text: bytes) returns (input: nat, output: nat)
    requires Unread(json, text, from) && into <= from && text[from] != 0
    modifies json
    ensures input == from + 1 && output == into + 1 && Unread(json, text, input)
    ensures json[..output] == old(json[..into]) + [text[from]]
  {
    json[into] := json[from];
    input, output := from + 1, into + 1;
  }

  method MinifyString(json: array<byte>, start: nat, into: nat, ghost text: bytes) returns (input: nat, output: nat)
    requires Unread(json, text, start) && into <= start && text[start] == QUOTE
    modifies json
    ensures start < input && Unread(json, text, input) && output <= input == StringEndAt(text, start + 1)
    ensures json[..output] == old(json[..into]) + text[start..input]
  {
    hide StringEndAt;
    ghost var before := json[..into];
    input, output := CopyByte(json, start, into, text);
    while json[input] != 0
      invariant start < input && output <= input && Unread(json, text, input)
      invariant StringEndAt(text, input) == StringEndAt(text, start + 1)
      invariant json[..output] == before + text[start..input]
      decreases json.Length - input
    {
      StringHere(text, input);
      Grow(before, text, start, input);
      var c := json[input];
      input, output := CopyByte(json, input, output, text);
      if c == QUOTE {
        return;
      } else if c == BACKSLASH && json[input] == QUOTE {
        Grow(before, text, start, input);
        input, output := CopyByte(json, input, output, text);
      }
    }
    StringHere(text, input);
  }

  /** A slash goes, with the comment that it opens if it opens one. */
  method SkipSlash(json: array<byte>, start: nat, ghost text: bytes) returns (input: nat)
    requires Unread(json, text, start) && text[start] == SLASH
    ensures start < input && Unread(json, text, input) && MinAt(text, input) == MinAt(text, start)
  {
    MinSlashHere(text, start);
    hide MinAt;
    if json[start + 1] == SLASH {
      input := SkipOnelineComment(json, start, text);
    } else if json[start + 1] == ASTERISK {
      input := SkipMultilineComment(json, start, text);
    } else {
      input := start + 1;
    }
  }

  /** One turn of the loop. */
  method MinifyNext(json: array<byte>, start: nat, from: nat, ghost text: bytes) returns (input: nat, into: nat)
    requires Unread(json, text, start) && from <= start && text[start] != 0
    modifies json
    ensures start < input && into <= input && Unread(json, text, input)
    ensures json[..into] + MinAt(text, input) == old(json[..from]) + MinAt(text, start)
  {
    hide MinAt;
    hide StringEndAt;
    MinNulHere(text, start);
    ghost var before := json[..from];
    var c := json[start];
    input, into := start, from;
    if Removed(c) {
      MinByteHere(text, start);
      input := start + 1;
    } else if c == SLASH {
      input := SkipSlash(json, start, text);
    } else if c == QUOTE {
      MinStringHere(text, start);
      input, into := MinifyString(json, start, from, text);
      Regroup(before, text[start..input], MinAt(text, input));
    } else {
      MinByteHere(text, start);
      input, into := CopyByte(json, start, from, text);
      Regroup(before, [c], MinAt(text, input));
    }
  }

  method Minify(json: array<byte>)
    requires json.Length > 0 && json[json.Length - 1] == 0
    modifies json
    ensures |Min(old(json[..]))| <= json.Length
    ensures var m := Min(old(json[..])); json[..|m|] == m
  {
    ghost var text := json[..];
    assert text[0..] == text && [] + Min(text) == MinAt(text, 0);
    hide Min;
    hide MinAt;
    hide StringEndAt;
    var input: nat, into: nat := 0, 0;
    while json[input] != 0
      invariant into <= input < json.Length && Unread(json, text, input)
      invariant json[..into] + MinAt(text, input) == Min(text)
      decreases json.Length - input
    {
      input, into := MinifyNext(json, input, into, text);
    }
    MinNulHere(text, input);
    json[into] := 0;
  }
}
