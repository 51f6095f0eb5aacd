/**
 Exactly when minifying keeps what a text means: when it drops no byte that the
 parser has inside a string.

 One half is that dropping white space between tokens is harmless.  For the other
 half the two parses are followed token by token through the first literal that
 loses a byte.  From there on the literal of the text has always decoded more than
 that of what is left, and the rest never makes up for it.
 */
module JsonMinifyLoss {
  import opened Bytes
  import opened Json
  import opened JsonString
  import opened JsonMinify
  import opened JsonErased
  import opened JsonMinified
  import opened JsonLiterals
  import opened JsonQuotes

  // ------------------------------------------------------------------
  // The parser inside a literal, at the start of a token
  // ------------------------------------------------------------------

  /** From here a literal decodes to this text, and `quotes` of its and later quotes are around literals. */
  ghost predicate Reading(s: bytes, quotes: nat, text: bytes) {
    Closed(s) && Balanced(s, In) && Quotes(s, In) == quotes && Body(s) == Some(text)
  }

  lemma DropTwice(s: bytes, j: nat, k: nat)
    requires j + k <= |s|
    ensures s[j..][k..] == s[j + k..]
  {
  }

  /** k bytes on, up to the same closing quote. */
  lemma SameClosing(s: bytes, k: nat)
    requires Closed(s) && ScanEnd(s).Some? && k <= ScanEnd(s).value && ScanEnd(s[k..]) == Some(ScanEnd(s).value - k)
    ensures Closed(s[k..]) && Quotes(s[k..], In) == Quotes(s, In) && (Balanced(s[k..], In) <==> Balanced(s, In))
  {
    SameRest(s, k);
    ClosedTail(s, k);
    hide Balanced;
    hide Quotes;
    hide Closed;
    hide ScanEnd;
    hide Rest;
    LiteralQuotes(s);
    LiteralQuotes(s[k..]);
  }

  lemma SameRest(s: bytes, k: nat)
    requires ScanEnd(s).Some? && k <= ScanEnd(s).value && ScanEnd(s[k..]) == Some(ScanEnd(s).value - k)
    ensures Rest(s[k..]) == Rest(s)
  {
    hide ScanEnd;
    DropTwice(s, k, ScanEnd(s[k..]).value + 1);
  }

  lemma ReadingOn(s: bytes, quotes: nat, text: bytes, k: nat, later: bytes)
    requires Reading(s, quotes, text) && ScanEnd(s).Some? && k <= ScanEnd(s).value
    requires ScanEnd(s[k..]) == Some(ScanEnd(s).value - k) && Unescape(s[k..][..ScanEnd(s).value - k + 1]) == Some(later)
    ensures Reading(s[k..], quotes, later)
  {
    hide Balanced;
    hide Quotes;
    hide Unescape;
    hide ScanEnd;
    hide Closed;
    SameClosing(s, k);
  }

  lemma CloseRead(s: bytes, quotes: nat, text: bytes)
    requires Reading(s, quotes, text) && s[0] == QUOTE
    ensures text == []
  {
    hide Balanced;
    hide Quotes;
  }

  /** A byte that stands for itself. */
  lemma RawRead(s: bytes, quotes: nat, text: bytes) returns (later: bytes)
    requires Reading(s, quotes, text) && s[0] != QUOTE && s[0] != BACKSLASH
    ensures s[0] != 0 && text == [s[0]] + later && Reading(s[1..], quotes, later)
  {
    hide Balanced;
    hide Quotes;
    var n := ScanEnd(s).value;
    ScanCases(s);
    NotNul(s);
    hide ScanEnd;
    var u := s[..n + 1];
    assert u[1..] == s[1..][..n];
    later := Unescape(u[1..]).value;
    ReadingOn(s, quotes, text, 1, later);
  }

  lemma NotNul(s: bytes)
    requires Closed(s) && ScanEnd(s).Some?
    ensures s[0] != 0
  {
    ScanInside(s);
    if s[0] == 0 {
      ClosedAtNul(s);
    }
  }

  /** A short escape. */
  lemma ShortRead(s: bytes, quotes: nat, text: bytes) returns (later: bytes)
    requires Reading(s, quotes, text) && s[0] == BACKSLASH && |s| >= 2 && s[1] != LETTER_U
    ensures ShortEscape(s[1]).Some? && text == [ShortEscape(s[1]).value] + later && Reading(s[2..], quotes, later)
  {
    hide Balanced;
    hide Quotes;
    var n := ScanEnd(s).value;
    ScanCases(s);
    hide ScanEnd;
    var u := s[..n + 1];
    assert u[2..] == s[2..][..n - 1];
    later := Unescape(u[2..]).value;
    ReadingOn(s, quotes, text, 2, later);
  }

  lemma BackslashPair(s: bytes, quotes: nat, text: bytes)
    requires Reading(s, quotes, text) && s[0] == BACKSLASH
    ensures |s| >= 3 && s[1] != 0 && Closed(s[1..]) && s[1..][0] == s[1] && s[1..][1..] == s[2..] && Closed(s[2..])
  {
    hide Balanced;
    hide Quotes;
    hide Unescape;
    ScanCases(s);
    NotLast(s);
    ClosedTail(s, 1);
    ClosedTail(s, 2);
    hide ScanEnd;
    ClosedTail(s[1..], 1);
  }

  lemma NotLast(s: bytes)
    requires Closed(s) && ScanEnd(s).Some?
    ensures ScanEnd(s).value + 1 < |s|
  {
    ScanInside(s);
  }

  lemma HexStep(t: bytes)
    requires ScanEnd(t).Some? && HexNibble(t[0]).Some?
    ensures 1 <= ScanEnd(t).value && ScanEnd(t[1..]) == Some(ScanEnd(t).value - 1)
  {
    ScanCases(t);
  }

  lemma HexScan(t: bytes)
    requires ScanEnd(t).Some? && |t| >= 4 && IsHex(t[..4])
    ensures 4 <= ScanEnd(t).value && ScanEnd(t[4..]) == Some(ScanEnd(t).value - 4)
  {
    hide ScanEnd;
    hide HexNibble;
    var h := t[..4];
    assert HexNibble(h[0]).Some? && HexNibble(h[1]).Some? && HexNibble(h[2]).Some? && HexNibble(h[3]).Some?;
    HexStep(t);
    HexStep(t[1..]);
    assert t[1..][1..] == t[2..] && t[2..][1..] == t[3..] && t[3..][1..] == t[4..];
    HexStep(t[2..]);
    HexStep(t[3..]);
  }

  lemma HexOrZero(h: bytes)
    requires |h| == 4
    ensures Hex4(h) != 0 ==> IsHex(h)
  {
  }

  lemma Utf8Text(c: CodePoint)
    ensures c == 0 ==> Utf8(c)[0] == 0
    ensures c != 0 ==> CString(Utf8(c))
  {
  }

  /** What a \\u escape says, one number or a pair, and how many bytes of text it takes. */
  function UnicodeSize(s: bytes): (k: nat)
    requires |s| >= 6
    ensures k == 6 || k == 12
  {
    if HighSurrogate(Hex4(s[2..6])) then 12 else 6
  }

  /** All its digits are hexadecimal, and halves of pairs come as pairs. */
  predicate IsUnicode(s: bytes) {
    && |s| >= 6 && s[0] == BACKSLASH && s[1] == LETTER_U && IsHex(s[2..6]) && !LowSurrogate(Hex4(s[2..6]))
    && (HighSurrogate(Hex4(s[2..6])) ==>
          |s| >= 12 && s[6] == BACKSLASH && s[7] == LETTER_U && IsHex(s[8..12]) && LowSurrogate(Hex4(s[8..12])))
  }

  function UnicodeText(s: bytes): (out: bytes)
    requires IsUnicode(s)
    ensures 1 <= |out| <= 4
  {
    if HighSurrogate(Hex4(s[2..6])) then Utf8(PairValue(Hex4(s[2..6]), Hex4(s[8..12]))) else Utf8(Hex4(s[2..6]))
  }

  /** A \\u escape, unless it decodes to a NUL. */
  lemma UnicodeRead(s: bytes, quotes: nat, text: bytes) returns (later: bytes)
    requires Reading(s, quotes, text) && |s| >= 2 && s[0] == BACKSLASH && s[1] == LETTER_U
    ensures |s| >= 6 && !LowSurrogate(Hex4(s[2..6])) && text != []
    ensures text[0] == 0 ||
      (IsUnicode(s) && CString(UnicodeText(s)) && text == UnicodeText(s) + later && Reading(s[UnicodeSize(s)..], quotes, later))
  {
    hide Balanced;
    hide Quotes;
    hide ScanEnd;
    hide Unescape;
    hide Hex4;
    hide Utf8;
    hide IsHex;
    var n := ScanEnd(s).value;
    ScanCases(s);
    var u := s[..n + 1];
    UnicodePiece(u, text);
    assert u[2..6] == s[2..6];
    later := [];
    HexOrZero(s[2..6]);
    if Hex4(s[2..6]) == 0 {
      Utf8Text(0);
    } else if HighSurrogate(Hex4(s[2..6])) {
      assert u[8..12] == s[8..12] && u[6] == s[6] && u[7] == s[7];
      assert u[12..] == s[12..][..n - 11];
      later := Unescape(u[12..]).value;
      PairText(s[2..6], s[8..12]);
      PairOn(s, quotes, text, later);
    } else {
      assert u[6..] == s[6..][..n - 5];
      later := Unescape(u[6..]).value;
      SingleOn(s, quotes, text, later);
    }
  }

  lemma UnicodeScan(t: bytes)
    requires ScanEnd(t).Some? && |t| >= 6 && t[0] == BACKSLASH && IsHex(t[2..6])
    ensures 6 <= ScanEnd(t).value && ScanEnd(t[6..]) == Some(ScanEnd(t).value - 6)
  {
    hide IsHex;
    ScanCases(t);
    hide ScanEnd;
    assert t[2..][..4] == t[2..6];
    DropTwice(t, 2, 4);
    HexScan(t[2..]);
  }

  lemma SingleOn(s: bytes, quotes: nat, text: bytes, later: bytes)
    requires Reading(s, quotes, text) && |s| >= 6 && s[0] == BACKSLASH && s[1] == LETTER_U && IsHex(s[2..6])
    requires ScanEnd(s).value >= 6 && Unescape(s[6..][..ScanEnd(s).value - 5]) == Some(later)
    ensures Reading(s[6..], quotes, later)
    ensures Hex4(s[2..6]) != 0 ==> CString(Utf8(Hex4(s[2..6])))
  {
    hide Unescape;
    hide IsHex;
    hide Hex4;
    hide ScanEnd;
    Utf8Text(Hex4(s[2..6]));
    hide Utf8;
    UnicodeScan(s);
    ReadingOn(s, quotes, text, 6, later);
  }

  lemma PairOn(s: bytes, quotes: nat, text: bytes, later: bytes)
    requires Reading(s, quotes, text) && |s| >= 12 && s[0] == BACKSLASH && IsHex(s[2..6]) && s[6] == BACKSLASH && IsHex(s[8..12])
    requires ScanEnd(s).value >= 12 && Unescape(s[12..][..ScanEnd(s).value - 11]) == Some(later)
    ensures Reading(s[12..], quotes, later)
  {
    hide IsHex;
    hide Unescape;
    hide ScanEnd;
    PairScan(s);
    ReadingOn(s, quotes, text, 12, later);
  }

  lemma PairText(high: bytes, low: bytes)
    requires |high| == |low| == 4 && HighSurrogate(Hex4(high)) && LowSurrogate(Hex4(low))
    ensures IsHex(low) && CString(Utf8(PairValue(Hex4(high), Hex4(low))))
  {
    HexOrZero(low);
    hide Hex4;
    Utf8Text(PairValue(Hex4(high), Hex4(low)));
  }

  lemma PairScan(s: bytes)
    requires ScanEnd(s).Some? && |s| >= 12 && s[0] == BACKSLASH && IsHex(s[2..6]) && s[6] == BACKSLASH && IsHex(s[8..12])
    ensures 12 <= ScanEnd(s).value && ScanEnd(s[12..]) == Some(ScanEnd(s).value - 12)
  {
    hide ScanEnd;
    hide IsHex;
    UnicodeScan(s);
    var second := s[6..];
    assert second[2..6] == s[8..12];
    UnicodeScan(second);
    DropTwice(s, 6, 6);
  }

  lemma UnicodePiece(u: bytes, text: bytes)
    requires |u| >= 3 && u[0] == BACKSLASH && u[1] == LETTER_U && Unescape(u) == Some(text)
    ensures |u| >= 7 && !LowSurrogate(Hex4(u[2..6])) && text != []
    ensures var first := Hex4(u[2..6]);
            if HighSurrogate(first) then
              |u| >= 13 && u[6] == BACKSLASH && u[7] == LETTER_U && LowSurrogate(Hex4(u[8..12]))
              && Unescape(u[12..]).Some? && text == Utf8(PairValue(first, Hex4(u[8..12]))) + Unescape(u[12..]).value
            else Unescape(u[6..]).Some? && text == Utf8(first) + Unescape(u[6..]).value
  {
    hide Utf8;
    hide Hex4;
  }

  // ------------------------------------------------------------------
  // What a comment takes out of a literal
  // ------------------------------------------------------------------

  /** Behind a comment of either kind. */
  function AfterComment(t: bytes, block: bool): (r: bytes)
    ensures |r| <= |t|
  {
    if block then AfterBlock(t) else AfterLine(t)
  }

  /** Not the end of a comment of that kind. */
  lemma CommentByte(t: bytes, block: bool)
    requires Closed(t) && t[0] != 0
    ensures |t| >= 2 && Closed(t[1..]) && (t[0] == ASTERISK && t[1] == SLASH ==> |t| >= 3)
    ensures AfterComment(t, block) ==
      if block && t[0] == ASTERISK && t[1] == SLASH then t[2..]
      else if !block && t[0] == NEWLINE then t[1..]
      else AfterComment(t[1..], block)
  {
    assert |t| >= 2;
    ClosedTail(t, 1);
  }

  lemma {:induction false} CommentRun(t: bytes, block: bool, k: nat)
    requires Closed(t) && k < |t| && forall i :: 0 <= i < k ==> t[i] != NEWLINE && t[i] != ASTERISK
    ensures AfterComment(t, block) == AfterComment(t[k..], block)
    decreases k
  {
    if k == 0 {
      assert t[0..] == t;
    } else {
      CommentByte(t, block);
      hide AfterComment;
      CommentRun(t[1..], block, k - 1);
      DropTwice(t, 1, k - 1);
    }
  }

  /** A comment that begins inside a literal at a token ends there too, or takes away the closing quote. */
  lemma {:induction false} CommentRead(t: bytes, quotes: nat, text: bytes, block: bool)
    returns (swallowed: bool, gone: bytes, later: bytes, p: Mode)
    requires Reading(t, quotes, text) && CString(text)
    ensures var r := AfterComment(t, block);
            if swallowed then r != [] && Closed(r) && !p.Esc? && Balanced(r, p) && Quotes(r, p) < quotes
            else Reading(r, quotes, later) && CString(later) && text == gone + later
    decreases |t|
  {
    hide Balanced;
    hide Quotes;
    hide Body;
    NotNulHere(t, quotes, text);
    CommentByte(t, block);
    hide AfterComment;
    swallowed, gone, later, p := false, [], [], In;
    if t[0] == QUOTE {
      p := QuoteSwallowed(t, quotes, text, block);
      swallowed := true;
    } else if t[0] == BACKSLASH {
      var k, out, after := EscapeRead(t, quotes, text, block);
      swallowed, gone, later, p := CommentRead(t[k..], quotes, after, block);
      Regroup(out, gone, later);
      gone := out + gone;
    } else {
      var after := RawRead(t, quotes, text);
      LaterText([t[0]], after);
      if block && t[0] == ASTERISK && t[1] == SLASH {
        later := RawRead(t[1..], quotes, after);
        LaterText([SLASH], later);
        assert t[1..][1..] == t[2..];
        gone := [ASTERISK, SLASH];
        Regroup([ASTERISK], [SLASH], later);
      } else if !block && t[0] == NEWLINE {
        gone, later := [NEWLINE], after;
      } else {
        swallowed, gone, later, p := CommentRead(t[1..], quotes, after, block);
        Regroup([t[0]], gone, later);
        gone := [t[0]] + gone;
      }
    }
  }

  /** An escape inside a comment: the comment goes on behind it. */
  lemma EscapeRead(t: bytes, quotes: nat, text: bytes, block: bool) returns (k: nat, out: bytes, after: bytes)
    requires Reading(t, quotes, text) && CString(text) && t[0] == BACKSLASH
    ensures 0 < k < |t| && Reading(t[k..], quotes, after) && text == out + after && CString(after)
    ensures AfterComment(t, block) == AfterComment(t[k..], block)
  {
    hide Balanced;
    hide Quotes;
    hide Body;
    BackslashPair(t, quotes, text);
    if t[1] == LETTER_U {
      after := UnicodeRead(t, quotes, text);
      assert text[0] != 0;
      UnicodeBytes(t);
      k, out := UnicodeSize(t), UnicodeText(t);
    } else {
      after := ShortRead(t, quotes, text);
      k, out := 2, [text[0]];
    }
    hide IsUnicode;
    hide UnicodeSize;
    hide UnicodeText;
    LaterText(out, after);
    CommentRun(t, block, k);
  }

  lemma LaterText(out: bytes, after: bytes)
    requires CString(out + after)
    ensures CString(after)
  {
    assert forall i :: 0 <= i < |after| ==> after[i] == (out + after)[|out| + i];
  }

  lemma NotNulHere(t: bytes, quotes: nat, text: bytes)
    requires Reading(t, quotes, text)
    ensures t[0] != 0
  {
    hide Balanced;
    hide Quotes;
    NotNul(t);
  }

  /** The bytes of a \u escape. */
  lemma UnicodeBytes(t: bytes)
    requires IsUnicode(t)
    ensures UnicodeSize(t) <= |t|
    ensures forall i :: 0 <= i < UnicodeSize(t) ==> t[i] != NEWLINE && t[i] != ASTERISK && Plain(t[i])
  {
    hide Hex4;
    HexBytes(t[2..6]);
    if HighSurrogate(Hex4(t[2..6])) {
      HexBytes(t[8..12]);
      assert forall i :: 8 <= i < 12 ==> t[i] == t[8..12][i - 8];
    }
    assert forall i :: 2 <= i < 6 ==> t[i] == t[2..6][i - 2];
  }

  lemma HexBytes(h: bytes)
    requires IsHex(h)
    ensures forall i :: 0 <= i < 4 ==> h[i] != NEWLINE && h[i] != ASTERISK && Plain(h[i])
  {
    assert forall i :: 0 <= i < 4 ==> HexNibble(h[i]).Some?;
  }

  lemma QuoteSwallowed(t: bytes, quotes: nat, text: bytes, block: bool) returns (p: Mode)
    requires Reading(t, quotes, text) && t[0] == QUOTE
    ensures var r := AfterComment(t, block); r != [] && Closed(r) && !p.Esc? && Balanced(r, p) && Quotes(r, p) < quotes
  {
    Step(t, In);
    CommentByte(t, block);
    hide Balanced;
    hide Quotes;
    if block {
      p := BlockPassed(t[1..], Out);
    } else {
      p := LinePassed(t[1..], Out);
    }
  }

  /** Bytes that leave a scan inside a literal. */
  predicate Quoteless(pre: bytes) {
    forall i :: 0 <= i < |pre| ==> pre[i] != QUOTE && pre[i] != 0
  }

  function Stand(pre: bytes, p: Mode): Mode {
    if pre == [] then p else Stand(pre[1..], ParserNext(p, pre[0]))
  }

  lemma {:induction false} PreScan(pre: bytes, z: bytes, p: Mode)
    requires Quoteless(pre) && !p.Out?
    ensures !Stand(pre, p).Out?
    ensures Balanced(pre + z, p) <==> Balanced(z, Stand(pre, p))
    ensures Quotes(pre + z, p) == Quotes(z, Stand(pre, p))
    decreases |pre|
  {
    if pre == [] {
      assert pre + z == z;
    } else {
      PreScan(pre[1..], z, ParserNext(p, pre[0]));
      Front(pre[0], pre[1..] + z, p);
      assert [pre[0]] + (pre[1..] + z) == pre + z;
    }
  }

  /** When a comment takes away a quote, less of them are left. */
  lemma Swallowing(pre: bytes, r: bytes, p: Mode, quotes: nat)
    requires r != [] && Closed(r) && !p.Esc? && Balanced(r, p) && Quotes(r, p) < quotes && Quoteless(pre)
    ensures !(Balanced(pre + Min(r), In) && Quotes(pre + Min(r), In) == quotes)
  {
    PreScan(pre, Min(r), In);
    hide Balanced;
    hide Quotes;
    hide Quoteless;
    assert MinFrom(r, Out) == Min(r);
    hide Min;
    if Balanced(pre + Min(r), In) {
      QuotesOnlyFall(r, p, Out, Stand(pre, In));
    }
  }

  /** A slash that is dropped, with its comment if it begins one, when no quote goes with it. */
  lemma SlashGone(t: bytes, quotes: nat, text: bytes, pre: bytes, left: bytes) returns (r: bytes, gone: bytes, later: bytes)
    requires Closed(t) && |t| >= 2 && t[0] == SLASH && Reading(t[1..], quotes, text) && CString(text)
    requires Quoteless(pre) && Reading(pre + Min(t), quotes, left)
    ensures |r| < |t| && Min(t) == Min(r) && Reading(r, quotes, later) && CString(later) && text == gone + later
  {
    MinStep(t);
    hide Min;
    hide Balanced;
    hide Quotes;
    hide Body;
    hide Quoteless;
    if t[1] == SLASH || t[1] == ASTERISK {
      var block := t[1] == ASTERISK;
      var after := RawRead(t[1..], quotes, text);
      LaterText([t[1]], after);
      assert t[1..][1..] == t[2..];
      var swallowed, p;
      r := AfterComment(t[2..], block);
      swallowed, gone, later, p := CommentRead(t[2..], quotes, after, block);
      Regroup([t[1]], gone, later);
      gone := [t[1]] + gone;
      if swallowed {
        Swallowing(pre, r, p, quotes);
      }
    } else {
      r, gone, later := t[1..], [], text;
      assert [] + text == text;
    }
  }

  // ------------------------------------------------------------------
  // Behind, and never level again
  // ------------------------------------------------------------------

  lemma UpToNulJoin(out: bytes, later: bytes)
    requires CString(out)
    ensures UpToNul(out + later) == out + UpToNul(later)
    decreases |out|
  {
    if out == [] {
      assert out + later == later && out + UpToNul(later) == UpToNul(later);
    } else {
      assert (out + later)[1..] == out[1..] + later;
      assert CString(out[1..]) by { LaterText([out[0]], out[1..]) by { assert [out[0]] + out[1..] == out; } }
      UpToNulJoin(out[1..], later);
      assert [out[0]] + (out[1..] + UpToNul(later)) == out + UpToNul(later);
    }
  }

  /** One side says `said`, the other `heard`, which is shorter than what was outstanding and what was said. */
  lemma StillBehind(behind: bytes, said: bytes, text: bytes, heard: bytes, left: bytes)
    requires CString(heard) && |heard| <= |behind| + |said|
    ensures behind + (said + text) == UpToNul(heard + left) ==> (behind + said)[|heard|..] + text == UpToNul(left)
  {
    UpToNulJoin(heard, left);
    var all := behind + said;
    if behind + (said + text) == heard + UpToNul(left) {
      assert all + text == heard + UpToNul(left);
      assert (all + text)[|heard|..] == all[|heard|..] + text;
      assert (heard + UpToNul(left))[|heard|..] == UpToNul(left);
    }
  }

  /** What is outstanding has a slash where the other side says something else. */
  lemma SlashUnheard(behind: bytes, text: bytes, heard: bytes, left: bytes)
    requires SLASH in behind && |behind| <= |heard| && SLASH !in heard && CString(heard)
    ensures behind + text != UpToNul(heard + left)
  {
    UpToNulJoin(heard, left);
    var k :| 0 <= k < |behind| && behind[k] == SLASH;
    assert (behind + text)[k] == SLASH;
    assert (heard + UpToNul(left))[k] == heard[k];
  }

  lemma NulEnds(text: bytes, left: bytes, behind: bytes)
    requires behind != [] && left != [] && left[0] == 0
    ensures behind + text != UpToNul(left)
  {
    assert |behind + text| > 0;
  }

  lemma Longer(behind: bytes, said: bytes, text: bytes)
    requires behind != []
    ensures behind + (said + text) != UpToNul(said + text)
  {
    ShorterText(said + text);
  }

  lemma {:induction false} ShorterText(s: bytes)
    ensures |UpToNul(s)| <= |s|
  {
    if s != [] {
      ShorterText(s[1..]);
    }
  }

  /**
   `pre` is the part of a token that the parser of what is left has read and not
   yet decoded; `behind` is what the other one has decoded and it has not.
   */
  predicate Fits(pre: bytes, behind: bytes) {
    && Quoteless(pre) && behind != []
    && (pre == [] || (pre == [BACKSLASH] && SLASH in behind)
        || (2 <= |pre| <= 12 && pre[0] == BACKSLASH && pre[1] == LETTER_U && |pre| <= |behind|
            && (6 < |pre| ==> HighSurrogate(Hex4(pre[2..6])))))
  }

  /** Both sides of a literal that has lost a byte. */
  ghost predicate Lagging(s: bytes, pre: bytes, behind: bytes, quotes: nat, text: bytes, left: bytes) {
    Fits(pre, behind) && Reading(s, quotes, text) && CString(text) && Reading(pre + Min(s), quotes, left)
  }

  /** A byte that is copied and does not begin a string. */
  lemma Kept(s: bytes)
    requires Closed(s) && s[0] != 0 && !Dropped(s[0]) && s[0] != QUOTE
    ensures |s| >= 2 && Closed(s[1..]) && Min(s) == [s[0]] + Min(s[1..])
  {
    KeepStep(s, Out);
    hide Min;
  }

  lemma QuoteKept(s: bytes)
    requires Closed(s) && s[0] == QUOTE
    ensures |s| >= 2 && Closed(s[1..]) && Min(s) == [QUOTE] + MinFrom(s[1..], In)
  {
    KeepStep(s, Out);
    hide Min;
  }

  lemma AllKept(s: bytes, k: nat)
    requires k <= |s| && forall i :: 0 <= i < k ==> Plain(s[i])
    ensures Min(s) == s[..k] + Min(s[k..])
  {
    hide Min;
    assert s == s[..k] + s[k..];
    MinPlain(s[..k], s[k..]);
  }

  /** The part of a literal in which the minifier is inside a string is copied. */
  lemma {:induction false} CopiedLiteral(s: bytes, m: Mode) returns (m': Mode)
    requires Closed(s) && ScanEnd(s).Some? && !m.Out?
    ensures var n := ScanEnd(s).value + 1;
            n < |s| && Closed(s[n..]) && !m'.Esc? && MinFrom(s, m) == s[..n] + MinFrom(s[n..], m')
    ensures Untouched(Rest(s), Out, m') ==> Untouched(s, In, m)
    ensures var n := ScanEnd(s).value; n > 0 ==> (m'.In? <==> s[n - 1] == BACKSLASH)
    ensures s[0] == QUOTE ==> m' == MinNext(m, QUOTE)
    decreases |s|
  {
    hide MinFrom;
    NotNul(s);
    ScanInside(s);
    ScanCases(s);
    RestStep(s);
    KeepStep(s, m);
    hide Rest;
    var m1 := MinNext(m, s[0]);
    var n := ScanEnd(s).value + 1;
    if s[0] == QUOTE {
      m' := m1;
      assert s[..1] == [s[0]];
    } else if s[0] == BACKSLASH {
      assert s[1] != 0 && s[1..][1..] == s[2..] by { CopiedNotNul(s); }
      KeepStep(s[1..], m1);
      m' := CopiedLiteral(s[2..], MinNext(m1, s[1]));
      hide ScanEnd;
      CopiedPair(s, n - 2, m, m');
    } else {
      m' := CopiedLiteral(s[1..], m1);
      hide ScanEnd;
      CopiedByte(s, n - 1, m, m');
    }
  }

  lemma CopiedNotNul(s: bytes)
    requires Closed(s) && ScanEnd(s).Some? && s[0] == BACKSLASH
    ensures |s| >= 3 && s[1] != 0 && s[1..][1..] == s[2..]
  {
    ScanCases(s);
    ScanInside(s);
    hide ScanEnd;
    ClosedTail(s, 1);
    ClosedTail(s[1..], 1);
  }

  lemma CopiedBody(s: bytes, m: Mode)
    requires Closed(s) && ScanEnd(s).Some? && !m.Out?
    ensures Body(MinFrom(s, m)) == Body(s)
  {
    hide MinFrom;
    hide Unescape;
    var m' := CopiedLiteral(s, m);
    var n := ScanEnd(s).value + 1;
    ScanStable(s, MinFrom(s[n..], m'));
    hide ScanEnd;
    assert (s[..n] + MinFrom(s[n..], m'))[..n] == s[..n];
  }

  // ------------------------------------------------------------------
  // One token further
  // ------------------------------------------------------------------

  /** The literal of the text has decoded more, and stays different whatever comes. */
  lemma {:induction false} Lag(s: bytes, pre: bytes, behind: bytes, quotes: nat, text: bytes, left: bytes)
    requires Lagging(s, pre, behind, quotes, text, left)
    ensures behind + text != UpToNul(left)
    decreases |s|, |pre|, 3
  {
    hide Reading;
    hide Quoteless;
    hide CString;
    hide Closed;
    hide Hex4;
    ReadingClosed(s, quotes, text);
    if Removed(s[0]) {
      LagBlank(s, pre, behind, quotes, text, left);
    } else if s[0] == SLASH {
      LagSlash(s, pre, behind, quotes, text, left);
    } else if pre == [] {
      LagPlain(s, behind, quotes, text, left);
    } else if |pre| == 1 {
      LagEsc(s, behind, quotes, text, left);
    } else {
      LagUnicode(s, pre, behind, quotes, text, left);
    }
  }

  lemma ReadingClosed(s: bytes, quotes: nat, text: bytes)
    requires Reading(s, quotes, text)
    ensures Closed(s) && s[0] != 0 && ScanEnd(s).Some?
  {
    NotNulHere(s, quotes, text);
  }

  lemma {:induction false} LagBlank(s: bytes, pre: bytes, behind: bytes, quotes: nat, text: bytes, left: bytes)
    requires Lagging(s, pre, behind, quotes, text, left) && s != [] && Removed(s[0])
    ensures behind + text != UpToNul(left)
    decreases |s|, |pre|, 2
  {
    hide Reading;
    hide Quoteless;
    hide CString;
    hide Closed;
    hide Hex4;
    hide UpToNul;
    hide Min;
    ReadingClosed(s, quotes, text);
    BlankStep(s);
    var after := RawRead(s, quotes, text);
    LaterText([s[0]], after);
    Lag(s[1..], pre, behind + [s[0]], quotes, after, left);
    Regroup(behind, [s[0]], after);
  }

  lemma {:induction false} LagSlash(s: bytes, pre: bytes, behind: bytes, quotes: nat, text: bytes, left: bytes)
    requires Lagging(s, pre, behind, quotes, text, left) && s != [] && s[0] == SLASH
    ensures behind + text != UpToNul(left)
    decreases |s|, |pre|, 2
  {
    hide Reading;
    hide Quoteless;
    hide CString;
    hide Closed;
    hide Hex4;
    hide UpToNul;
    hide Min;
    ReadingClosed(s, quotes, text);
    var after := RawRead(s, quotes, text);
    LaterText([SLASH], after);
    assert |s| >= 2;
    var r, gone, later := SlashGone(s, quotes, after, pre, left);
    var more := behind + ([SLASH] + gone);
    Lag(r, pre, more, quotes, later, left);
    Regroup([SLASH], gone, later);
    Regroup(behind, [SLASH] + gone, later);
  }

  lemma BackslashFits()
    ensures Quoteless([BACKSLASH]) && Quoteless([])
  {
  }

  /** A \\u escape of a literal without NUL. */
  lemma UnicodeReadText(s: bytes, quotes: nat, text: bytes) returns (later: bytes)
    requires Reading(s, quotes, text) && CString(text) && |s| >= 2 && s[0] == BACKSLASH && s[1] == LETTER_U
    ensures IsUnicode(s) && CString(UnicodeText(s)) && text == UnicodeText(s) + later && CString(later)
    ensures |s| >= 6 && UnicodeSize(s) <= |s|
    ensures Reading(s[UnicodeSize(s)..], quotes, later)
    ensures forall i :: 0 <= i < UnicodeSize(s) ==> Plain(s[i])
  {
    hide Reading;
    hide IsUnicode;
    hide UnicodeSize;
    hide UnicodeText;
    later := UnicodeRead(s, quotes, text);
    LaterText(UnicodeText(s), later);
    UnicodeBytes(s);
  }

  /** Both at the start of a token. */
  lemma {:induction false} LagPlain(s: bytes, behind: bytes, quotes: nat, text: bytes, left: bytes)
    requires Lagging(s, [], behind, quotes, text, left) && s != [] && !Dropped(s[0])
    ensures behind + text != UpToNul(left)
    decreases |s|, 0, 2
  {
    hide Reading;
    hide Quoteless;
    hide CString;
    hide Closed;
    hide Hex4;
    hide Min;
    ReadingClosed(s, quotes, text);
    assert [] + Min(s) == Min(s);
    if s[0] == QUOTE {
      QuoteKept(s);
      CloseRead(s, quotes, text);
      CloseRead(Min(s), quotes, left);
      assert behind + text == behind;
    } else if s[0] == BACKSLASH {
      LagEscape(s, behind, quotes, text, left);
    } else {
      Kept(s);
      var c := [s[0]];
      var after := RawRead(s, quotes, text);
      LaterText(c, after);
      var left1 := RawRead(Min(s), quotes, left);
      assert (c + Min(s[1..]))[1..] == Min(s[1..]) == [] + Min(s[1..]);
      StillBehind(behind, c, after, c, left1);
      Lag(s[1..], [], (behind + c)[1..], quotes, after, left1);
    }
  }

  lemma {:induction false} LagEscape(s: bytes, behind: bytes, quotes: nat, text: bytes, left: bytes)
    requires Lagging(s, [], behind, quotes, text, left) && s != [] && s[0] == BACKSLASH
    ensures behind + text != UpToNul(left)
    decreases |s|, 0, 1
  {
    hide Reading;
    hide Quoteless;
    hide CString;
    hide Closed;
    hide Hex4;
    hide Min;
    hide UpToNul;
    ReadingClosed(s, quotes, text);
    BackslashPair(s, quotes, text);
    assert [] + Min(s) == Min(s);
    Kept(s);
    if s[1] == LETTER_U {
      LagSameUnicode(s, behind, quotes, text, left);
    } else if s[1] == SLASH {
      LagSlashEscape(s, behind, quotes, text, left);
    } else if s[1] == QUOTE {
      LagQuoteEscape(s, behind, quotes, text, left);
    } else {
      var after := ShortRead(s, quotes, text);
      var c := [ShortEscape(s[1]).value];
      LaterText(c, after);
      Kept(s[1..]);
      hide ShortEscape;
      TwoOff(Min(s), s[0], s[1], Min(s[2..]));
      var left1 := ShortRead(Min(s), quotes, left);
      assert Min(s[2..]) == [] + Min(s[2..]);
      StillBehind(behind, c, after, c, left1);
      Lag(s[2..], [], (behind + c)[1..], quotes, after, left1);
    }
  }

  lemma {:induction false} LagSlashEscape(s: bytes, behind: bytes, quotes: nat, text: bytes, left: bytes)
    requires Lagging(s, [], behind, quotes, text, left) && |s| >= 2 && s[0] == BACKSLASH && s[1] == SLASH
    ensures behind + text != UpToNul(left)
    decreases |s|, 0, 0
  {
    hide Reading;
    hide Quoteless;
    hide CString;
    hide Closed;
    hide Hex4;
    hide Min;
    hide UpToNul;
    ReadingClosed(s, quotes, text);
    BackslashPair(s, quotes, text);
    Kept(s);
    assert [] + Min(s) == Min(s);
    var after := ShortRead(s, quotes, text);
    LaterText([SLASH], after);
    BackslashFits();
    var r, gone, later := SlashGone(s[1..], quotes, after, [BACKSLASH], left);
    var more := behind + ([SLASH] + gone);
    Lag(r, [BACKSLASH], more, quotes, later, left);
    Regroup([SLASH], gone, later);
    Regroup(behind, [SLASH] + gone, later);
  }

  lemma {:induction false} LagQuoteEscape(s: bytes, behind: bytes, quotes: nat, text: bytes, left: bytes)
    requires Lagging(s, [], behind, quotes, text, left) && |s| >= 2 && s[0] == BACKSLASH && s[1] == QUOTE
    ensures behind + text != UpToNul(left)
  {
    hide Reading;
    hide Quoteless;
    hide CString;
    hide Closed;
    hide Hex4;
    hide Min;
    hide UpToNul;
    hide MinFrom;
    ReadingClosed(s, quotes, text);
    BackslashPair(s, quotes, text);
    Kept(s);
    assert [] + Min(s) == Min(s);
    var after := ShortRead(s, quotes, text);
    QuoteKept(s[1..]);
    TwoOff(Min(s), s[0], s[1], MinFrom(s[2..], In));
    var left1 := ShortRead(Min(s), quotes, left);
    SameText(s[2..], quotes, after, left1);
    Longer(behind, [QUOTE], after);
  }

  lemma TwoOff(y: bytes, a: byte, b: byte, z: bytes)
    requires y == [a] + ([b] + z)
    ensures y[2..] == z && y[0] == a && y[1] == b && y == [a, b] + z
  {
  }

  /** Where the minifier is inside a string both literals decode to the same. */
  lemma SameText(s: bytes, quotes: nat, text: bytes, left: bytes)
    requires Reading(s, quotes, text) && Reading(MinFrom(s, In), quotes, left)
    ensures text == left
  {
    ReadingClosed(s, quotes, text);
    CopiedBody(s, In);
  }

  lemma SameUnicode(s: bytes, y: bytes)
    requires IsUnicode(s) && |y| >= UnicodeSize(s) && y[..UnicodeSize(s)] == s[..UnicodeSize(s)]
    ensures IsUnicode(y) && UnicodeSize(y) == UnicodeSize(s) && UnicodeText(y) == UnicodeText(s)
  {
    hide Hex4;
    hide IsHex;
    hide Utf8;
    var k := UnicodeSize(s);
    assert y[2..6] == y[..k][2..6] == s[..k][2..6] == s[2..6];
    assert y[0] == y[..k][0] && y[1] == y[..k][1];
    if k == 12 {
      assert y[8..12] == y[..k][8..12] == s[..k][8..12] == s[8..12];
      assert y[6] == y[..k][6] && y[7] == y[..k][7];
    }
  }

  /** The same \u escape on both sides. */
  lemma {:induction false} LagSameUnicode(s: bytes, behind: bytes, quotes: nat, text: bytes, left: bytes)
    requires Lagging(s, [], behind, quotes, text, left) && |s| >= 2 && s[0] == BACKSLASH && s[1] == LETTER_U
    ensures behind + text != UpToNul(left)
    decreases |s|, 0, 0
  {
    hide Reading;
    hide Quoteless;
    hide CString;
    hide Closed;
    hide Hex4;
    hide Min;
    hide IsUnicode;
    hide UnicodeText;
    hide UnicodeSize;
    assert [] + Min(s) == Min(s);
    var after := UnicodeReadText(s, quotes, text);
    var k, out := UnicodeSize(s), UnicodeText(s);
    AllKept(s, k);
    var y := Min(s);
    assert y[..k] == s[..k] && y[k..] == Min(s[k..]) == [] + Min(s[k..]);
    SameUnicode(s, y);
    SameFront(s, y, k);
    var left1 := UnicodeRead(y, quotes, left);
    if left[0] == 0 {
      NulEnds(text, left, behind);
    } else {
      StillBehind(behind, out, after, out, left1);
      Lag(s[k..], [], (behind + out)[|out|..], quotes, after, left1);
    }
  }

  lemma SameFront(s: bytes, y: bytes, k: nat)
    requires 2 <= k <= |s| && k <= |y| && y[..k] == s[..k]
    ensures y[0] == s[0] && y[1] == s[1]
  {
    assert y[0] == y[..k][0] && y[1] == y[..k][1] && s[0] == s[..k][0] && s[1] == s[..k][1];
  }

  lemma EscapeNotNul(c: byte)
    requires ShortEscape(c).Some?
    ensures CString([ShortEscape(c).value])
  {
  }

  /** A quote behind a lone backslash is an escaped one for the parser of what is left, so it sees fewer of them. */
  lemma QuoteEscaped(s: bytes, quotes: nat, text: bytes, left: bytes)
    requires Reading(s, quotes, text) && s[0] == QUOTE
    ensures !Reading([BACKSLASH] + Min(s), quotes, left)
  {
    hide Min;
    hide Body;
    hide MinFrom;
    Step(s, In);
    QuoteKept(s);
    var y := MinFrom(s[1..], In);
    PreScan([BACKSLASH], Min(s), In) by { BackslashFits(); }
    assert Stand([BACKSLASH], In) == Esc by { assert [BACKSLASH][1..] == []; }
    Front(QUOTE, y, Esc);
    if Balanced(y, In) {
      QuotesOnlyFall(s[1..], Out, In, In);
    }
  }

  /** The parser of what is left has a backslash in hand, from an escaped slash that was dropped. */
  lemma {:induction false} LagEsc(s: bytes, behind: bytes, quotes: nat, text: bytes, left: bytes)
    requires Lagging(s, [BACKSLASH], behind, quotes, text, left) && s != [] && !Dropped(s[0])
    ensures behind + text != UpToNul(left)
    decreases |s|, 1, 2
  {
    hide Reading;
    hide Quoteless;
    hide CString;
    hide Closed;
    hide Hex4;
    hide Min;
    hide ShortEscape;
    hide UpToNul;
    ReadingClosed(s, quotes, text);
    if s[0] == QUOTE {
      QuoteEscaped(s, quotes, text, left);
    } else if s[0] == BACKSLASH {
      LagEscEscape(s, behind, quotes, text, left);
    } else {
      Kept(s);
      var c := [s[0]];
      var after := RawRead(s, quotes, text);
      LaterText(c, after);
      var y := [BACKSLASH] + Min(s);
      TwoOff(y, BACKSLASH, s[0], Min(s[1..]));
      if s[0] == LETTER_U {
        UnicodeFits();
        assert [BACKSLASH, LETTER_U] + Min(s[1..]) == y;
        Lag(s[1..], [BACKSLASH, LETTER_U], behind + c, quotes, after, left);
        Regroup(behind, c, after);
      } else {
        var left1 := ShortRead(y, quotes, left);
        EscapeNotNul(s[0]);
        var heard := [ShortEscape(s[0]).value];
        BackslashFits();
        assert Min(s[1..]) == [] + Min(s[1..]);
        StillBehind(behind, c, after, heard, left1);
        Lag(s[1..], [], (behind + c)[1..], quotes, after, left1);
      }
    }
  }

  lemma UnicodeFits()
    ensures Quoteless([BACKSLASH, LETTER_U])
  {
  }

  /** Its backslash and the one that begins the next escape make a pair. */
  lemma {:induction false} LagEscEscape(s: bytes, behind: bytes, quotes: nat, text: bytes, left: bytes)
    requires Lagging(s, [BACKSLASH], behind, quotes, text, left) && s != [] && s[0] == BACKSLASH
    ensures behind + text != UpToNul(left)
    decreases |s|, 1, 1
  {
    hide Reading;
    hide Quoteless;
    hide CString;
    hide Closed;
    hide Hex4;
    hide Min;
    hide UpToNul;
    ReadingClosed(s, quotes, text);
    BackslashPair(s, quotes, text);
    Kept(s);
    var y := [BACKSLASH] + Min(s);
    TwoOff(y, BACKSLASH, BACKSLASH, Min(s[1..]));
    var left1 := ShortRead(y, quotes, left);
    if s[1] == LETTER_U {
      LagEscUnicode(s, behind, quotes, text, left, left1);
    } else if s[1] == SLASH {
      LagEscSlash(s, behind, quotes, text, left, left1);
    } else if s[1] == QUOTE {
      QuoteKept(s[1..]);
      CloseRead(Min(s[1..]), quotes, left1);
      OnlyBackslash(behind, text, left);
    } else if s[1] == BACKSLASH {
      LagEscBackslash(s, behind, quotes, text, left, left1);
    } else {
      LagEscShort(s, behind, quotes, text, left, left1);
    }
  }

  lemma OnlyBackslash(behind: bytes, text: bytes, left: bytes)
    requires SLASH in behind && left == [BACKSLASH] + []
    ensures behind + text != UpToNul(left)
  {
    assert left[1..] == [];
    var k :| 0 <= k < |behind| && behind[k] == SLASH;
    assert (behind + text)[k] == SLASH;
  }

  /** What the lemmas on a pair of backslashes share. */
  ghost predicate Paired(s: bytes, behind: bytes, quotes: nat, text: bytes, left: bytes, left1: bytes) {
    && Lagging(s, [BACKSLASH], behind, quotes, text, left) && |s| >= 2 && s[0] == BACKSLASH
    && left == [BACKSLASH] + left1 && Reading(Min(s[1..]), quotes, left1)
  }

  lemma {:induction false} LagEscSlash(s: bytes, behind: bytes, quotes: nat, text: bytes, left: bytes, left1: bytes)
    requires Paired(s, behind, quotes, text, left, left1) && s[1] == SLASH
    ensures behind + text != UpToNul(left)
    decreases |s|, 1, 0
  {
    hide Reading;
    hide Quoteless;
    hide CString;
    hide Closed;
    hide Hex4;
    hide Min;
    hide UpToNul;
    ReadingClosed(s, quotes, text);
    BackslashPair(s, quotes, text);
    var after := ShortRead(s, quotes, text);
    LaterText([SLASH], after);
    BackslashFits();
    assert [] + Min(s[1..]) == Min(s[1..]);
    var r, gone, later := SlashGone(s[1..], quotes, after, [], left1);
    var said := [SLASH] + gone;
    OneByteText(BACKSLASH);
    if |behind| <= 1 {
      SlashUnheard(behind, text, [BACKSLASH], left1);
    } else {
      Regroup([SLASH], gone, later);
      StillBehind(behind, said, later, [BACKSLASH], left1);
      assert Min(s[1..]) == [] + Min(r);
      Lag(r, [], (behind + said)[1..], quotes, later, left1);
    }
  }

  lemma OneByteText(c: byte)
    requires c != 0
    ensures CString([c])
  {
  }

  lemma {:induction false} LagEscBackslash(s: bytes, behind: bytes, quotes: nat, text: bytes, left: bytes, left1: bytes)
    requires Paired(s, behind, quotes, text, left, left1) && s[1] == BACKSLASH
    ensures behind + text != UpToNul(left)
    decreases |s|, 1, 0
  {
    hide Reading;
    hide Quoteless;
    hide CString;
    hide Closed;
    hide Hex4;
    hide Min;
    hide UpToNul;
    ReadingClosed(s, quotes, text);
    BackslashPair(s, quotes, text);
    var after := ShortRead(s, quotes, text);
    var c := [BACKSLASH];
    LaterText(c, after);
    Kept(s[1..]);
    BackslashFits();
    OneByteText(BACKSLASH);
    if behind[0] == SLASH {
      FirstUnheard(behind, text, BACKSLASH, left1);
    } else {
      SlashLater(behind, c);
      StillBehind(behind, c, after, c, left1);
      Lag(s[2..], c, (behind + c)[1..], quotes, after, left1);
    }
  }

  lemma FirstUnheard(behind: bytes, text: bytes, c: byte, left: bytes)
    requires behind != [] && behind[0] != c && c != 0
    ensures behind + text != UpToNul([c] + left)
  {
    assert (behind + text)[0] == behind[0];
  }

  lemma SlashLater(behind: bytes, c: bytes)
    requires SLASH in behind && behind[0] != SLASH
    ensures SLASH in (behind + c)[1..]
  {
    var k :| 0 <= k < |behind| && behind[k] == SLASH;
    assert (behind + c)[1..][k - 1] == SLASH;
  }

  lemma {:induction false} LagEscShort(s: bytes, behind: bytes, quotes: nat, text: bytes, left: bytes, left1: bytes)
    requires Paired(s, behind, quotes, text, left, left1)
    requires s[1] != LETTER_U && s[1] != SLASH && s[1] != QUOTE && s[1] != BACKSLASH
    ensures behind + text != UpToNul(left)
    decreases |s|, 1, 0
  {
    hide Reading;
    hide Quoteless;
    hide CString;
    hide Closed;
    hide Hex4;
    hide Min;
    hide UpToNul;
    ReadingClosed(s, quotes, text);
    BackslashPair(s, quotes, text);
    var after := ShortRead(s, quotes, text);
    var c := [ShortEscape(s[1]).value];
    LaterText(c, after);
    Kept(s[1..]);
    var y := Min(s[1..]);
    var left2 := RawRead(y, quotes, left1);
    assert y[1..] == Min(s[2..]) == [] + Min(s[2..]);
    var heard := [BACKSLASH, s[1]];
    TwoBytesText(BACKSLASH, s[1]);
    BackslashFits();
    assert left == heard + left2;
    if |behind| <= 2 {
      SlashUnheard(behind, text, heard, left2);
    } else {
      StillBehind(behind, c, after, heard, left2);
      Lag(s[2..], [], (behind + c)[2..], quotes, after, left2);
    }
  }

  lemma TwoBytesText(a: byte, b: byte)
    requires a != 0 && b != 0
    ensures CString([a, b])
  {
  }

  /** k bytes that stand for themselves. */
  lemma {:induction false} RunRead(y: bytes, quotes: nat, left: bytes, k: nat) returns (later: bytes)
    requires Reading(y, quotes, left) && k < |y| && forall i :: 0 <= i < k ==> y[i] != QUOTE && y[i] != BACKSLASH
    ensures left == y[..k] + later && Reading(y[k..], quotes, later)
    decreases k
  {
    hide Reading;
    if k == 0 {
      later := left;
      assert y[0..] == y && y[..0] + later == later;
    } else {
      var left1 := RawRead(y, quotes, left);
      assert forall i :: 0 <= i < k - 1 ==> y[1..][i] == y[i + 1];
      later := RunRead(y[1..], quotes, left1, k - 1);
      DropTwice(y, 1, k - 1);
      Regroup([y[0]], y[1..][..k - 1], later);
      assert [y[0]] + y[1..][..k - 1] == y[..k];
    }
  }

  /** The bytes of a \\u escape behind its backslash, up to its digits. */
  lemma UnicodeRaw(s: bytes)
    requires IsUnicode(s)
    ensures forall i :: 0 <= i < 6 ==> s[i] != QUOTE && s[i] != 0 && s[i] != SLASH
    ensures forall i :: 1 <= i < 6 ==> s[i] != BACKSLASH
    ensures UnicodeSize(s) == 12 ==> forall i :: 7 <= i < 12 ==> s[i] != QUOTE && s[i] != BACKSLASH
  {
    hide Hex4;
    hide Utf8;
    UnicodeBytes(s);
    HexRaw(s[2..6]);
    assert forall i :: 2 <= i < 6 ==> s[i] == s[2..6][i - 2];
    if UnicodeSize(s) == 12 {
      HexRaw(s[8..12]);
      assert forall i :: 8 <= i < 12 ==> s[i] == s[8..12][i - 8];
    }
  }

  lemma HexRaw(h: bytes)
    requires IsHex(h)
    ensures forall i :: 0 <= i < 4 ==> h[i] != QUOTE && h[i] != BACKSLASH
  {
    assert forall i :: 0 <= i < 4 ==> HexNibble(h[i]).Some?;
  }

  /** A \\u escape whose backslash is taken for an escaped one is read as plain bytes. */
  lemma {:induction false} LagEscUnicode(s: bytes, behind: bytes, quotes: nat, text: bytes, left: bytes, left1: bytes)
    requires Paired(s, behind, quotes, text, left, left1) && s[1] == LETTER_U
    ensures behind + text != UpToNul(left)
    decreases |s|, 1, 0
  {
    hide Reading;
    hide Quoteless;
    hide CString;
    hide Closed;
    hide Hex4;
    hide Min;
    hide UpToNul;
    hide IsUnicode;
    hide UnicodeText;
    hide UnicodeSize;
    hide Plain;
    var after := UnicodeReadText(s, quotes, text);
    var k, out := UnicodeSize(s), UnicodeText(s);
    UnicodeRaw(s);
    AllKept(s[1..], k - 1) by { Shifted(s, k); }
    DropTwice(s, 1, k - 1);
    var y := Min(s[1..]);
    var digits := s[1..6];
    ReadingClosed(s[k..], quotes, after);
    SomethingLeft(s[k..]);
    FiveMore(s, k, y, Min(s[k..]));
    var left2 := RunRead(y, quotes, left1, 5);
    var heard := [BACKSLASH] + digits;
    assert left == heard + left2 by { Regroup([BACKSLASH], digits, left2); }
    DigitsText(s, heard);
    if k == 12 {
      SecondHalf(s, y[5..], quotes, left2);
    } else if |behind| <= 6 {
      SlashUnheard(behind, text, heard, left2);
    } else {
      BackslashFits();
      assert y[5..] == [] + Min(s[6..]);
      StillBehind(behind, out, after, heard, left2);
      Lag(s[6..], [], (behind + out)[6..], quotes, after, left2);
    }
  }

  lemma SomethingLeft(s: bytes)
    requires Closed(s)
    ensures Min(s) != []
  {
    MinShape(s);
  }

  lemma Shifted(s: bytes, k: nat)
    requires 1 <= k <= |s| && forall i :: 0 <= i < k ==> Plain(s[i])
    ensures forall i :: 0 <= i < k - 1 ==> Plain(s[1..][i])
  {
    hide Plain;
    assert forall i :: 0 <= i < k - 1 ==> s[1..][i] == s[i + 1];
  }

  lemma FiveMore(s: bytes, k: nat, y: bytes, rest: bytes)
    requires 6 <= k <= |s| && y == s[1..][..k - 1] + rest && rest != []
    ensures |y| > 5 && y[..5] == s[1..6] && y[5..] == s[6..k] + rest
    ensures forall i :: 0 <= i < 5 ==> y[i] == s[i + 1]
  {
    assert y[5..] == s[1..][..k - 1][5..] + rest;
    assert s[1..][..k - 1][5..] == s[6..k];
  }

  lemma DigitsText(s: bytes, heard: bytes)
    requires |s| >= 6 && heard == [BACKSLASH] + s[1..6]
    requires forall i :: 1 <= i < 6 ==> s[i] != 0 && s[i] != SLASH
    ensures |heard| == 6 && CString(heard) && SLASH !in heard
  {
    assert forall i :: 1 <= i < 6 ==> heard[i] == s[i];
  }

  /** The second half of a pair is no escape of its own. */
  lemma SecondHalf(s: bytes, y: bytes, quotes: nat, left: bytes)
    requires IsUnicode(s) && UnicodeSize(s) == 12 && |s| >= 12 && |y| >= 6 && y[..6] == s[6..12]
    ensures !Reading(y, quotes, left)
  {
    hide Reading;
    hide Hex4;
    hide IsHex;
    assert y[0] == y[..6][0] && y[1] == y[..6][1] && y[2..6] == y[..6][2..6] == s[8..12];
    if Reading(y, quotes, left) {
      var later := UnicodeRead(y, quotes, left);
    }
  }

  /** The parser of what is left is inside a \\u escape made of bytes that the other one has decoded already. */
  lemma {:induction false} LagUnicode(s: bytes, pre: bytes, behind: bytes, quotes: nat, text: bytes, left: bytes)
    requires Lagging(s, pre, behind, quotes, text, left) && |pre| >= 2 && s != [] && !Dropped(s[0])
    ensures behind + text != UpToNul(left)
    decreases |s|, |pre|, 2
  {
    hide Reading;
    hide Quoteless;
    hide CString;
    hide Closed;
    hide Hex4;
    hide Min;
    hide UpToNul;
    hide IsUnicode;
    hide UnicodeText;
    hide UnicodeSize;
    hide Plain;
    ReadingClosed(s, quotes, text);
    var y := pre + Min(s);
    var left1 := UnicodeRead(y, quotes, left);
    if left[0] == 0 {
      NulEnds(text, left, behind);
    } else {
      LagUnicodeOn(s, pre, behind, quotes, text, left, left1);
    }
  }

  /** The escape that the parser of what is left is in. */
  ghost predicate InUnicode(s: bytes, pre: bytes, behind: bytes, quotes: nat, text: bytes, left: bytes, left1: bytes) {
    var y := pre + Min(s);
    && Lagging(s, pre, behind, quotes, text, left) && |pre| >= 2 && s != [] && !Dropped(s[0])
    && IsUnicode(y) && CString(UnicodeText(y)) && left == UnicodeText(y) + left1 && Reading(y[UnicodeSize(y)..], quotes, left1)
  }

  lemma {:induction false} LagUnicodeOn(s: bytes, pre: bytes, behind: bytes, quotes: nat, text: bytes, left: bytes, left1: bytes)
    requires InUnicode(s, pre, behind, quotes, text, left, left1)
    ensures behind + text != UpToNul(left)
    decreases |s|, |pre|, 1
  {
    hide Reading;
    hide Quoteless;
    hide CString;
    hide Closed;
    hide Hex4;
    hide Min;
    hide UpToNul;
    hide IsUnicode;
    hide UnicodeText;
    hide UnicodeSize;
    hide Plain;
    ReadingClosed(s, quotes, text);
    var y := pre + Min(s);
    UnicodeLong(y);
    var k, out := UnicodeSize(y), UnicodeText(y);
    SizeOfPre(y, pre);
    if |pre| == k {
      BackslashFits();
      assert y[k..] == Min(s) == [] + Min(s);
      StillBehind(behind, [], text, out, left1);
      assert [] + text == text && behind + [] == behind;
      Lag(s, [], behind[|out|..], quotes, text, left1);
    } else if s[0] == QUOTE {
      QuoteKept(s);
      UnicodePlain(y, |pre|);
    } else if s[0] == BACKSLASH {
      Kept(s);
      UnicodePlain(y, |pre|);
      LagSecond(s, pre, behind, quotes, text, left, left1);
    } else {
      Kept(s);
      var c := [s[0]];
      var after := RawRead(s, quotes, text);
      LaterText(c, after);
      PreMore(pre, s[0], y);
      Regroup(pre, c, Min(s[1..]));
      Lag(s[1..], pre + c, behind + c, quotes, after, left);
      Regroup(behind, c, after);
    }
  }

  lemma UnicodeLong(y: bytes)
    requires IsUnicode(y)
    ensures |y| >= 6 && UnicodeSize(y) <= |y|
  {
    hide Hex4;
    hide IsHex;
  }

  /** An escape takes twelve bytes once more than six of it have been read. */
  lemma SizeOfPre(y: bytes, pre: bytes)
    requires IsUnicode(y) && 2 <= |pre| <= |y| && pre == y[..|pre|] && |pre| <= 12
    requires 6 < |pre| ==> HighSurrogate(Hex4(pre[2..6]))
    ensures |pre| <= UnicodeSize(y) <= |y|
  {
    hide Hex4;
    hide IsHex;
    if 6 < |pre| {
      assert pre[2..6] == y[2..6];
    }
  }

  /** Inside an escape there is no quote, and no backslash except where its second half begins. */
  lemma UnicodePlain(y: bytes, i: nat)
    requires IsUnicode(y) && 2 <= i < UnicodeSize(y) <= |y|
    ensures y[i] != QUOTE && (y[i] == BACKSLASH ==> i == 6 && UnicodeSize(y) == 12 && |y| > 7 && y[7] == LETTER_U)
  {
    hide Hex4;
    UnicodeRaw(y);
  }

  lemma PreMore(pre: bytes, c: byte, y: bytes)
    requires IsUnicode(y) && 2 <= |pre| < UnicodeSize(y) <= |y| && pre == y[..|pre|] && c != 0 && c != QUOTE && Quoteless(pre)
    ensures Quoteless(pre + [c]) && |pre| < 12
    ensures 6 < |pre| + 1 ==> HighSurrogate(Hex4((pre + [c])[2..6]))
  {
    hide Hex4;
    hide IsHex;
    if 6 <= |pre| {
      assert (pre + [c])[2..6] == pre[2..6] == y[2..6];
    }
  }

  /** The second half of a pair can only begin with the backslash of an escaped slash that is dropped. */
  lemma {:induction false} LagSecond(s: bytes, pre: bytes, behind: bytes, quotes: nat, text: bytes, left: bytes, left1: bytes)
    requires InUnicode(s, pre, behind, quotes, text, left, left1) && |pre| == 6 && s[0] == BACKSLASH
    requires var y := pre + Min(s); UnicodeSize(y) == 12 && |y| > 7 && y[7] == LETTER_U
    ensures behind + text != UpToNul(left)
    decreases |s|, |pre|, 0
  {
    hide Reading;
    hide Quoteless;
    hide CString;
    hide Closed;
    hide Hex4;
    hide Min;
    hide UpToNul;
    hide IsUnicode;
    hide UnicodeText;
    hide UnicodeSize;
    hide Plain;
    ReadingClosed(s, quotes, text);
    BackslashPair(s, quotes, text);
    Kept(s);
    var y := pre + Min(s);
    var pre' := pre + [BACKSLASH];
    Regroup(pre, [BACKSLASH], Min(s[1..]));
    assert y[7] == Min(s[1..])[0];
    if s[1] == SLASH {
      var after := ShortRead(s, quotes, text);
      LaterText([SLASH], after);
      PreMore(pre, BACKSLASH, y) by { SizeOfPre(y, pre); }
      var r, gone, later := SlashGone(s[1..], quotes, after, pre', left);
      var said := [SLASH] + gone;
      Lag(r, pre', behind + said, quotes, later, left);
      Regroup([SLASH], gone, later);
      Regroup(behind, said, later);
    } else if s[1] == LETTER_U {
      NoLowHalf(s, pre, quotes, text);
    } else {
      NoOtherEscape(s, quotes, text);
    }
  }

  lemma NoLowHalf(s: bytes, pre: bytes, quotes: nat, text: bytes)
    requires Reading(s, quotes, text) && CString(text) && |s| >= 2 && s[0] == BACKSLASH && s[1] == LETTER_U
    requires |pre| == 6 && IsUnicode(pre + Min(s))
    ensures UnicodeSize(pre + Min(s)) != 12
  {
    hide Reading;
    hide CString;
    hide Hex4;
    hide IsHex;
    hide Min;
    hide UnicodeText;
    hide Plain;
    var after := UnicodeReadText(s, quotes, text);
    var k := UnicodeSize(s);
    AllKept(s, k);
    var y := pre + Min(s);
    assert y[8..12] == Min(s)[2..6] == s[..k][2..6] == s[2..6];
  }

  lemma NoOtherEscape(s: bytes, quotes: nat, text: bytes)
    requires Reading(s, quotes, text) && |s| >= 2 && s[0] == BACKSLASH && s[1] != LETTER_U && s[1] != SLASH
    ensures Min(s[1..]) != [] && Min(s[1..])[0] == s[1]
  {
    hide Reading;
    hide Closed;
    hide Min;
    hide MinFrom;
    BackslashPair(s, quotes, text);
    var after := ShortRead(s, quotes, text);
    if s[1] == QUOTE {
      QuoteKept(s[1..]);
    } else {
      Kept(s[1..]);
    }
  }
}
