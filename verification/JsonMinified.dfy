/**
 What minifying keeps: doing it twice changes nothing more, and where it touches
 no literal it drops white space between tokens and nothing else.

 The parser's scan and the minifier's run side by side here; they part where a
 closing quote comes right after a backslash.
 */
module JsonMinified {
  import opened Bytes
  import opened Json
  import opened JsonString
  import opened JsonGrammar
  import opened JsonErased
  import opened JsonMinify
  import opened JsonRoundTrip

  // ------------------------------------------------------------------
  // Pieces that are copied as they are
  // ------------------------------------------------------------------

  /** Copied outside of strings. */
  predicate Plain(c: byte) {
    c != 0 && !Removed(c) && c != SLASH && c != QUOTE
  }

  lemma MinCons(c: byte, r: bytes)
    requires Plain(c)
    ensures Min([c] + r) == [c] + Min(r)
  {
    hide AfterLine;
    hide AfterBlock;
    hide StringEnd;
    assert ([c] + r)[1..] == r;
  }

  lemma {:induction false} MinPlain(p: bytes, r: bytes)
    requires forall i :: 0 <= i < |p| ==> Plain(p[i])
    ensures Min(p + r) == p + Min(r)
  {
    hide Min;
    if p == [] {
      assert p + r == r && p + Min(r) == Min(r);
    } else {
      assert Plain(p[0]);
      MinPlain(p[1..], r);
      MinCons(p[0], p[1..] + r);
      assert [p[0]] + (p[1..] + r) == p + r && [p[0]] + (p[1..] + Min(r)) == p + Min(r);
    }
  }

  /** A copied string stays one string, whatever comes after it, or a NUL if it was not closed. */
  lemma {:induction false} StringEndStable(t: bytes, y: bytes)
    requires Ended(t) && StringEnd(t) < |t| && (t[StringEnd(t)] == 0 ==> y != [] && y[0] == 0)
    ensures StringEnd(t[..StringEnd(t)] + y) == StringEnd(t)
    decreases |t|
  {
    hide StringEnd;
    var n := StringEnd(t);
    var x := t[..n] + y;
    StringCases(t);
    if t[0] == 0 {
      assert x == y;
      StringCases(x);
    } else {
      StringCases(x);
      if t[0] == BACKSLASH && t[1] == QUOTE {
        CopiedPart(t[2..]);
        DropFront(t, n, 2, y);
        StringEndStable(t[2..], y);
      } else if t[0] != QUOTE {
        DropFront(t, n, 1, y);
        StringCases(t[1..]);
        StringEndStable(t[1..], y);
      }
    }
  }

  lemma DropFront(t: bytes, n: nat, k: nat, y: bytes)
    requires k <= n < |t|
    ensures (t[..n] + y)[k..] == t[k..][..n - k] + y && t[k..][n - k] == t[n]
    ensures forall i :: 0 <= i < n ==> (t[..n] + y)[i] == t[i]
    ensures Ended(t) ==> Ended(t[k..])
  {
  }

  lemma StringCases(t: bytes)
    requires t != []
    ensures StringEnd(t) == if t[0] == 0 then 0
                            else if t[0] == QUOTE then 1
                            else if t[0] == BACKSLASH && |t| >= 2 && t[1] == QUOTE then 2 + StringEnd(t[2..])
                            else 1 + StringEnd(t[1..])
  {
  }

  lemma MinCopied(s: bytes, n: nat, y: bytes)
    requires Ended(s) && s[0] == QUOTE && n == StringEnd(s[1..]) && n + 1 < |s|
    requires s[n + 1] == 0 ==> y != [] && y[0] == 0
    ensures Min(s[..n + 1] + y) == s[..n + 1] + Min(y)
  {
    hide Min;
    hide StringEnd;
    var x := s[..n + 1] + y;
    StringEndStable(s[1..], y);
    MinString(x);
    assert x[1..] == s[1..][..n] + y;
    assert x[..n + 1] == s[..n + 1] && x[n + 1..] == y;
  }

  // ------------------------------------------------------------------
  // Twice is once
  // ------------------------------------------------------------------

  lemma {:induction false} MinTwice(s: bytes)
    requires Ended(s)
    ensures Min(Min(s)) == Min(s)
    decreases |s|
  {
    if s[0] == 0 {
    } else {
      MinStep(s);
      hide Min;
      hide AfterLine;
      hide AfterBlock;
      if Removed(s[0]) {
        MinTwice(s[1..]);
      } else if s[0] == SLASH {
        MinTwice(if s[1] == SLASH then AfterLine(s[2..]) else if s[1] == ASTERISK then AfterBlock(s[2..]) else s[1..]);
      } else if s[0] == QUOTE {
        CopiedPart(s[1..]);
        CopiedString(s);
        var n := StringEnd(s[1..]);
        MinTwice(s[n + 1..]);
        MinAtNulOnly(s[n + 1..]);
        MinCopied(s, n, Min(s[n + 1..]));
      } else {
        MinTwice(s[1..]);
        MinCons(s[0], Min(s[1..]));
      }
    }
  }

  lemma MinAtNulOnly(s: bytes)
    requires s != []
    ensures s[0] == 0 ==> Min(s) == [0]
  {
  }

  // ------------------------------------------------------------------
  // Where strings end
  // ------------------------------------------------------------------

  lemma ScanZero(t: bytes)
    requires ScanEnd(t).Some?
    ensures ScanEnd(t).value == 0 <==> t[0] == QUOTE
  {
  }

  /** What minifying copies beyond the end of a string, when it takes its closing quote for an escaped one. */
  function Overrun(t: bytes, n: nat): nat
    requires n < |t|
  {
    if n > 0 && t[n - 1] == BACKSLASH then StringEnd(t[n + 1..]) else 0
  }

  /**
   Minifying takes a quote right after a backslash for an escaped one, parsing
   pairs backslashes up; if they differ, minifying goes on into what follows.
   */
  lemma {:induction false} StringsCompared(t: bytes)
    requires ScanEnd(t).Some? && CString(t[..ScanEnd(t).value])
    ensures StringEnd(t) == ScanEnd(t).value + 1 + Overrun(t, ScanEnd(t).value)
    decreases |t|
  {
    var n := ScanEnd(t).value;
    ScanCases(t);
    hide ScanEnd;
    if t[0] == BACKSLASH {
      hide StringEnd;
      hide Overrun;
      CStringPart(t, n, 2);
      ScanZero(t[2..]);
      StringsCompared(t[2..]);
      PairCompared(t, n);
    } else if t[0] != QUOTE {
      hide StringEnd;
      hide Overrun;
      CStringPart(t, n, 1);
      StringsCompared(t[1..]);
      OneCompared(t, n);
    }
  }

  lemma OneCompared(t: bytes, n: nat)
    requires 1 <= n < |t| && t[0] != BACKSLASH && t[0] != QUOTE && t[0] != 0
    requires StringEnd(t[1..]) == n + Overrun(t[1..], n - 1)
    ensures StringEnd(t) == n + 1 + Overrun(t, n)
  {
    assert t[1..][n..] == t[n + 1..];
  }

  lemma PairCompared(t: bytes, n: nat)
    requires 2 <= n < |t| && t[0] == BACKSLASH && t[1] != 0 && (n == 2 <==> t[2] == QUOTE)
    requires StringEnd(t[2..]) == n - 1 + Overrun(t[2..], n - 2)
    ensures StringEnd(t) == n + 1 + Overrun(t, n)
  {
    assert t[2..][n - 1..] == t[n + 1..];
    if t[1] != QUOTE {
      EscapedPair(t);
    }
  }

  lemma CStringPart(t: bytes, n: nat, k: nat)
    requires k <= n <= |t| && CString(t[..n])
    ensures CString(t[k..][..n - k]) && forall i :: 0 <= i < k ==> t[i] != 0
  {
    assert forall i :: 0 <= i < n ==> t[..n][i] == t[i];
  }

  /** A backslash with something other than a quote: one byte at a time. */
  lemma EscapedPair(t: bytes)
    requires |t| >= 3 && t[0] == BACKSLASH && t[1] != QUOTE && t[1] != 0
    ensures StringEnd(t) == if t[1] == BACKSLASH && t[2] == QUOTE then 3 + StringEnd(t[3..]) else 2 + StringEnd(t[2..])
  {
    assert t[1..][1..] == t[2..] && t[1..][2..] == t[3..];
  }

  /** Both agree where a string ends: its closing quote is not right after a backslash, or nothing follows it. */
  predicate ClosesClean(t: bytes, n: nat)
    requires n < |t|
  {
    n == 0 || t[n - 1] != BACKSLASH || n + 1 == |t| || t[n + 1] == 0
  }

  lemma StringsAgree(t: bytes)
    requires ScanEnd(t).Some? && CString(t[..ScanEnd(t).value])
    ensures StringEnd(t) == ScanEnd(t).value + 1 <==> ClosesClean(t, ScanEnd(t).value)
  {
    StringsCompared(t);
  }

  // ------------------------------------------------------------------
  // Both scans side by side
  // ------------------------------------------------------------------

  /** Where a scan stands: outside of strings, inside one, or inside one right after a backslash. */
  datatype Mode = Out | In | Esc

  /** The parser pairs every backslash inside a string with the byte after it. */
  function ParserNext(p: Mode, c: byte): Mode {
    match p
    case Out => if c == QUOTE then In else Out
    case In => if c == QUOTE then Out else if c == BACKSLASH then Esc else In
    case Esc => In
  }

  /** The minifier only looks at the byte right before a quote. */
  function MinNext(m: Mode, c: byte): Mode {
    match m
    case Out => if c == QUOTE then In else Out
    case In => if c == QUOTE then Out else if c == BACKSLASH then Esc else In
    case Esc => if c == BACKSLASH then Esc else In
  }

  /** Outside of strings the minifier does not copy these. */
  predicate Dropped(c: byte) {
    Removed(c) || c == SLASH
  }

  /** The minifier, standing at m, drops no byte that the parser, standing at p, has inside a string. */
  predicate Untouched(s: bytes, p: Mode, m: Mode) {
    s == [] || s[0] == 0
    || (!(m.Out? && !p.Out? && Dropped(s[0])) && Untouched(s[1..], ParserNext(p, s[0]), MinNext(m, s[0])))
  }

  /** What is left of s when the minifier stands at m. */
  function MinFrom(s: bytes, m: Mode): bytes {
    match m
    case Out => Min(s)
    case In => s[..StringEnd(s)] + Min(s[StringEnd(s)..])
    case Esc =>
      if s != [] && s[0] == QUOTE then [QUOTE] + (s[1..][..StringEnd(s[1..])] + Min(s[1..][StringEnd(s[1..])..]))
      else s[..StringEnd(s)] + Min(s[StringEnd(s)..])
  }

  lemma MinFromNul(s: bytes, m: Mode)
    requires s != [] && s[0] == 0
    ensures MinFrom(s, m) == [0]
  {
  }

  lemma CopyStep(s: bytes)
    requires Ended(s) && s[0] != 0
    ensures MinFrom(s, In) == [s[0]] + MinFrom(s[1..], MinNext(In, s[0]))
  {
    StringStep(s);
    hide Min;
    hide StringEnd;
    var n := StringEnd(s);
    if s[0] == QUOTE {
      assert s[..1] == [s[0]];
    } else if s[0] == BACKSLASH && s[1] == QUOTE {
      var k := StringEnd(s[2..]);
      assert s[1..][1..] == s[2..];
      CopyTwo(s, k);
    } else {
      CopyOne(s, StringEnd(s[1..]));
    }
  }

  lemma CopyOne(s: bytes, k: nat)
    requires 1 + k <= |s|
    ensures s[..1 + k] + Min(s[1 + k..]) == [s[0]] + (s[1..][..k] + Min(s[1..][k..]))
  {
    hide Min;
    assert s[1..][k..] == s[1 + k..] && s[..1 + k] == [s[0]] + s[1..][..k];
  }

  lemma CopyTwo(s: bytes, k: nat)
    requires 2 + k <= |s|
    ensures s[..2 + k] + Min(s[2 + k..]) == [s[0]] + ([s[1]] + (s[2..][..k] + Min(s[2..][k..])))
  {
    hide Min;
    assert s[2..][k..] == s[2 + k..] && s[..2 + k] == [s[0]] + ([s[1]] + s[2..][..k]);
  }

  /** One byte that is copied. */
  lemma KeepStep(s: bytes, m: Mode)
    requires Closed(s) && s[0] != 0 && !(m.Out? && Dropped(s[0]))
    ensures |s| >= 2 && Closed(s[1..]) && MinFrom(s, m) == [s[0]] + MinFrom(s[1..], MinNext(m, s[0]))
  {
    assert |s| >= 2;
    ClosedTail(s, 1);
    match m
    case Out =>
      MinStep(s);
      hide Min;
      hide StringEnd;
      if s[0] == QUOTE {
        CopyOne(s, StringEnd(s[1..]));
      }
    case In => CopyStep(s);
    case Esc =>
      if s[0] != QUOTE {
        CopyStep(s);
      }
  }

  lemma BlankStep(s: bytes)
    requires Closed(s) && Removed(s[0])
    ensures |s| >= 2 && Closed(s[1..]) && MinFrom(s, Out) == MinFrom(s[1..], Out)
  {
    assert |s| >= 2;
    ClosedTail(s, 1);
    MinStep(s);
  }

  /** No backslash and no slash outside of strings, and every string is closed. */
  predicate Balanced(s: bytes, p: Mode) {
    s != [] &&
    if s[0] == 0 then p.Out?
    else !(p.Out? && (s[0] == BACKSLASH || s[0] == SLASH)) && Balanced(s[1..], ParserNext(p, s[0]))
  }

  /** The rest of a literal that is not touched is copied, and the minifier does not stand right after a backslash then. */
  lemma {:induction false} LiteralCopied(s: bytes, m: Mode) returns (m': Mode)
    requires Closed(s) && Balanced(s, In) && Untouched(s, In, m)
    ensures ScanEnd(s).Some?
    ensures var n := ScanEnd(s).value + 1;
            && n < |s| && Closed(s[n..]) && !m'.Esc?
            && MinFrom(s, m) == s[..n] + MinFrom(s[n..], m')
            && Untouched(s[n..], Out, m') && Balanced(s[n..], Out)
    decreases |s|
  {
    hide MinFrom;
    KeepStep(s, m);
    var m1 := MinNext(m, s[0]);
    if s[0] == QUOTE {
      m' := m1;
      assert s[..1] == [s[0]];
    } else if s[0] == BACKSLASH {
      hide Untouched;
      EscStands(s, m);
      KeepStep(s[1..], m1);
      m' := LiteralCopied(s[2..], MinNext(m1, s[1]));
      CopiedPair(s, ScanEnd(s[2..]).value + 1, m, m');
    } else {
      m' := LiteralCopied(s[1..], m1);
      CopiedByte(s, ScanEnd(s[1..]).value + 1, m, m');
    }
  }

  lemma EscStands(s: bytes, m: Mode)
    requires Closed(s) && s[0] == BACKSLASH && Balanced(s, In) && Untouched(s, In, m)
    ensures var m1 := MinNext(m, BACKSLASH);
            && |s| >= 3 && s[1] != 0 && !(m1.Out? && Dropped(s[1])) && s[1..][1..] == s[2..] && Closed(s[1..]) && Closed(s[2..])
            && Balanced(s[2..], In) && Untouched(s[2..], In, MinNext(m1, s[1]))
  {
    assert |s| >= 2;
    assert s[1] == s[1..][0] && Balanced(s[1..], Esc);
    assert |s| >= 3;
    assert s[1..][1..] == s[2..];
    ClosedTail(s, 1);
    ClosedTail(s, 2);
  }

  lemma CopiedByte(s: bytes, k: nat, m: Mode, m': Mode)
    requires 1 + k < |s| && MinFrom(s, m) == [s[0]] + MinFrom(s[1..], MinNext(m, s[0]))
    requires MinFrom(s[1..], MinNext(m, s[0])) == s[1..][..k] + MinFrom(s[1..][k..], m')
    ensures s[1..][k..] == s[1 + k..] && MinFrom(s, m) == s[..1 + k] + MinFrom(s[1 + k..], m')
  {
    hide MinFrom;
    assert s[1..][k..] == s[1 + k..];
    assert s[..1 + k] == [s[0]] + s[1..][..k];
  }

  lemma CopiedPair(s: bytes, k: nat, m: Mode, m': Mode)
    requires 2 + k < |s| && MinFrom(s, m) == [s[0]] + MinFrom(s[1..], MinNext(m, s[0]))
    requires MinFrom(s[1..], MinNext(m, s[0])) == [s[1]] + MinFrom(s[2..], MinNext(MinNext(m, s[0]), s[1]))
    requires MinFrom(s[2..], MinNext(MinNext(m, s[0]), s[1])) == s[2..][..k] + MinFrom(s[2..][k..], m')
    ensures s[2..][k..] == s[2 + k..] && MinFrom(s, m) == s[..2 + k] + MinFrom(s[2 + k..], m')
  {
    hide MinFrom;
    assert s[2..][k..] == s[2 + k..];
    assert s[..2 + k] == [s[0]] + ([s[1]] + s[2..][..k]);
  }

  /** Where no literal is touched, minifying drops white space outside of literals and nothing else. */
  lemma {:induction false} UntouchedErases(s: bytes, m: Mode)
    requires Closed(s) && !m.Esc? && Balanced(s, Out) && Untouched(s, Out, m)
    ensures Erased(s, MinFrom(s, m))
    decreases |s|
  {
    hide MinFrom;
    if s[0] == 0 {
      ClosedAtNul(s);
      MinFromNul(s, m);
      assert Erased(s[1..], []);
    } else if m.Out? && Removed(s[0]) {
      BlankStep(s);
      UntouchedErases(s[1..], Out);
    } else if s[0] == QUOTE {
      KeepStep(s, m);
      var m' := LiteralCopied(s[1..], MinNext(m, QUOTE));
      var n := ScanEnd(s[1..]).value;
      CopiedByte(s, n + 1, m, m');
      UntouchedErases(s[n + 2..], m');
      hide Untouched;
      hide Balanced;
      hide ScanEnd;
      LiteralErased(s, n, MinFrom(s[n + 2..], m'));
    } else {
      KeepStep(s, m);
      UntouchedErases(s[1..], MinNext(m, s[0]));
      assert ([s[0]] + MinFrom(s[1..], MinNext(m, s[0])))[1..] == MinFrom(s[1..], MinNext(m, s[0]));
    }
  }

  lemma LiteralErased(s: bytes, n: nat, t: bytes)
    requires s != [] && s[0] == QUOTE && ScanEnd(s[1..]) == Some(n) && n + 2 <= |s| && Erased(s[n + 2..], t)
    ensures Erased(s, s[..n + 2] + t)
  {
    var x := s[..n + 2] + t;
    assert x[..n + 2] == s[..n + 2] && x[n + 2..] == t;
  }

  // ------------------------------------------------------------------
  // A text whose meaning is lost
  // ------------------------------------------------------------------

  const A: byte := 97
  const B: byte := 98

  /** In the text of this tree a closing quote comes right after a backslash, so the blank in the other string goes. */
  lemma MinifyCanChangeMeaning()
    ensures var v := Array([String([BACKSLASH]), String([A, SPACE, B])]);
            var text := Render(v, 0, false);
            && ParseText(text, true) == Some(v)
            && ParseBuffer(Min(text + [0]), true) == Some(Array([String([BACKSLASH]), String([A, B])]))
  {
    var v := Array([String([BACKSLASH]), String([A, SPACE, B])]);
    var w := Array([String([BACKSLASH]), String([A, B])]);
    LostText();
    TwoStringsFit([BACKSLASH], [A, SPACE, B]);
    TwoStringsFit([BACKSLASH], [A, B]);
    hide Printable;
    hide Fits;
    hide Render;
    hide Min;
    hide ParseBuffer;
    PrintParseRoundTrip(v, false, true);
    PrintParseRoundTrip(w, false, true);
  }

  lemma TwoStringsFit(a: bytes, b: bytes)
    requires CString(a) && CString(b)
    ensures Printable(Array([String(a), String(b)])) && Fits(Array([String(a), String(b)]), NESTING_LIMIT)
  {
    var items := [String(a), String(b)];
    forall i | 0 <= i < |items|
      ensures Printable(items[i]) && Fits(items[i], NESTING_LIMIT - 1)
    {
    }
  }

  lemma LostText()
    ensures Min(Render(Array([String([BACKSLASH]), String([A, SPACE, B])]), 0, false) + [0])
         == Render(Array([String([BACKSLASH]), String([A, B])]), 0, false) + [0]
  {
    PlainEscapes([A, SPACE, B]);
    PlainEscapes([A, B]);
    hide Render;
    hide EscapeAll;
    hide Min;
    var front := [QUOTE, BACKSLASH, BACKSLASH, QUOTE, COMMA, QUOTE];
    BackslashFirst([A, SPACE, B], front, [A, SPACE, B, QUOTE, RBRACKET, 0]);
    BackslashFirst([A, B], front, [A, B, QUOTE, RBRACKET, 0]);
    LostRest(front, [A, SPACE, B, QUOTE, RBRACKET, 0]);
  }

  lemma LostRest(front: bytes, tail: bytes)
    requires front == [QUOTE, BACKSLASH, BACKSLASH, QUOTE, COMMA, QUOTE] && tail == [A, SPACE, B, QUOTE, RBRACKET, 0]
    ensures Min([LBRACKET] + (front + tail)) == [LBRACKET] + (front + [A, B, QUOTE, RBRACKET, 0])
  {
    hide Min;
    LostString(tail);
    LostTail();
    MinCons(LBRACKET, front + tail);
  }

  /** The text of two strings, of which the first is a lone backslash. */
  lemma BackslashFirst(b: bytes, front: bytes, tail: bytes)
    requires front == [QUOTE, BACKSLASH, BACKSLASH, QUOTE, COMMA, QUOTE] && tail == b + [QUOTE, RBRACKET, 0]
    requires EscapeAll(b) == b
    ensures Render(Array([String([BACKSLASH]), String(b)]), 0, false) + [0] == [LBRACKET] + (front + tail)
  {
    TwoStrings([BACKSLASH], b);
    BackslashEscapes();
    hide Render;
    hide EscapeAll;
    LostBytes(b, front, tail);
  }

  lemma LostBytes(b: bytes, front: bytes, tail: bytes)
    requires front == [QUOTE, BACKSLASH, BACKSLASH, QUOTE, COMMA, QUOTE] && tail == b + [QUOTE, RBRACKET, 0]
    ensures [LBRACKET] + ([QUOTE] + [BACKSLASH, BACKSLASH] + [QUOTE]) + [COMMA] + ([QUOTE] + b + [QUOTE]) + [RBRACKET] + [0]
         == [LBRACKET] + (front + tail)
  {
  }

  lemma BackslashEscapes()
    ensures EscapeAll([BACKSLASH]) == [BACKSLASH, BACKSLASH]
  {
    var s := [BACKSLASH];
    assert s[1..] == [] && EscapeAll(s[1..]) == [];
    assert Escape(s[0]) == [BACKSLASH, BACKSLASH];
    assert [BACKSLASH, BACKSLASH] + [] == [BACKSLASH, BACKSLASH];
  }

  lemma TwoStrings(a: bytes, b: bytes)
    ensures Render(Array([String(a), String(b)]), 0, false)
         == [LBRACKET] + ([QUOTE] + EscapeAll(a) + [QUOTE]) + [COMMA] + ([QUOTE] + EscapeAll(b) + [QUOTE]) + [RBRACKET]
  {
    hide EscapeAll;
    var items := [String(a), String(b)];
    assert items[1..] == [String(b)];
    assert RenderItems(items[1..], 1, false) == Quoted(b);
    assert RenderItems(items, 1, false) == Quoted(a) + [COMMA] + Quoted(b);
  }

  lemma {:induction false} PlainEscapes(s: bytes)
    requires forall i :: 0 <= i < |s| ==> s[i] > 31 && s[i] != QUOTE && s[i] != BACKSLASH
    ensures EscapeAll(s) == s
  {
    if s != [] {
      PlainEscapes(s[1..]);
    }
  }

  /** Both strings are taken for one up to the second one's opening quote. */
  lemma LostString(tail: bytes)
    ensures Min([QUOTE, BACKSLASH, BACKSLASH, QUOTE, COMMA, QUOTE] + tail) == [QUOTE, BACKSLASH, BACKSLASH, QUOTE, COMMA, QUOTE] + Min(tail)
  {
    var front := [QUOTE, BACKSLASH, BACKSLASH, QUOTE, COMMA, QUOTE];
    var s := front + tail;
    var t := s[1..];
    assert t[1..][2..] == [COMMA, QUOTE] + tail;
    assert StringEnd([COMMA, QUOTE] + tail) == 2 by {
      assert ([COMMA, QUOTE] + tail)[1..] == [QUOTE] + tail;
    }
    assert StringEnd(t[1..]) == 2 + StringEnd(t[1..][2..]);
    assert StringEnd(t) == 5;
    MinString(s);
    assert s[..6] == front && s[6..] == tail;
  }

  lemma LostTail()
    ensures Min([A, SPACE, B, QUOTE, RBRACKET, 0]) == [A, B, QUOTE, RBRACKET, 0]
  {
    var end := [QUOTE, RBRACKET, 0];
    assert Min(end) == end by {
      assert end[1..] == [RBRACKET, 0] && [RBRACKET, 0][1..] == [0];
      assert StringEnd([RBRACKET, 0]) == 1;
      MinString(end);
      assert end[..2] + [0] == end;
    }
    MinCons(B, end);
    assert [B] + end == [B, QUOTE, RBRACKET, 0];
    assert Min([SPACE, B, QUOTE, RBRACKET, 0]) == Min([B, QUOTE, RBRACKET, 0]) by {
      assert [SPACE, B, QUOTE, RBRACKET, 0][1..] == [B, QUOTE, RBRACKET, 0];
    }
    MinCons(A, [SPACE, B, QUOTE, RBRACKET, 0]);
    assert [A] + [SPACE, B, QUOTE, RBRACKET, 0] == [A, SPACE, B, QUOTE, RBRACKET, 0];
  }
}
