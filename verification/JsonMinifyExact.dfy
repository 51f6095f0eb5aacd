/**
 Exactly when a minified text means what the text did.
 */
module JsonMinifyExact {
  import opened Bytes
  import opened Json
  import opened JsonString
  import opened JsonGrammar
  import opened JsonMinify
  import opened JsonErased
  import opened JsonMinified
  import opened JsonLiterals
  import opened JsonQuotes
  import opened JsonMinifyLoss
  import opened JsonRoundTrip

  // ------------------------------------------------------------------
  // A literal that decodes to the same has lost nothing
  // ------------------------------------------------------------------

  /** The rest of a literal is copied, and if nothing behind it is touched then nothing in it is. */
  ghost predicate Copied(s: bytes, m: Mode, m': Mode) {
    && ScanEnd(s).Some? && Closed(Rest(s)) && !m'.Esc?
    && MinFrom(s, m) == s[..ScanEnd(s).value + 1] + MinFrom(Rest(s), m')
    && (Untouched(Rest(s), Out, m') ==> Untouched(s, In, m))
  }

  lemma {:induction false} UntouchedRaw(pre: bytes, y: bytes)
    requires Untouched(y, In, Out)
    requires forall i :: 0 <= i < |pre| ==> Plain(pre[i]) && pre[i] != BACKSLASH
    ensures Untouched(pre + y, In, Out)
    decreases |pre|
  {
    hide Plain;
    if pre == [] {
      assert pre + y == y;
    } else {
      assert Plain(pre[0]) && pre[0] != BACKSLASH;
      UntouchedRaw(pre[1..], y);
      UntouchedByte(pre[0], pre[1..] + y);
      assert [pre[0]] + (pre[1..] + y) == pre + y;
    }
  }

  lemma UntouchedByte(c: byte, y: bytes)
    requires Plain(c) && c != BACKSLASH && Untouched(y, In, Out)
    ensures Untouched([c] + y, In, Out)
  {
    assert ([c] + y)[1..] == y;
  }

  lemma UntouchedPair(s: bytes)
    requires |s| >= 2 && s[0] == BACKSLASH && Plain(s[1]) && Untouched(s[2..], In, Out)
    ensures Untouched(s, In, Out)
  {
    assert s[1..][1..] == s[2..] && s[1..][0] == s[1];
    assert Untouched(s[1..], Esc, Out);
  }

  lemma UntouchedUnicode(s: bytes)
    requires IsUnicode(s) && Untouched(s[UnicodeSize(s)..], In, Out)
    ensures Untouched(s, In, Out)
  {
    hide Untouched;
    hide Hex4;
    UnicodeBytes(s);
    UnicodeRaw(s);
    if UnicodeSize(s) == 12 {
      UnicodeHalf(s[6..]) by { DropTwice(s, 6, 6); }
    }
    UnicodeHalf(s);
  }

  lemma UnicodeHalf(s: bytes)
    requires |s| >= 6 && s[0] == BACKSLASH && (forall i :: 1 <= i < 6 ==> Plain(s[i])) && (forall i :: 2 <= i < 6 ==> s[i] != BACKSLASH)
    requires Untouched(s[6..], In, Out)
    ensures Untouched(s, In, Out)
  {
    hide Untouched;
    var digits := s[2..6];
    assert forall i :: 0 <= i < 4 ==> digits[i] == s[i + 2];
    UntouchedRaw(digits, s[6..]);
    assert digits + s[6..] == s[2..];
    UntouchedPair(s);
  }

  /** k bytes in front of a literal's rest that is copied. */
  lemma CopiedFront(s: bytes, k: nat, m': Mode)
    requires Closed(s) && ScanEnd(s).Some? && k <= ScanEnd(s).value && ScanEnd(s[k..]) == Some(ScanEnd(s).value - k)
    requires MinFrom(s, Out) == s[..k] + MinFrom(s[k..], Out) && Copied(s[k..], Out, m')
    requires Untouched(s[k..], In, Out) ==> Untouched(s, In, Out)
    ensures Copied(s, Out, m')
  {
    hide MinFrom;
    hide Untouched;
    hide ScanEnd;
    hide Closed;
    SameRest(s, k);
    hide Rest;
    var n := ScanEnd(s).value + 1;
    assert s[..k] + s[k..][..n - k] == s[..n];
    assert s[..k] + (s[k..][..n - k] + MinFrom(Rest(s), m')) == s[..k] + s[k..][..n - k] + MinFrom(Rest(s), m');
  }

  lemma UnicodeEnds(s: bytes)
    requires ScanEnd(s).Some? && IsUnicode(s)
    ensures var k := UnicodeSize(s); k <= ScanEnd(s).value && ScanEnd(s[k..]) == Some(ScanEnd(s).value - k)
  {
    hide ScanEnd;
    hide Hex4;
    hide IsHex;
    if UnicodeSize(s) == 12 {
      PairScan(s);
    } else {
      UnicodeScan(s);
    }
  }

  /** What both sides of a literal that starts with the minifier outside of strings have in common. */
  ghost predicate Same(s: bytes, quotes: nat, text: bytes, left: bytes) {
    Reading(s, quotes, text) && CString(text) && Reading(Min(s), quotes, left) && text == UpToNul(left)
  }

  /** If both literals decode to the same, nothing has been dropped. */
  lemma {:induction false} BodyUntouched(s: bytes, quotes: nat, text: bytes, left: bytes) returns (m': Mode)
    requires Same(s, quotes, text, left)
    ensures Copied(s, Out, m')
    decreases |s|
  {
    hide Reading;
    hide Copied;
    hide CString;
    hide UpToNul;
    hide Min;
    hide Closed;
    ReadingClosed(s, quotes, text);
    if Removed(s[0]) || s[0] == SLASH {
      NothingDropped(s, quotes, text, left);
      m' := Out;
    } else if s[0] == QUOTE {
      m' := In;
      ClosedHere(s);
    } else if s[0] == BACKSLASH {
      m' := EscapeUntouched(s, quotes, text, left);
    } else {
      var c := [s[0]];
      Kept(s);
      var after := RawRead(s, quotes, text);
      LaterText(c, after);
      var left1 := RawRead(Min(s), quotes, left);
      assert Min(s)[1..] == Min(s[1..]);
      SameLater(c, after, left1);
      m' := BodyUntouched(s[1..], quotes, after, left1);
      RawFront(s, m');
    }
  }

  lemma SameLater(out: bytes, after: bytes, left: bytes)
    requires out + after == UpToNul(out + left) && CString(out)
    ensures after == UpToNul(left)
  {
    UpToNulJoin(out, left);
    assert (out + after)[|out|..] == after && (out + UpToNul(left))[|out|..] == UpToNul(left);
  }

  lemma NothingDropped(s: bytes, quotes: nat, text: bytes, left: bytes)
    requires Same(s, quotes, text, left) && s != []
    ensures !Dropped(s[0])
  {
    hide Reading;
    hide CString;
    hide UpToNul;
    hide Min;
    hide Closed;
    ReadingClosed(s, quotes, text);
    var c := [s[0]];
    BackslashFits();
    assert [] + Min(s) == Min(s);
    if Removed(s[0]) {
      BlankDropped(s);
      var after := RawRead(s, quotes, text);
      LaterText(c, after);
      Lag(s[1..], [], c, quotes, after, left);
    } else if s[0] == SLASH {
      var after := RawRead(s, quotes, text);
      LaterText(c, after);
      SlashTail(s);
      var r, gone, later := SlashGone(s, quotes, after, [], left);
      Lag(r, [], c + gone, quotes, later, left);
      Regroup(c, gone, later);
    }
  }

  lemma BlankDropped(s: bytes)
    requires Closed(s) && Removed(s[0])
    ensures Min(s) == Min(s[1..])
  {
    BlankStep(s);
  }

  lemma SlashTail(s: bytes)
    requires Closed(s) && s[0] == SLASH
    ensures |s| >= 2
  {
  }

  lemma ClosedHere(s: bytes)
    requires Closed(s) && s[0] == QUOTE
    ensures Copied(s, Out, In)
  {
    KeepStep(s, Out);
    hide MinFrom;
    assert s[..1] == [s[0]];
  }

  lemma RawFront(s: bytes, m': Mode)
    requires Closed(s) && ScanEnd(s).Some? && s[0] != 0 && s[0] != QUOTE && s[0] != BACKSLASH && !Dropped(s[0])
    requires Min(s) == [s[0]] + Min(s[1..]) && Copied(s[1..], Out, m')
    ensures Copied(s, Out, m')
  {
    hide Copied;
    hide Min;
    ScanCases(s);
    assert s[..1] == [s[0]];
    CopiedFront(s, 1, m');
  }

  lemma PairFront(s: bytes, m': Mode)
    requires Closed(s) && ScanEnd(s).Some? && s[0] == BACKSLASH && |s| >= 2 && Plain(s[1])
    requires Min(s) == s[..2] + Min(s[2..]) && Copied(s[2..], Out, m')
    ensures Copied(s, Out, m')
  {
    hide Copied;
    hide Min;
    hide Untouched;
    ScanCases(s);
    if Untouched(s[2..], In, Out) {
      UntouchedPair(s);
    }
    CopiedFront(s, 2, m');
  }

  lemma UnicodeFront(s: bytes, m': Mode)
    requires Closed(s) && ScanEnd(s).Some? && IsUnicode(s)
    requires Min(s) == s[..UnicodeSize(s)] + Min(s[UnicodeSize(s)..]) && Copied(s[UnicodeSize(s)..], Out, m')
    ensures Copied(s, Out, m')
  {
    hide Copied;
    hide Min;
    hide Untouched;
    hide ScanEnd;
    hide IsUnicode;
    hide UnicodeSize;
    UnicodeEnds(s);
    var k := UnicodeSize(s);
    if Untouched(s[k..], In, Out) {
      UntouchedUnicode(s);
    }
    CopiedFront(s, k, m');
  }

  lemma {:induction false} EscapeUntouched(s: bytes, quotes: nat, text: bytes, left: bytes) returns (m': Mode)
    requires Same(s, quotes, text, left) && s != [] && s[0] == BACKSLASH
    ensures Copied(s, Out, m')
    decreases |s|, 0
  {
    hide Reading;
    hide Copied;
    hide CString;
    hide UpToNul;
    hide Min;
    hide Closed;
    hide IsUnicode;
    hide UnicodeText;
    hide UnicodeSize;
    hide ShortEscape;
    ReadingClosed(s, quotes, text);
    BackslashPair(s, quotes, text);
    Kept(s);
    if s[1] == LETTER_U {
      var after := UnicodeReadText(s, quotes, text);
      var k, out := UnicodeSize(s), UnicodeText(s);
      var left1 := UnicodeAgain(s, quotes, text, left, after);
      SameLater(out, after, left1);
      m' := BodyUntouched(s[k..], quotes, after, left1);
      AllKept(s, k);
      UnicodeFront(s, m');
    } else {
      var after := ShortRead(s, quotes, text);
      var c := [ShortEscape(s[1]).value];
      EscapeNotNul(s[1]);
      LaterText(c, after);
      if s[1] == SLASH {
        EscapedSlash(s, quotes, text, left);
        m' := Out;
      } else if s[1] == QUOTE {
        m' := CopiedLiteral(s[2..], In) by { ReadingClosed(s[2..], quotes, after); }
        QuoteFront(s, m');
      } else {
        EscapeKept(s[1]);
        Kept(s[1..]);
        TwoOff(Min(s), s[0], s[1], Min(s[2..]));
        var left1 := ShortRead(Min(s), quotes, left);
        SameLater(c, after, left1);
        m' := BodyUntouched(s[2..], quotes, after, left1);
        assert s[..2] == [s[0], s[1]];
        PairFront(s, m');
      }
    }
  }

  lemma EscapeKept(c: byte)
    requires ShortEscape(c).Some? && c != SLASH && c != QUOTE
    ensures Plain(c) && !Dropped(c)
  {
  }

  lemma EscapedSlash(s: bytes, quotes: nat, text: bytes, left: bytes)
    requires Same(s, quotes, text, left) && |s| >= 2 && s[0] == BACKSLASH
    ensures s[1] != SLASH
  {
    hide Reading;
    hide CString;
    hide UpToNul;
    hide Min;
    hide Closed;
    ReadingClosed(s, quotes, text);
    BackslashPair(s, quotes, text);
    Kept(s);
    if s[1] == SLASH {
      var after := ShortRead(s, quotes, text);
      LaterText([SLASH], after);
      BackslashFits();
      var r, gone, later := SlashGone(s[1..], quotes, after, [BACKSLASH], left);
      Lag(r, [BACKSLASH], [SLASH] + gone, quotes, later, left);
      Regroup([SLASH], gone, later);
    }
  }

  /** From an escaped quote on the minifier is inside a string. */
  lemma QuoteFront(s: bytes, m': Mode)
    requires Closed(s) && ScanEnd(s).Some? && |s| >= 3 && s[0] == BACKSLASH && s[1] == QUOTE
    requires Closed(s[2..]) && ScanEnd(s[2..]).Some? && !m'.Esc?
    requires var n := ScanEnd(s[2..]).value + 1;
             n < |s[2..]| && Closed(s[2..][n..]) && MinFrom(s[2..], In) == s[2..][..n] + MinFrom(s[2..][n..], m')
    requires Untouched(Rest(s[2..]), Out, m') ==> Untouched(s[2..], In, In)
    ensures Copied(s, Out, m')
  {
    hide MinFrom;
    ScanCases(s);
    RestStep(s);
    KeepStep(s, Out);
    assert s[1..][0] == QUOTE && s[1..][1..] == s[2..];
    KeepStep(s[1..], Out);
    hide ScanEnd;
    CopiedPair(s, ScanEnd(s[2..]).value + 1, Out, m');
    assert Untouched(s[2..], In, In) ==> Untouched(s[1..], Esc, Out);
  }

  lemma UnicodeAgain(s: bytes, quotes: nat, text: bytes, left: bytes, after: bytes) returns (left1: bytes)
    requires Same(s, quotes, text, left) && IsUnicode(s) && text == UnicodeText(s) + after
    requires UnicodeSize(s) <= |s| && forall i :: 0 <= i < UnicodeSize(s) ==> Plain(s[i])
    ensures left == UnicodeText(s) + left1 && Reading(Min(s[UnicodeSize(s)..]), quotes, left1)
  {
    hide Reading;
    hide CString;
    hide Min;
    hide UnicodeText;
    hide Hex4;
    hide IsHex;
    hide Plain;
    var k := UnicodeSize(s);
    AllKept(s, k);
    var y := Min(s);
    assert y[..k] == s[..k] && y[k..] == Min(s[k..]);
    SameUnicode(s, y);
    SameFront(s, y, k);
    left1 := UnicodeRead(y, quotes, left);
    NotEnded(text, left);
  }

  lemma NotEnded(text: bytes, left: bytes)
    requires text != [] && text == UpToNul(left)
    ensures left != [] && left[0] != 0
  {
  }

  // ------------------------------------------------------------------
  // A text with the same literals has lost nothing of them
  // ------------------------------------------------------------------

  /** No literal of the text decodes to a NUL. */
  predicate NulFree(s: bytes)
    decreases |s|
  {
    if s == [] || s[0] == 0 then true
    else if s[0] == QUOTE then
      match Body(s[1..])
      case None => true
      case Some(text) => CString(text) && NulFree(Rest(s[1..]))
    else NulFree(s[1..])
  }

  lemma {:induction false} MinFromClosed(s: bytes, m: Mode)
    requires Closed(s)
    ensures Closed(MinFrom(s, m))
    decreases |s|
  {
    hide Min;
    if m.Out? {
      MinShape(s);
    } else if s[0] == 0 {
      MinFromNul(s, m);
    } else {
      hide MinFrom;
      KeepStep(s, m);
      MinFromClosed(s[1..], MinNext(m, s[0]));
      JoinClosed([s[0]], MinFrom(s[1..], MinNext(m, s[0])));
    }
  }

  lemma LiteralsOfByte(c: byte, y: bytes)
    requires Bare(c)
    ensures Literals([c] + y) == Literals(y)
  {
    assert ([c] + y)[1..] == y;
  }

  /** The first literal of a text, and the rest. */
  lemma FirstLiteral(s: bytes)
    requires s != [] && s[0] == QUOTE && Literals(s).Some?
    ensures ScanEnd(s[1..]).Some? && Body(s[1..]).Some? && Literals(Rest(s[1..])).Some?
    ensures Literals(s).value == [UpToNul(Body(s[1..]).value)] + Literals(Rest(s[1..])).value
  {
    hide Unescape;
    hide UpToNul;
    hide ScanEnd;
  }

  /** The first literal, as the parser inside it sees it. */
  lemma ReadingFirst(s: bytes, t: bytes)
    requires Closed(s) && s == [QUOTE] + t && Literals(s).Some?
    ensures Body(t).Some? && Reading(t, 2 * |Literals(s).value| - 1, Body(t).value)
  {
    hide Balanced;
    hide Quotes;
    hide Body;
    hide Literals;
    assert s[1..] == t;
    FirstLiteral(s);
    QuotesOfLiterals(s);
    Step(s, Out);
  }

  /** What a literal is copied to ends in the same place. */
  lemma RestCopied(s: bytes, m: Mode, m': Mode)
    requires Copied(s, m, m')
    ensures Rest(MinFrom(s, m)) == MinFrom(Rest(s), m')
  {
    hide MinFrom;
    hide Untouched;
    var z := MinFrom(Rest(s), m');
    ScanStable(s, z);
    hide ScanEnd;
    var n := ScanEnd(s).value + 1;
    assert (s[..n] + z)[n..] == z;
  }

  /** A literal in which the minifier starts inside a string is copied. */
  lemma InsideCopied(s: bytes) returns (m': Mode)
    requires Closed(s) && ScanEnd(s).Some?
    ensures Copied(s, In, m')
    ensures m'.In? ==> EndsInBackslash(s)
  {
    hide MinFrom;
    hide Untouched;
    m' := CopiedLiteral(s, In);
  }

  /** The closing quote comes right after a backslash. */
  ghost predicate EndsInBackslash(s: bytes) {
    ScanEnd(s).Some? && 0 < ScanEnd(s).value && s[ScanEnd(s).value - 1] == BACKSLASH
  }

  /** A copied literal that opens here is not touched if nothing behind it is. */
  lemma UntouchedQuote(s: bytes, m: Mode, m': Mode)
    requires s != [] && s[0] == QUOTE && Copied(s[1..], MinNext(m, QUOTE), m') && Untouched(Rest(s[1..]), Out, m')
    ensures Untouched(s, Out, m)
  {
    hide MinFrom;
    hide Rest;
  }

  lemma {:induction false} TextUntouched(s: bytes, m: Mode, literals: seq<bytes>)
    requires Closed(s) && !m.Esc? && NulFree(s)
    requires Literals(s) == Some(literals) && Literals(MinFrom(s, m)) == Some(literals)
    ensures Untouched(s, Out, m)
    decreases |s|, 1
  {
    hide MinFrom;
    if s[0] == 0 {
    } else if s[0] == QUOTE {
      QuoteUntouched(s, m, literals);
    } else if m.Out? && Removed(s[0]) {
      BlankStep(s);
      TextUntouched(s[1..], m, literals);
    } else {
      KeepStep(s, m);
      LiteralsOfByte(s[0], MinFrom(s[1..], MinNext(m, s[0])));
      TextUntouched(s[1..], MinNext(m, s[0]), literals);
    }
  }

  lemma {:induction false} QuoteUntouched(s: bytes, m: Mode, literals: seq<bytes>)
    requires Closed(s) && s[0] == QUOTE && !m.Esc? && NulFree(s)
    requires Literals(s) == Some(literals) && Literals(MinFrom(s, m)) == Some(literals)
    ensures Untouched(s, Out, m)
    decreases |s|, 0
  {
    hide MinFrom;
    hide Literals;
    hide Reading;
    hide Copied;
    hide Untouched;
    hide UpToNul;
    hide Body;
    hide Rest;
    hide ScanEnd;
    hide CString;
    var m1 := MinNext(m, QUOTE);
    KeepStep(s, m);
    var t, y := s[1..], MinFrom(s[1..], m1);
    FirstLiteral(s);
    FirstLiteral(MinFrom(s, m));
    MinFromClosed(s, m);
    assert s == [QUOTE] + t && MinFrom(s, m)[1..] == y;
    ReadingFirst(s, t);
    ReadingFirst(MinFrom(s, m), y);
    NulFreeFirst(s);
    SameFirst(UpToNul(Body(t).value), Literals(Rest(t)).value, UpToNul(Body(y).value), Literals(Rest(y)).value);
    TextIsWhole(Body(t).value);
    var m';
    if m1.Out? {
      OutIsMin(t);
      m' := BodyUntouched(t, 2 * |literals| - 1, Body(t).value, Body(y).value);
    } else {
      m' := InsideCopied(t);
    }
    RestCopied(t, m1, m');
    CopiedClosed(t, m1, m');
    TextUntouched(Rest(t), m', Literals(Rest(t)).value);
    UntouchedQuote(s, m, m');
  }

  lemma SameFirst(a: bytes, x: seq<bytes>, b: bytes, y: seq<bytes>)
    requires [a] + x == [b] + y
    ensures a == b && x == y
  {
    assert ([a] + x)[0] == a && ([b] + y)[0] == b && ([a] + x)[1..] == x && ([b] + y)[1..] == y;
  }

  lemma NulFreeFirst(s: bytes)
    requires s != [] && s[0] == QUOTE && NulFree(s) && Body(s[1..]).Some?
    ensures CString(Body(s[1..]).value) && NulFree(Rest(s[1..]))
  {
    hide Body;
    hide Rest;
  }

  lemma TextIsWhole(text: bytes)
    requires CString(text)
    ensures UpToNul(text) == text
  {
    CStringIsWhole(text);
  }

  lemma OutIsMin(s: bytes)
    ensures MinFrom(s, Out) == Min(s)
  {
  }

  lemma CopiedClosed(s: bytes, m: Mode, m': Mode)
    requires Copied(s, m, m')
    ensures Closed(Rest(s)) && !m'.Esc? && |Rest(s)| <= |s|
  {
  }

  // ------------------------------------------------------------------
  // The theorem
  // ------------------------------------------------------------------

  lemma CStringClosed(text: bytes)
    requires CString(text)
    ensures Closed(text + [0])
  {
    assert (text + [0])[..|text|] == text;
  }

  /** If no literal loses a byte, the tree stays. */
  lemma UntouchedKeepsMeaning(text: bytes)
    requires CString(text) && ParseText(text, true).Some? && Untouched(text + [0], Out, Out)
    ensures ParseBuffer(Min(text + [0]), true) == ParseText(text, true)
  {
    hide ParseBuffer;
    hide Untouched;
    hide Min;
    hide Erased;
    var s := text + [0];
    CStringClosed(text);
    TextReads(s);
    QuotesOfLiterals(s);
    UntouchedErases(s, Out);
    OutIsMin(s);
    TextErased(s, Min(s));
  }

  /**
   A text that parses up to its NUL, and of which no literal decodes to a NUL,
   minifies to a text with the same tree if and only if minifying drops no byte
   that the parser has inside a literal.
   */
  lemma KeepsMeaningIffUntouched(text: bytes)
    requires CString(text) && ParseText(text, true).Some? && NulFree(text + [0])
    ensures ParseBuffer(Min(text + [0]), true) == ParseText(text, true) <==> Untouched(text + [0], Out, Out)
  {
    hide ParseBuffer;
    hide Untouched;
    hide Min;
    hide Literals;
    hide NulFree;
    var s := text + [0];
    CStringClosed(text);
    if Untouched(s, Out, Out) {
      UntouchedKeepsMeaning(text);
    }
    if ParseBuffer(Min(s), true) == ParseText(text, true) {
      TextReads(s);
      OutIsMin(s);
      MinFromClosed(s, Out);
      TextReads(Min(s));
      TextUntouched(s, Out, Literals(s).value);
    }
  }

  /** The same for the C string that is left. */
  lemma MinifiedText(text: bytes)
    requires CString(text) && ParseText(text, true).Some? && NulFree(text + [0])
    ensures var m := Min(text + [0]);
            m != [] && (ParseText(m[..|m| - 1], true) == ParseText(text, true) <==> Untouched(text + [0], Out, Out))
  {
    hide ParseBuffer;
    hide Untouched;
    hide NulFree;
    hide Min;
    KeepsMeaningIffUntouched(text);
    CStringClosed(text);
    var m := Min(text + [0]);
    MinShape(text + [0]);
    assert m[..|m| - 1] + [0] == m;
  }

  // ------------------------------------------------------------------
  // Texts whose strings close clean
  // ------------------------------------------------------------------

  /** Every string of a text, seen from outside of one, closes clean. */
  predicate Tidy(s: bytes)
    decreases |s|
  {
    if s == [] || s[0] == 0 then true
    else if s[0] == QUOTE then
      match ScanEnd(s[1..])
      case None => true
      case Some(n) => ClosesClean(s[1..], n) && Tidy(s[n + 2..])
    else Tidy(s[1..])
  }

  /** Such texts lose nothing of their literals. */
  lemma {:induction false} TidyIsUntouched(s: bytes)
    requires Closed(s) && Tidy(s) && Literals(s).Some?
    ensures Untouched(s, Out, Out)
    decreases |s|
  {
    if s[0] == 0 {
    } else if s[0] == QUOTE {
      TidyQuote(s);
    } else {
      assert |s| >= 2;
      ClosedTail(s, 1);
      TidyIsUntouched(s[1..]);
    }
  }

  lemma {:induction false} TidyQuote(s: bytes)
    requires s != [] && Closed(s) && s[0] == QUOTE && Tidy(s) && Literals(s).Some?
    ensures Untouched(s, Out, Out)
    decreases |s|, 0
  {
    hide Body;
    hide MinFrom;
    hide Untouched;
    hide ScanEnd;
    hide Closed;
    hide Literals;
    FirstLiteral(s);
    Step(s, Out);
    var t := s[1..];
    var m' := InsideCopied(t);
    TidyRest(s);
    if m'.Out? {
      TidyIsUntouched(Rest(t));
    } else {
      TidyEnd(s, m');
    }
    UntouchedQuote(s, Out, m');
  }

  lemma TidyRest(s: bytes)
    requires s != [] && s[0] == QUOTE && Tidy(s) && ScanEnd(s[1..]).Some?
    ensures Tidy(Rest(s[1..])) && ClosesClean(s[1..], ScanEnd(s[1..]).value)
  {
    hide ScanEnd;
    var n := ScanEnd(s[1..]).value;
    assert s[1..][n + 1..] == s[n + 2..];
  }

  /** A string that does not end for the minifier is the last thing in the text. */
  lemma TidyEnd(s: bytes, m': Mode)
    requires s != [] && s[0] == QUOTE && Closed(s[1..]) && ScanEnd(s[1..]).Some? && ClosesClean(s[1..], ScanEnd(s[1..]).value)
    requires EndsInBackslash(s[1..])
    ensures Untouched(Rest(s[1..]), Out, m')
  {
    hide ScanEnd;
  }

  // ------------------------------------------------------------------
  // Behind a NUL a loss can go unseen
  // ------------------------------------------------------------------

  function Literal(es: seq<Element>): bytes
    requires AllWellFormed(es)
  {
    [QUOTE] + Texts(es) + [QUOTE]
  }

  /** An array of two literals. */
  function Two(es: seq<Element>, fs: seq<Element>): bytes
    requires AllWellFormed(es) && AllWellFormed(fs)
  {
    [LBRACKET] + (Literal(es) + ([COMMA] + (Literal(fs) + [RBRACKET, 0])))
  }

  lemma LiteralValue(es: seq<Element>, rest: bytes, depth: nat)
    requires AllWellFormed(es)
    ensures ParseValue(Literal(es) + rest, depth) == Some((String(UpToNul(Meanings(es))), rest))
    ensures Skip(Literal(es) + rest) == Literal(es) + rest
  {
    hide Texts;
    hide Meanings;
    hide WellFormed;
    hide ParseString;
    var s := Literal(es) + rest;
    SkipVisible(s);
    hide Skip;
    LiteralParses(es, rest);
    SelectsString(s, depth);
  }

  lemma TwoItems(es: seq<Element>, fs: seq<Element>, first: bytes, second: bytes)
    requires AllWellFormed(es) && AllWellFormed(fs)
    requires second == Literal(fs) + [RBRACKET, 0] && first == Literal(es) + ([COMMA] + second)
    ensures ParseItems(first, 1) == Some(([String(UpToNul(Meanings(es))), String(UpToNul(Meanings(fs)))], [0]))
    ensures Skip(first) == first && first != [] && first[0] == QUOTE
  {
    hide AllWellFormed;
    hide Literal;
    hide Meanings;
    hide UpToNul;
    hide ParseValue;
    hide ParseItems;
    hide Skip;
    var end := [RBRACKET, 0];
    LiteralValue(es, [COMMA] + second, 1);
    LiteralValue(fs, end, 1);
    CommaVisible(COMMA, second);
    CommaVisible(RBRACKET, [0]);
    assert [RBRACKET] + [0] == end;
    LiteralStart(es, [COMMA] + second);
    var a, b := String(UpToNul(Meanings(es))), String(UpToNul(Meanings(fs)));
    ItemsFrom(second, 1, b, end, None);
    ItemsFrom(first, 1, a, [COMMA] + second, ParseItems(second, 1));
    assert [a] + [b] == [a, b];
  }

  lemma CommaVisible(c: byte, y: bytes)
    requires c > 32
    ensures Skip([c] + y) == [c] + y && ([c] + y)[1..] == y && ([c] + y)[0] == c
  {
  }

  lemma TwoParse(es: seq<Element>, fs: seq<Element>)
    requires AllWellFormed(es) && AllWellFormed(fs)
    ensures ParseBuffer(Two(es, fs), true) == Some(Array([String(UpToNul(Meanings(es))), String(UpToNul(Meanings(fs)))]))
  {
    hide AllWellFormed;
    hide Literal;
    hide Meanings;
    hide UpToNul;
    hide ParseValue;
    hide ParseItems;
    hide Skip;
    var second := Literal(fs) + [RBRACKET, 0];
    var first := Literal(es) + ([COMMA] + second);
    TwoItems(es, fs, first, second);
    CommaVisible(LBRACKET, first);
    SkipNul();
    SelectsArray(Two(es, fs), 0);
  }

  lemma LiteralStart(es: seq<Element>, rest: bytes)
    requires AllWellFormed(es)
    ensures (Literal(es) + rest)[0] == QUOTE
  {
  }

  function Backslash(): seq<Element> {
    [Short(BACKSLASH)]
  }

  function Nul(): Element {
    Unicode([48, 48, 48, 48])
  }

  lemma Zeros(h: bytes)
    requires h == [48, 48, 48, 48]
    ensures IsHex(h) && Hex4(h) == 0
  {
    assert HexNibble(48) == Some(0);
    hide HexNibble;
    assert forall i :: 0 <= i < 4 ==> h[i] == 48;
  }

  lemma NulElement()
    ensures WellFormed(Nul()) && Meaning(Nul()) == [0] && Text(Nul()) == [BACKSLASH, LETTER_U] + Nul().hex
  {
    hide Hex4;
    hide IsHex;
    Zeros(Nul().hex);
  }

  lemma BackslashElement()
    ensures WellFormed(Short(BACKSLASH)) && Meaning(Short(BACKSLASH)) == [BACKSLASH] && Text(Short(BACKSLASH)) == [BACKSLASH, BACKSLASH]
    ensures WellFormed(Raw(SPACE)) && Meaning(Raw(SPACE)) == [SPACE] && Text(Raw(SPACE)) == [SPACE]
  {
    hide Hex4;
    hide IsHex;
  }

  lemma OneText(e: Element)
    requires WellFormed(e)
    ensures AllWellFormed([e]) && Texts([e]) == Text(e) && Meanings([e]) == Meaning(e)
  {
    assert [e][1..] == [];
  }

  lemma TwoTexts(e: Element, f: Element)
    requires WellFormed(e) && WellFormed(f)
    ensures AllWellFormed([e, f]) && Texts([e, f]) == Text(e) + Text(f) && Meanings([e, f]) == Meaning(e) + Meaning(f)
  {
    OneText(f);
    assert [e, f][1..] == [f];
  }

  /** The elements of the two literals. */
  lemma Elements()
    ensures AllWellFormed(Backslash()) && Texts(Backslash()) == [BACKSLASH, BACKSLASH] && Meanings(Backslash()) == [BACKSLASH]
    ensures AllWellFormed([Nul()]) && Texts([Nul()]) == NulText() && Meanings([Nul()]) == [0]
    ensures AllWellFormed([Nul(), Raw(SPACE)])
    ensures Texts([Nul(), Raw(SPACE)]) == NulText() + [SPACE] && Meanings([Nul(), Raw(SPACE)]) == [0] + [SPACE]
  {
    hide WellFormed;
    hide Text;
    hide Meaning;
    hide Nul;
    hide Texts;
    hide Meanings;
    hide AllWellFormed;
    NulElement();
    BackslashElement();
    OneText(Short(BACKSLASH));
    OneText(Nul());
    TwoTexts(Nul(), Raw(SPACE));
  }

  function NulText(): bytes {
    [BACKSLASH, LETTER_U] + Nul().hex
  }

  /**
   In this text a blank behind a NUL is dropped from the second literal, and
   the tree stays all the same: as a C string the literal has ended.
   */
  lemma NulHidesLoss()
    ensures AllWellFormed(Backslash()) && AllWellFormed([Nul(), Raw(SPACE)])
    ensures var s := Two(Backslash(), [Nul(), Raw(SPACE)]);
            && ParseBuffer(s, true) == Some(Array([String([BACKSLASH]), String([])])) == ParseBuffer(Min(s), true)
            && !Untouched(s, Out, Out)
  {
    hide ParseBuffer;
    hide Min;
    hide Untouched;
    hide AllWellFormed;
    hide WellFormed;
    hide Texts;
    hide Meanings;
    hide Nul;
    hide Backslash;
    hide UpToNul;
    hide NulText;
    hide Two;
    Elements();
    TwoParse(Backslash(), [Nul(), Raw(SPACE)]);
    TwoParse(Backslash(), [Nul()]);
    NulTexts();
    NulLoss();
  }

  lemma NulTexts()
    ensures UpToNul([BACKSLASH]) == [BACKSLASH] && UpToNul([0] + [SPACE]) == [] && UpToNul([0]) == []
  {
    assert [BACKSLASH][1..] == [] && UpToNul([]) == [];
    assert [BACKSLASH] + [] == [BACKSLASH];
  }

  /** The text up to the second literal, and from there. */
  lemma TwoBytes(fs: seq<Element>, b: bytes)
    requires AllWellFormed(Backslash()) && AllWellFormed(fs)
    requires Texts(Backslash()) == [BACKSLASH, BACKSLASH] && Texts(fs) == b
    ensures Two(Backslash(), fs) == [LBRACKET] + (Front() + (b + End()))
  {
    hide Texts;
    hide AllWellFormed;
  }

  function Front(): bytes {
    [QUOTE, BACKSLASH, BACKSLASH, QUOTE, COMMA, QUOTE]
  }

  function End(): bytes {
    [QUOTE, RBRACKET, 0]
  }

  lemma NulLoss()
    requires AllWellFormed(Backslash()) && AllWellFormed([Nul(), Raw(SPACE)]) && AllWellFormed([Nul()])
    ensures var s := Two(Backslash(), [Nul(), Raw(SPACE)]); Min(s) == Two(Backslash(), [Nul()]) && !Untouched(s, Out, Out)
  {
    hide Min;
    hide Untouched;
    hide AllWellFormed;
    hide Texts;
    hide Meanings;
    hide Nul;
    hide Two;
    hide Front;
    hide End;
    hide NulText;
    Elements();
    TwoBytes([Nul(), Raw(SPACE)], NulText() + [SPACE]);
    TwoBytes([Nul()], NulText());
    var tail := NulText() + [SPACE] + End();
    Regroup(NulText(), [SPACE], End());
    NulMin();
    FrontMin(tail);
    MinCons(LBRACKET, Front() + tail);
    NulTouched(tail);
  }

  lemma FrontMin(tail: bytes)
    ensures Min(Front() + tail) == Front() + Min(tail)
  {
    hide Min;
    LostString(tail);
  }

  lemma NulMin()
    ensures Min(NulText() + ([SPACE] + End())) == NulText() + End()
  {
    hide Min;
    MinPlain(NulText(), [SPACE] + End());
    SpaceEnd(End());
  }

  lemma SpaceEnd(end: bytes)
    requires end == [QUOTE, RBRACKET, 0]
    ensures Min([SPACE] + end) == end
  {
    assert ([SPACE] + end)[1..] == end;
    assert end[1..] == [RBRACKET, 0] && [RBRACKET, 0][1..] == [0];
    assert StringEnd([RBRACKET, 0]) == 1;
    MinString(end);
    assert end[..2] + [0] == end;
  }

  function MinStand(pre: bytes, m: Mode): Mode {
    if pre == [] then m else MinStand(pre[1..], MinNext(m, pre[0]))
  }

  lemma {:induction false} TouchedBehind(pre: bytes, y: bytes, p: Mode, m: Mode)
    requires (forall i :: 0 <= i < |pre| ==> pre[i] != 0) && !Untouched(y, Stand(pre, p), MinStand(pre, m))
    ensures !Untouched(pre + y, p, m)
    decreases |pre|
  {
    if pre == [] {
      assert pre + y == y;
    } else {
      assert (pre + y)[1..] == pre[1..] + y;
      TouchedBehind(pre[1..], y, ParserNext(p, pre[0]), MinNext(m, pre[0]));
    }
  }

  lemma StandsAfter(c: byte, y: bytes, p: Mode, m: Mode)
    ensures Stand([c] + y, p) == Stand(y, ParserNext(p, c)) && MinStand([c] + y, m) == MinStand(y, MinNext(m, c))
  {
    assert ([c] + y)[1..] == y;
  }

  lemma FrontStands()
    ensures Stand(Front(), Out) == In && MinStand(Front(), Out) == Out
  {
    hide Stand;
    hide MinStand;
    StandsAfter(QUOTE, [BACKSLASH, BACKSLASH, QUOTE, COMMA, QUOTE], Out, Out);
    StandsAfter(BACKSLASH, [BACKSLASH, QUOTE, COMMA, QUOTE], In, In);
    StandsAfter(BACKSLASH, [QUOTE, COMMA, QUOTE], Esc, Esc);
    StandsAfter(QUOTE, [COMMA, QUOTE], In, Esc);
    StandsAfter(COMMA, [QUOTE], Out, In);
    StandsAfter(QUOTE, [], Out, In);
    Cons(QUOTE, [BACKSLASH, BACKSLASH, QUOTE, COMMA, QUOTE]);
    assert [BACKSLASH] + [BACKSLASH, QUOTE, COMMA, QUOTE] == [BACKSLASH, BACKSLASH, QUOTE, COMMA, QUOTE];
    assert [BACKSLASH] + [QUOTE, COMMA, QUOTE] == [BACKSLASH, QUOTE, COMMA, QUOTE];
    assert [QUOTE] + [COMMA, QUOTE] == [QUOTE, COMMA, QUOTE];
    assert [COMMA] + [QUOTE] == [COMMA, QUOTE] && [QUOTE] + [] == [QUOTE];
    StandsHere(In, Out);
  }

  lemma Cons(c: byte, y: bytes)
    requires c == QUOTE && y == [BACKSLASH, BACKSLASH, QUOTE, COMMA, QUOTE]
    ensures [c] + y == Front()
  {
  }

  lemma StandsHere(p: Mode, m: Mode)
    ensures Stand([], p) == p && MinStand([], m) == m
  {
  }

  lemma NulStands()
    ensures Stand(NulText(), In) == In && MinStand(NulText(), Out) == Out
  {
    hide Stand;
    hide MinStand;
    var h: bytes := [48, 48, 48, 48];
    StandsAfter(BACKSLASH, [LETTER_U] + h, In, Out);
    StandsAfter(LETTER_U, h, Esc, Out);
    StandsAfter(48, [48, 48, 48], In, Out);
    StandsAfter(48, [48, 48], In, Out);
    StandsAfter(48, [48], In, Out);
    StandsAfter(48, [], In, Out);
    assert NulText() == [BACKSLASH] + ([LETTER_U] + h);
    assert [48] + [48, 48, 48] == h && [48] + [48, 48] == [48, 48, 48] && [48] + [48] == [48, 48] && [48] + [] == [48];
    StandsHere(In, Out);
  }

  lemma NulTouched(tail: bytes)
    requires tail == NulText() + ([SPACE] + End())
    ensures !Untouched([LBRACKET] + (Front() + tail), Out, Out)
  {
    hide Untouched;
    hide Stand;
    hide MinStand;
    TouchedHere([SPACE] + End());
    NulStands();
    TouchedBehind(NulText(), [SPACE] + End(), In, Out);
    FrontStands();
    TouchedBehind(Front(), tail, Out, Out);
    BracketStands();
    TouchedBehind([LBRACKET], Front() + tail, Out, Out);
  }

  lemma BracketStands()
    ensures Stand([LBRACKET], Out) == Out && MinStand([LBRACKET], Out) == Out
  {
    assert [LBRACKET][1..] == [];
  }

  lemma TouchedHere(s: bytes)
    requires s != [] && s[0] == SPACE
    ensures !Untouched(s, In, Out)
  {
  }
}
