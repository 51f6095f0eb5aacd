/**
 What minifying takes out of a text, and what it leaves: the text cut up into
 blanks, comments, literals and other bytes, which are described by their bytes.
 */
module JsonMinifyPieces {
  import opened Bytes
  import opened Json
  import opened JsonMinify
  import opened JsonMinified

  // ------------------------------------------------------------------
  // Nothing is left to take out
  // ------------------------------------------------------------------

  /** Tab, line feed, carriage return and space. */
  predicate IsBlank(c: byte) {
    c == 9 || c == 10 || c == 13 || c == 32
  }

  /** No blank and no slash stands outside of strings, up to the NUL. */
  ghost predicate Trimmed(s: bytes, m: Mode) {
    s == [] || s[0] == 0
    || ((m.Out? ==> !IsBlank(s[0]) && s[0] != 47) && Trimmed(s[1..], MinNext(m, s[0])))
  }

  lemma TrimmedByte(c: byte, y: bytes, m: Mode)
    requires (m.Out? ==> !IsBlank(c) && c != 47) && Trimmed(y, MinNext(m, c))
    ensures Trimmed([c] + y, m)
  {
    assert ([c] + y)[1..] == y;
  }

  /** One byte that is copied. */
  lemma KeptHere(s: bytes, m: Mode)
    requires Ended(s) && s[0] != 0 && !(m.Out? && (IsBlank(s[0]) || s[0] == 47))
    ensures |s| >= 2 && Ended(s[1..]) && MinFrom(s, m) == [s[0]] + MinFrom(s[1..], MinNext(m, s[0]))
  {
    match m
    case Out =>
      MinStep(s);
      hide Min;
      hide StringEnd;
      if s[0] == QUOTE {
        CopyOne(s, StringEnd(s[1..]));
      }
    case In => CopyStep(s);
    case Esc =>
      if s[0] != QUOTE {
        CopyStep(s);
      }
  }

  /** What is left when minifying goes on from mode m. */
  lemma {:induction false} RestIsTrimmed(s: bytes, m: Mode)
    requires Ended(s)
    ensures Trimmed(MinFrom(s, m), m)
    decreases |s|
  {
    hide MinNext;
    if s[0] == 0 {
      MinFromNul(s, m);
    } else if m.Out? && (IsBlank(s[0]) || s[0] == 47) {
      MinStep(s);
      hide Min;
      hide AfterLine;
      hide AfterBlock;
      hide Trimmed;
      RestIsTrimmed(
        if IsBlank(s[0]) then s[1..]
        else if s[1] == 47 then AfterLine(s[2..]) else if s[1] == 42 then AfterBlock(s[2..]) else s[1..], Out);
    } else {
      KeptHere(s, m);
      hide MinFrom;
      RestIsTrimmed(s[1..], MinNext(m, s[0]));
      TrimmedByte(s[0], MinFrom(s[1..], MinNext(m, s[0])), m);
    }
  }

  /** A minified text has no blank and no slash outside of its strings. */
  lemma MinIsTrimmed(s: bytes)
    requires Ended(s)
    ensures Trimmed(Min(s), Out)
  {
    RestIsTrimmed(s, Out);
  }

  // ------------------------------------------------------------------
  // Pieces
  // ------------------------------------------------------------------

  datatype Piece =
    | Blank(c: byte)
    | Slash                      // one that opens no comment
    | LineComment(text: bytes)
    | BlockComment(text: bytes)
    | Literal(text: bytes)
    | Other(c: byte)

  function Text(p: Piece): bytes {
    match p
    case Blank(c) => [c]
    case Slash => [47]
    case LineComment(text) => text
    case BlockComment(text) => text
    case Literal(text) => text
    case Other(c) => [c]
  }

  /** Literals and other bytes stay. */
  function Left(p: Piece): bytes {
    match p
    case Literal(text) => text
    case Other(c) => [c]
    case _ => []
  }

  function AllLeft(pieces: seq<Piece>): bytes {
    if pieces == [] then [] else Left(pieces[0]) + AllLeft(pieces[1..])
  }

  ghost predicate AtNul(rest: bytes) {
    rest != [] && rest[0] == 0
  }

  /** Up to and including the first line feed, or all there is. */
  ghost predicate IsLine(t: bytes, rest: bytes) {
    CString(t) && (AtNul(rest) || (t != [] && t[|t| - 1] == 10))
    && (forall k :: 0 <= k < |t| && t[k] == 10 ==> k == |t| - 1)
  }

  /** Up to and including the first asterisk with a slash behind it, or all there is. */
  ghost predicate IsBlock(t: bytes, rest: bytes) {
    && CString(t) && (AtNul(rest) || (|t| >= 2 && t[|t| - 2] == 42 && t[|t| - 1] == 47))
    && (forall k :: 0 <= k < |t| - 1 && t[k] == 42 && t[k + 1] == 47 ==> k == |t| - 2)
  }

  /** A quote that does not come right after a backslash. */
  ghost predicate ClosingAt(t: bytes, k: int) {
    0 <= k < |t| && t[k] == 34 && (k == 0 || t[k - 1] != 92)
  }

  /** Up to and including the first quote that does not come right after a backslash, or all there is. */
  ghost predicate IsBody(t: bytes, rest: bytes) {
    && CString(t) && (AtNul(rest) || ClosingAt(t, |t| - 1))
    && (forall k :: ClosingAt(t, k) ==> k == |t| - 1)
  }

  /** A piece as it should be in front of `rest`. */
  ghost predicate IsPiece(p: Piece, rest: bytes) {
    match p
    case Blank(c) => IsBlank(c)
    case Slash => rest != [] && rest[0] != 47 && rest[0] != 42
    case LineComment(text) => |text| >= 2 && text[0] == 47 && text[1] == 47 && IsLine(text[2..], rest)
    case BlockComment(text) => |text| >= 2 && text[0] == 47 && text[1] == 42 && IsBlock(text[2..], rest)
    case Literal(text) => text != [] && text[0] == 34 && IsBody(text[1..], rest)
    case Other(c) => c != 0 && !IsBlank(c) && c != 34 && c != 47
  }

  /** The text up to its first NUL is made of these pieces. */
  ghost predicate MadeOf(s: bytes, pieces: seq<Piece>) {
    if pieces == [] then AtNul(s) else
      Text(pieces[0]) <= s
      && var rest := s[|Text(pieces[0])|..];
         IsPiece(pieces[0], rest) && MadeOf(rest, pieces[1..])
  }

  // ------------------------------------------------------------------
  // Where comments and literals end
  // ------------------------------------------------------------------

  lemma Behind(t: bytes, rest: bytes)
    requires t != []
    ensures (t + rest)[0] == t[0] && (t + rest)[1..] == t[1..] + rest
    ensures |t| >= 2 ==> (t + rest)[1] == t[1] && (t + rest)[2..] == t[2..] + rest
  {
  }

  lemma CStringTail(t: bytes)
    requires CString(t) && t != []
    ensures t[0] != 0 && CString(t[1..])
    ensures |t| >= 2 ==> t[1] != 0 && CString(t[2..])
  {
  }

  lemma {:induction false} LineEnds(t: bytes, rest: bytes)
    requires IsLine(t, rest)
    ensures AfterLine(t + rest) == rest
    decreases |t|
  {
    if t == [] {
      assert t + rest == rest;
    } else {
      CStringTail(t);
      Behind(t, rest);
      if t[0] == 10 {
        assert t == [t[0]];
      } else {
        assert forall k :: 0 <= k < |t| - 1 ==> t[1..][k] == t[k + 1];
        LineEnds(t[1..], rest);
      }
    }
  }

  lemma {:induction false} BlockEnds(t: bytes, rest: bytes)
    requires IsBlock(t, rest)
    ensures AfterBlock(t + rest) == rest
    decreases |t|
  {
    if t == [] {
      assert t + rest == rest;
    } else {
      CStringTail(t);
      Behind(t, rest);
      if |t| >= 2 && t[0] == 42 && t[1] == 47 {
        assert t == [t[0], t[1]];
      } else {
        assert forall k :: 0 <= k < |t| - 1 ==> t[1..][k] == t[k + 1];
        BlockEnds(t[1..], rest);
        if |t| == 1 {
          assert (t + rest)[1] == 0;
        }
      }
    }
  }

  lemma {:induction false} BodyEnds(t: bytes, rest: bytes)
    requires IsBody(t, rest)
    ensures StringEnd(t + rest) == |t|
    decreases |t|
  {
    if t == [] {
      assert t + rest == rest;
    } else {
      CStringTail(t);
      Behind(t, rest);
      StringCases(t + rest);
      hide StringEnd;
      if t[0] == 34 {
        assert ClosingAt(t, 0);
      } else if t[0] == 92 && |t| >= 2 && t[1] == 34 {
        assert !ClosingAt(t, 1);
        BodyTail(t, 2, rest);
        BodyEnds(t[2..], rest);
      } else {
        BodyTail(t, 1, rest);
        BodyEnds(t[1..], rest);
        if |t| == 1 {
          assert (t + rest)[1] == 0;
        }
      }
    }
  }

  /** The end of a literal's body is one, when no quote in it has been cut off its backslash. */
  lemma BodyTail(t: bytes, n: nat, rest: bytes)
    requires IsBody(t, rest) && 1 <= n <= |t| && !ClosingAt(t, n - 1) && (n == |t| || t[n - 1] != 92 || t[n] != 34)
    ensures IsBody(t[n..], rest)
  {
    forall k | 0 <= k < |t| - n
      ensures ClosingAt(t[n..], k) <==> ClosingAt(t, n + k)
    {
    }
    assert ClosingAt(t, |t| - 1) && n < |t| ==> ClosingAt(t[n..], |t| - n - 1);
  }

  // ------------------------------------------------------------------
  // What is left is what the pieces leave
  // ------------------------------------------------------------------

  lemma ByteStep(c: byte, rest: bytes)
    requires c != 0 && c != 34 && Ended([c] + rest) && rest != [] && (c == 47 ==> rest[0] != 47 && rest[0] != 42)
    ensures Min([c] + rest) == (if IsBlank(c) || c == 47 then [] else [c]) + Min(rest)
  {
    var s := [c] + rest;
    MinStep(s);
    hide Min;
    assert s[1..] == rest && s[1] == rest[0];
    assert [] + Min(rest) == Min(rest);
  }

  lemma CommentStep(text: bytes, rest: bytes)
    requires |text| >= 2 && text[0] == 47 && Ended(text + rest) && rest != []
    requires (text[1] == 47 && IsLine(text[2..], rest)) || (text[1] == 42 && IsBlock(text[2..], rest))
    ensures Min(text + rest) == [] + Min(rest)
  {
    hide IsLine;
    hide IsBlock;
    var s := text + rest;
    MinStep(s);
    hide Min;
    assert s[2..] == text[2..] + rest && [] + Min(rest) == Min(rest);
    if text[1] == 47 {
      LineEnds(text[2..], rest);
    } else {
      BlockEnds(text[2..], rest);
    }
  }

  lemma LiteralStep(text: bytes, rest: bytes)
    requires text != [] && text[0] == 34 && IsBody(text[1..], rest) && Ended(text + rest) && rest != []
    ensures Min(text + rest) == text + Min(rest)
  {
    hide IsBody;
    var s := text + rest;
    MinStep(s);
    hide Min;
    assert s[1..] == text[1..] + rest;
    BodyEnds(text[1..], rest);
    hide StringEnd;
    assert s[..|text|] == text && s[|text|..] == rest;
  }

  lemma PieceStep(p: Piece, rest: bytes)
    requires Ended(Text(p) + rest) && rest != [] && IsPiece(p, rest)
    ensures Min(Text(p) + rest) == Left(p) + Min(rest)
  {
    hide IsLine;
    hide IsBlock;
    hide IsBody;
    hide Min;
    hide Ended;
    match p
    case Blank(c) => ByteStep(c, rest);
    case Other(c) => ByteStep(c, rest);
    case Slash => ByteStep(47, rest);
    case LineComment(text) => CommentStep(text, rest);
    case BlockComment(text) => CommentStep(text, rest);
    case Literal(text) => LiteralStep(text, rest);
  }

  lemma PieceStarts(p: Piece, rest: bytes)
    requires IsPiece(p, rest)
    ensures Text(p) != [] && Text(p)[0] != 0
  {
  }

  /** Whatever pieces a text is made of, minifying leaves its literals and its other bytes, in order. */
  lemma {:induction false} MinLeavesPieces(s: bytes, pieces: seq<Piece>)
    requires Ended(s) && MadeOf(s, pieces)
    ensures Min(s) == AllLeft(pieces) + [0]
    decreases |pieces|
  {
    hide IsPiece;
    hide Text;
    hide Left;
    hide Min;
    if pieces == [] {
      MinAtNul(s);
    } else {
      var p := pieces[0];
      var rest := s[|Text(p)|..];
      MadeOfMore(rest, pieces[1..]);
      assert s == Text(p) + rest;
      MinLeavesPieces(rest, pieces[1..]);
      PieceStep(p, rest);
      assert Left(p) + (AllLeft(pieces[1..]) + [0]) == AllLeft(pieces) + [0];
    }
  }

  lemma MinAtNul(s: bytes)
    requires AtNul(s)
    ensures Min(s) == [] + [0]
  {
  }

  lemma MadeOfMore(s: bytes, pieces: seq<Piece>)
    requires MadeOf(s, pieces)
    ensures s != []
  {
    if pieces != [] {
      PieceStarts(pieces[0], s[|Text(pieces[0])|..]);
    }
  }

  // ------------------------------------------------------------------
  // Every text is made of pieces
  // ------------------------------------------------------------------

  lemma OneMore(t: bytes, n: nat)
    requires 1 <= n <= |t|
    ensures t[..n] == [t[0]] + t[1..][..n - 1] && t[1..][n - 1..] == t[n..]
  {
  }

  lemma TwoMore(t: bytes, n: nat)
    requires 2 <= n <= |t|
    ensures t[..n] == [t[0], t[1]] + t[2..][..n - 2] && t[2..][n - 2..] == t[n..]
  {
  }

  lemma LineGrows(c: byte, u: bytes, rest: bytes)
    requires IsLine(u, rest) && c != 0 && c != 10
    ensures IsLine([c] + u, rest)
  {
    forall k | 0 <= k < |u| + 1 && ([c] + u)[k] == 10
      ensures k == |u|
    {
      assert u[k - 1] == 10;
    }
  }

  lemma {:induction false} LineIsThere(t: bytes) returns (n: nat)
    requires Ended(t)
    ensures n < |t| && Ended(t[n..]) && AfterLine(t) == t[n..] && IsLine(t[..n], t[n..])
    decreases |t|
  {
    LineStep(t);
    hide AfterLine;
    if t[0] == 0 {
      n := 0;
    } else if t[0] == 10 {
      n := 1;
    } else {
      n := LineIsThere(t[1..]);
      n := n + 1;
      OneMore(t, n);
      LineGrows(t[0], t[1..][..n - 1], t[n..]);
    }
  }

  lemma BlockGrows(c: byte, u: bytes, rest: bytes)
    requires IsBlock(u, rest) && c != 0 && !(c == 42 && u != [] && u[0] == 47)
    ensures IsBlock([c] + u, rest)
  {
    var t := [c] + u;
    forall k | 0 <= k < |u| && t[k] == 42 && t[k + 1] == 47
      ensures k == |u| - 1
    {
      assert k > 0 ==> u[k - 1] == 42 && u[k] == 47;
    }
  }

  lemma {:induction false} BlockIsThere(t: bytes) returns (n: nat)
    requires Ended(t)
    ensures n < |t| && Ended(t[n..]) && AfterBlock(t) == t[n..] && IsBlock(t[..n], t[n..])
    decreases |t|
  {
    BlockStep(t);
    hide AfterBlock;
    if t[0] == 0 {
      n := 0;
    } else if t[0] == 42 && t[1] == 47 {
      n := 2;
    } else {
      n := BlockIsThere(t[1..]);
      n := n + 1;
      OneMore(t, n);
      BlockGrows(t[0], t[1..][..n - 1], t[n..]);
    }
  }

  lemma BodyGrows(front: bytes, u: bytes, rest: bytes)
    requires IsBody(u, rest) && CString(front)
    requires (|front| == 1 && front[0] != 34 && !(front[0] == 92 && u != [] && u[0] == 34)) || front == [92, 34]
    ensures IsBody(front + u, rest)
  {
    var t, n := front + u, |front|;
    forall k | ClosingAt(t, k)
      ensures n <= k && ClosingAt(u, k - n)
    {
    }
    if ClosingAt(u, |u| - 1) {
      assert ClosingAt(t, |t| - 1);
    }
  }

  lemma {:induction false} BodyIsThere(t: bytes) returns (n: nat)
    requires Ended(t)
    ensures n < |t| && Ended(t[n..]) && StringEnd(t) == n && IsBody(t[..n], t[n..])
    decreases |t|
  {
    StringStep(t);
    hide StringEnd;
    if t[0] == 0 {
      n := 0;
    } else if t[0] == 34 {
      n := 1;
      assert ClosingAt(t[..1], 0);
    } else if t[0] == 92 && t[1] == 34 {
      n := BodyIsThere(t[2..]);
      n := n + 2;
      TwoMore(t, n);
      BodyGrows([t[0], t[1]], t[2..][..n - 2], t[n..]);
    } else {
      n := BodyIsThere(t[1..]);
      n := n + 1;
      OneMore(t, n);
      BodyGrows([t[0]], t[1..][..n - 1], t[n..]);
    }
  }

  ghost predicate StartsWith(s: bytes, p: Piece) {
    Text(p) != [] && Text(p) <= s && Ended(s[|Text(p)|..]) && IsPiece(p, s[|Text(p)|..])
  }

  lemma CommentIsThere(s: bytes) returns (p: Piece)
    requires Ended(s) && |s| >= 2 && s[0] == 47 && (s[1] == 47 || s[1] == 42)
    ensures StartsWith(s, p)
  {
    hide IsLine;
    hide IsBlock;
    var n;
    if s[1] == 47 {
      n := LineIsThere(s[2..]);
      p := LineComment(s[..n + 2]);
    } else {
      n := BlockIsThere(s[2..]);
      p := BlockComment(s[..n + 2]);
    }
    assert s[..n + 2][2..] == s[2..][..n] && s[2..][n..] == s[n + 2..];
  }

  lemma LiteralIsThere(s: bytes) returns (p: Piece)
    requires Ended(s) && |s| >= 2 && s[0] == 34
    ensures StartsWith(s, p)
  {
    hide IsBody;
    var n := BodyIsThere(s[1..]);
    p := Literal(s[..n + 1]);
    assert s[..n + 1][1..] == s[1..][..n] && s[1..][n..] == s[n + 1..];
  }

  /** The first piece of a text that goes on. */
  lemma FirstPiece(s: bytes) returns (p: Piece)
    requires Ended(s) && s[0] != 0
    ensures StartsWith(s, p)
  {
    assert |s| >= 2;
    if IsBlank(s[0]) {
      p := Blank(s[0]);
    } else if s[0] == 47 && (s[1] == 47 || s[1] == 42) {
      hide StartsWith;
      p := CommentIsThere(s);
    } else if s[0] == 47 {
      p := Slash;
    } else if s[0] == 34 {
      hide StartsWith;
      p := LiteralIsThere(s);
    } else {
      p := Other(s[0]);
    }
  }

  /** Every text that ends in a NUL is made of such pieces. */
  lemma {:induction false} CutUp(s: bytes) returns (pieces: seq<Piece>)
    requires Ended(s)
    ensures MadeOf(s, pieces)
    decreases |s|
  {
    hide IsPiece;
    hide Text;
    pieces := [];
    if s[0] != 0 {
      var p := FirstPiece(s);
      var more := CutUp(s[|Text(p)|..]);
      pieces := [p] + more;
      assert pieces[1..] == more;
    }
  }
}
