/**
 Dropping white space between tokens does not change what a text parses to.

 `Erased` relates a text to what is left of it when some of the white space
 outside of its string literals is dropped, and nothing else.
 */
module JsonErased {
  import opened Bytes
  import opened Json
  import opened JsonString
  import opened JsonGrammar
  import opened JsonMinify
  import opened JsonRoundTrip

  /** t is s, read from outside of literals, without some of the white space between them. */
  predicate Erased(s: bytes, t: bytes)
    decreases |s|
  {
    if s == [] then t == []
    else if s[0] == QUOTE then
      match ScanEnd(s[1..])
      case None => false
      case Some(n) => n + 2 <= |t| && t[..n + 2] == s[..n + 2] && Erased(s[n + 2..], t[n + 2..])
    else
      || (t != [] && t[0] == s[0] && Erased(s[1..], t[1..]))
      || (Removed(s[0]) && Erased(s[1..], t))
  }

  lemma ClosedTail(s: bytes, k: nat)
    requires Closed(s) && k < |s|
    ensures Closed(s[k..]) && (0 < k ==> s[0] != 0)
  {
    var body := s[..|s| - 1];
    assert s[k..][..|s| - k - 1] == body[k..];
    assert 0 < k ==> s[0] == body[0];
  }

  lemma ClosedAtNul(s: bytes)
    requires Closed(s) && s[0] == 0
    ensures s == [0]
  {
    if |s| > 1 {
      ClosedTail(s, 1);
    }
  }

  lemma ErasedByte(s: bytes, t: bytes)
    requires Closed(s) && s[0] != QUOTE && s[0] != 0 && Erased(s, t)
    ensures |s| >= 2 && Closed(s[1..])
    ensures (t != [] && t[0] == s[0] && Erased(s[1..], t[1..])) || (Removed(s[0]) && Erased(s[1..], t))
  {
    assert |s| >= 2;
    ClosedTail(s, 1);
  }

  /** Something is left: at least the NUL. */
  lemma {:induction false} ErasedSome(s: bytes, t: bytes)
    requires Closed(s) && Erased(s, t)
    ensures t != [] && (s[0] == 0 ==> t == [0])
    decreases |s|
  {
    if s[0] == 0 {
      ClosedAtNul(s);
      assert t != [] && t[0] == s[0] && Erased(s[1..], t[1..]);
      assert s[1..] == [] && t[1..] == [];
      assert t == [t[0]] + t[1..];
    } else if s[0] == QUOTE {
      assert ScanEnd(s[1..]).Some? && ScanEnd(s[1..]).value + 2 <= |t|;
    } else {
      ErasedByte(s, t);
      ErasedSome(s[1..], if t != [] && t[0] == s[0] && Erased(s[1..], t[1..]) then t[1..] else t);
    }
  }

  // ------------------------------------------------------------------
  // White space
  // ------------------------------------------------------------------

  lemma SkipBlank(s: bytes)
    requires |s| >= 2 && s[0] <= 32
    ensures Skip(s) == Skip(s[1..])
  {
  }

  lemma SkipNul()
    ensures Skip([0]) == [0]
  {
    assert DropBlank([0]) == [] by {
      assert [0][1..] == [];
    }
  }

  lemma {:induction false} ClosedSkip(s: bytes)
    requires Closed(s)
    ensures Skip(s) != [] && Closed(Skip(s)) && (Skip(s)[0] > 32 || Skip(s) == [0])
    decreases |s|
  {
    if s[0] == 0 {
      ClosedAtNul(s);
      SkipNul();
    } else if s[0] <= 32 {
      assert |s| >= 2;
      ClosedTail(s, 1);
      SkipBlank(s);
      ClosedSkip(s[1..]);
    } else {
      SkipVisible(s);
    }
  }

  /** Skipping white space ends at the same place in both. */
  lemma {:induction false} ErasedSkip(s: bytes, t: bytes)
    requires Closed(s) && Erased(s, t)
    ensures Skip(s) != [] && Skip(t) != [] && Skip(s)[0] == Skip(t)[0] && Erased(Skip(s), Skip(t))
    decreases |s|
  {
    ErasedSome(s, t);
    if s[0] == 0 {
      ClosedAtNul(s);
      SkipNul();
    } else if s[0] <= 32 {
      ErasedByte(s, t);
      SkipBlank(s);
      hide Skip;
      if t[0] == s[0] && Erased(s[1..], t[1..]) {
        ErasedSome(s[1..], t[1..]);
        SkipBlank(t);
        ErasedSkip(s[1..], t[1..]);
      } else {
        ErasedSkip(s[1..], t);
      }
    } else {
      SkipVisible(s);
      SkipVisible(t);
    }
  }

  // ------------------------------------------------------------------
  // Tokens
  // ------------------------------------------------------------------

  /** A byte outside of literals that cannot be dropped. */
  predicate Fixed(c: byte) {
    c != 0 && c != QUOTE && !Removed(c)
  }

  lemma ErasedHead(s: bytes, t: bytes)
    requires Closed(s) && Fixed(s[0]) && Erased(s, t)
    ensures t != [] && t[0] == s[0] && |s| >= 2 && Closed(s[1..]) && Erased(s[1..], t[1..])
  {
    ErasedByte(s, t);
  }

  lemma {:induction false} ErasedPrefix(p: bytes, r: bytes, t: bytes)
    requires Closed(p + r) && r != [] && Erased(p + r, t) && forall i :: 0 <= i < |p| ==> Fixed(p[i])
    ensures Closed(r) && p <= t && Erased(r, t[|p|..])
    decreases |p|
  {
    if p == [] {
      assert p + r == r && t[0..] == t;
    } else {
      assert Fixed(p[0]);
      ErasedHead(p + r, t);
      assert (p + r)[1..] == p[1..] + r;
      ErasedPrefix(p[1..], r, t[1..]);
      assert t[1..][|p| - 1..] == t[|p|..];
      assert p == [p[0]] + p[1..] && t == [t[0]] + t[1..];
    }
  }

  /** What may come after a value: white space, then the end, a comma or a closing bracket or brace. */
  predicate Follows(r: bytes) {
    r != [] && var u := Skip(r); u != [] && (u[0] == 0 || u[0] == COMMA || u[0] == RBRACKET || u[0] == RBRACE)
  }

  lemma FollowsStops(r: bytes)
    requires Follows(r)
    ensures r != [] && StopsNumber(r)
  {
  }

  lemma FollowsErased(r: bytes, t: bytes)
    requires Closed(r) && Follows(r) && Erased(r, t)
    ensures Follows(t)
  {
    ErasedSkip(r, t);
    hide Skip;
    ErasedSome(r, t);
  }

  /** The value is read from both, and leaves texts so related. */
  ghost predicate SameValue<T>(read: Option<(T, bytes)>, v: T, r: bytes) {
    read.Some? && read.value.0 == v && Closed(r) && Erased(r, read.value.1)
  }

  lemma KeywordErased(v: Json, s: bytes, r: bytes, t: bytes, depth: nat)
    requires Closed(s) && Erased(s, t) && (v.Null? || v.Bool?) && s == Render(v, depth, true) + r && r != []
    ensures SameValue(ParseValue(t, depth), v, r)
  {
    var p := Render(v, depth, true);
    assert forall i :: 0 <= i < |p| ==> Fixed(p[i]);
    ErasedPrefix(p, r, t);
    hide Erased;
    hide Render;
    KeywordRoundTrip(v, t[|p|..], depth);
    assert p + t[|p|..] == t;
  }

  lemma {:induction false} RunIsNumber(s: bytes)
    ensures forall i :: 0 <= i < NumberRun(s) ==> NumberChar(s[i])
  {
    if s != [] && NumberChar(s[0]) {
      RunIsNumber(s[1..]);
      assert forall i :: 1 <= i < NumberRun(s) ==> s[i] == s[1..][i - 1];
    }
  }

  /** A number in front of what may follow a value takes up its whole run. */
  lemma NumberIsRun(s: bytes, v: Json, r: bytes)
    requires ParseNumber(s) == Some((v, r)) && Follows(r)
    ensures v.Number? && ReadInteger(s[..NumberRun(s)]) == Some((v.n, NumberRun(s))) && r == s[NumberRun(s)..]
  {
    hide Follows;
    RunIsNumber(s);
    var run := NumberRun(s);
    var used := ReadInteger(s[..run]).value.1;
    hide ReadInteger;
    assert used < run ==> r[0] == s[used] && NumberChar(s[used]);
    FollowsStops(r);
  }

  lemma NumberErased(s: bytes, t: bytes, v: Json, r: bytes)
    requires Closed(s) && Erased(s, t) && ParseNumber(s) == Some((v, r)) && Follows(r)
    ensures SameValue(ParseNumber(t), v, r)
  {
    hide ReadInteger;
    hide Erased;
    hide Follows;
    hide Closed;
    NumberIsRun(s, v, r);
    RunIsNumber(s);
    var run := s[..NumberRun(s)];
    assert s == run + r;
    FollowsStops(r);
    ErasedPrefix(run, r, t);
    var after := t[|run|..];
    FollowsErased(r, after);
    FollowsStops(after);
    RunThenStop(run, after);
    hide NumberRun;
    assert t == run + after;
    assert t[..|run|] == run;
  }

  /** The first scan looks no further than the closing quote. */
  lemma {:induction false} ScanStable(t: bytes, y: bytes)
    requires ScanEnd(t).Some?
    ensures ScanEnd(t[..ScanEnd(t).value + 1] + y) == ScanEnd(t)
    decreases |t|
  {
    var n := ScanEnd(t).value;
    var x := t[..n + 1] + y;
    ScanCases(t);
    if t[0] == BACKSLASH {
      ScanStable(t[2..], y);
      assert x[2..] == t[2..][..n - 1] + y;
    } else if t[0] != QUOTE {
      ScanStable(t[1..], y);
      assert x[1..] == t[1..][..n] + y;
    }
  }

  lemma ScanCases(t: bytes)
    requires ScanEnd(t).Some?
    ensures var n := ScanEnd(t).value;
            && n < |t|
            && (t[0] == QUOTE ==> n == 0)
            && (t[0] == BACKSLASH ==> n >= 2 && ScanEnd(t[2..]) == Some(n - 2))
            && (t[0] != QUOTE && t[0] != BACKSLASH ==> n >= 1 && ScanEnd(t[1..]) == Some(n - 1))
  {
  }

  /** A string is read the same whatever comes after it. */
  lemma StringPrefix(s: bytes, n: nat, y: bytes)
    requires s != [] && s[0] == QUOTE && ScanEnd(s[1..]) == Some(n) && n + 2 <= |s|
    ensures ParseString(s[..n + 2] + y) ==
      match Unescape(s[1..n + 2]) case None => None case Some(text) => Some((UpToNul(text), y))
  {
    hide UpToNul;
    hide Unescape;
    hide ScanEnd;
    var m := s[..n + 2] + y;
    ScanStable(s[1..], y);
    assert m[1..] == s[1..][..n + 1] + y;
    assert m[1..n + 2] == s[1..n + 2] && m[n + 2..] == y;
  }

  lemma StringErased(s: bytes, t: bytes, text: bytes, r: bytes)
    requires Closed(s) && Erased(s, t) && ParseString(s) == Some((text, r)) && r != []
    ensures SameValue(ParseString(t), text, r) && t != [] && t[0] == QUOTE
  {
    hide UpToNul;
    hide Unescape;
    var n := ScanEnd(s[1..]).value;
    assert r == s[n + 2..];
    hide ScanEnd;
    ClosedTail(s, n + 2);
    StringPrefix(s, n, t[n + 2..]);
    StringPrefix(s, n, r);
    hide ParseString;
    hide Closed;
    assert t == s[..n + 2] + t[n + 2..] && s == s[..n + 2] + r;
    assert t[0] == t[..n + 2][0];
  }

  // ------------------------------------------------------------------
  // Arrays and objects
  // ------------------------------------------------------------------

  // Which parser a value's first byte selects.

  lemma SelectsString(s: bytes, depth: nat)
    requires s != [] && s[0] == QUOTE
    ensures ParseValue(s, depth) ==
      match ParseString(s) case None => None case Some((text, rest)) => Some((String(text), rest))
  {
    hide ParseString;
    hide ParseNumber;
    hide ParseArray;
    hide ParseObject;
    NotKeyword(s);
  }

  lemma SelectsNumber(s: bytes, depth: nat)
    requires s != [] && (s[0] == MINUS || Digit(s[0]))
    ensures ParseValue(s, depth) == ParseNumber(s)
  {
    hide ParseString;
    hide ParseNumber;
    hide ParseArray;
    hide ParseObject;
    NotKeyword(s);
  }

  lemma SelectsArray(s: bytes, depth: nat)
    requires s != [] && s[0] == LBRACKET
    ensures ParseValue(s, depth) == ParseArray(s, depth)
  {
    hide ParseString;
    hide ParseNumber;
    hide ParseArray;
    hide ParseObject;
    NotKeyword(s);
  }

  lemma SelectsObject(s: bytes, depth: nat)
    requires s != [] && s[0] == LBRACE
    ensures ParseValue(s, depth) == ParseObject(s, depth)
  {
    hide ParseString;
    hide ParseNumber;
    hide ParseArray;
    hide ParseObject;
    NotKeyword(s);
  }

  lemma ValueStarts(s: bytes, depth: nat)
    requires ParseValue(s, depth).Some?
    ensures s != [] && s[0] > 32 && s[0] != SLASH && s[0] != COMMA && s[0] != RBRACKET && s[0] != RBRACE && s[0] != 0xEF
    ensures s[0] == 110 || s[0] == 102 || s[0] == 116 || s[0] == QUOTE || s[0] == MINUS || Digit(s[0]) || s[0] == LBRACKET || s[0] == LBRACE
  {
    hide ParseString;
    hide ParseNumber;
    hide ParseArray;
    hide ParseObject;
  }

  /** A value is read the same when white space between its tokens is dropped. */
  lemma {:induction false} ValueErased(s: bytes, t: bytes, depth: nat, v: Json, r: bytes)
    requires Closed(s) && Erased(s, t) && ParseValue(s, depth) == Some((v, r)) && Follows(r)
    ensures SameValue(ParseValue(t, depth), v, r)
    decreases |s|, 2
  {
    hide Erased;
    hide Closed;
    hide ParseValue;
    hide ParseString;
    hide ParseNumber;
    hide ParseArray;
    hide ParseObject;
    hide Follows;
    hide StopsNumber;
    ValueStarts(s, depth);
    if s[0] == 110 || s[0] == 102 || s[0] == 116 {
      KeywordValueErased(s, t, depth, v, r);
    } else if s[0] == QUOTE {
      SelectsString(s, depth);
      FollowsStops(r);
      StringErased(s, t, v.s, r);
      SelectsString(t, depth);
    } else {
      ErasedHead(s, t);
      if s[0] == LBRACKET {
        SelectsArray(s, depth);
        ArrayErased(s, t, depth, v, r);
        SelectsArray(t, depth);
      } else if s[0] == LBRACE {
        SelectsObject(s, depth);
        ObjectErased(s, t, depth, v, r);
        SelectsObject(t, depth);
      } else {
        SelectsNumber(s, depth);
        NumberErased(s, t, v, r);
        SelectsNumber(t, depth);
      }
    }
  }

  lemma KeywordValueErased(s: bytes, t: bytes, depth: nat, v: Json, r: bytes)
    requires Closed(s) && Erased(s, t) && ParseValue(s, depth) == Some((v, r)) && Follows(r)
    requires s[0] == 110 || s[0] == 102 || s[0] == 116
    ensures SameValue(ParseValue(t, depth), v, r)
  {
    hide Erased;
    hide Closed;
    hide Skip;
    assert v.Null? || v.Bool?;
    assert s == Render(v, depth, true) + r;
    KeywordErased(v, s, r, t, depth);
  }

  lemma {:induction false} ArrayErased(s: bytes, t: bytes, depth: nat, v: Json, r: bytes)
    requires Closed(s) && Erased(s, t) && s[0] == LBRACKET && t != [] && t[0] == LBRACKET
    requires ParseArray(s, depth) == Some((v, r))
    ensures SameValue(ParseArray(t, depth), v, r)
    decreases |s|, 1
  {
    hide Erased;
    hide Closed;
    hide ParseItems;
    hide Skip;
    ErasedHead(s, t);
    ErasedSkip(s[1..], t[1..]);
    ClosedSkip(s[1..]);
    var x, y := Skip(s[1..]), Skip(t[1..]);
    if x[0] == RBRACKET {
      ErasedHead(x, y);
    } else {
      ItemsErased(x, y, depth + 1);
    }
  }

  lemma {:induction false} ObjectErased(s: bytes, t: bytes, depth: nat, v: Json, r: bytes)
    requires Closed(s) && Erased(s, t) && s[0] == LBRACE && t != [] && t[0] == LBRACE
    requires ParseObject(s, depth) == Some((v, r))
    ensures SameValue(ParseObject(t, depth), v, r)
    decreases |s|, 1
  {
    hide Erased;
    hide Closed;
    hide ParseMembers;
    hide Skip;
    ErasedHead(s, t);
    ErasedSkip(s[1..], t[1..]);
    ClosedSkip(s[1..]);
    var x, y := Skip(s[1..]), Skip(t[1..]);
    if x[0] == RBRACE {
      ErasedHead(x, y);
    } else {
      MembersErased(x, y, depth + 1);
    }
  }

  /** What the parse of a list says about its first element. */
  lemma ItemsParts(s: bytes, depth: nat)
    requires ParseItems(s, depth).Some?
    ensures ParseValue(Skip(s), depth).Some?
    ensures var after := ParseValue(Skip(s), depth).value.1;
            var u := Skip(after);
            && u != [] && (u[0] == COMMA || u[0] == RBRACKET)
            && (u[0] == COMMA ==> ParseItems(u[1..], depth).Some?)
    ensures var first := ParseValue(Skip(s), depth).value.0;
            var u := Skip(ParseValue(Skip(s), depth).value.1);
            ParseItems(s, depth) == if u[0] == COMMA then
                Some(([first] + ParseItems(u[1..], depth).value.0, ParseItems(u[1..], depth).value.1))
              else Some(([first], u[1..]))
  {
    hide ParseValue;
    hide ParseMember;
    hide Skip;
  }

  /** The same, put together. */
  lemma ItemsFrom(s: bytes, depth: nat, first: Json, after: bytes, later: Option<(seq<Json>, bytes)>)
    requires ParseValue(Skip(s), depth) == Some((first, after)) && Skip(after) != []
    requires var u := Skip(after);
             if u[0] == COMMA then ParseItems(u[1..], depth) == later else u[0] == RBRACKET
    ensures var u := Skip(after);
            ParseItems(s, depth) ==
            if u[0] != COMMA then Some(([first], u[1..]))
            else if later.None? then None else Some(([first] + later.value.0, later.value.1))
  {
    hide ParseValue;
    hide ParseMember;
    hide Skip;
  }

  lemma {:induction false} ItemsErased(s: bytes, t: bytes, depth: nat)
    requires Closed(s) && Erased(s, t) && ParseItems(s, depth).Some?
    ensures SameValue(ParseItems(t, depth), ParseItems(s, depth).value.0, ParseItems(s, depth).value.1)
    decreases |s|, 3
  {
    hide Erased;
    hide Closed;
    hide ParseValue;
    hide ParseItems;
    hide ParseMembers;
    hide ParseMember;
    hide Skip;
    ItemsParts(s, depth);
    ErasedSkip(s, t);
    ClosedSkip(s);
    var x, y := Skip(s), Skip(t);
    var item, after := ParseValue(x, depth).value.0, ParseValue(x, depth).value.1;
    ListFollows(after);
    ValueErased(x, y, depth, item, after);
    var after' := ParseValue(y, depth).value.1;
    ErasedSkip(after, after');
    ClosedSkip(after);
    var u, w := Skip(after), Skip(after');
    ErasedHead(u, w);
    if u[0] == COMMA {
      ItemsErased(u[1..], w[1..], depth);
    }
    ItemsFrom(t, depth, item, after', ParseItems(w[1..], depth));
  }

  lemma ListFollows(r: bytes)
    requires var u := Skip(r); u != [] && (u[0] == COMMA || u[0] == RBRACKET || u[0] == RBRACE)
    ensures Follows(r)
  {
  }

  /** What the parse of a member says about its parts. */
  lemma MemberParts(s: bytes, depth: nat)
    requires ParseMember(s, depth).Some?
    ensures ParseString(Skip(s)).Some?
    ensures var u := Skip(ParseString(Skip(s)).value.1);
            && u != [] && u[0] == COLON && ParseValue(Skip(u[1..]), depth).Some?
            && ParseMember(s, depth) ==
               Some((Member(ParseString(Skip(s)).value.0, ParseValue(Skip(u[1..]), depth).value.0), ParseValue(Skip(u[1..]), depth).value.1))
  {
    hide ParseString;
    hide ParseValue;
    hide Skip;
  }

  lemma MemberFrom(s: bytes, depth: nat, key: bytes, after: bytes, value: Json, rest: bytes)
    requires ParseString(Skip(s)) == Some((key, after))
    requires var u := Skip(after); u != [] && u[0] == COLON && ParseValue(Skip(u[1..]), depth) == Some((value, rest))
    ensures ParseMember(s, depth) == Some((Member(key, value), rest))
  {
    hide ParseString;
    hide ParseValue;
    hide Skip;
  }

  lemma StringStarts(s: bytes)
    requires ParseString(s).Some?
    ensures s != [] && s[0] == QUOTE
  {
  }

  lemma {:induction false} MemberErased(s: bytes, t: bytes, depth: nat, m: Member, r: bytes)
    requires Closed(s) && Erased(s, t) && ParseMember(s, depth) == Some((m, r)) && Follows(r)
    ensures SameValue(ParseMember(t, depth), m, r)
    decreases |s|, 3
  {
    hide Erased;
    hide Closed;
    hide ParseString;
    hide ParseValue;
    hide ParseMember;
    hide Skip;
    hide Follows;
    MemberParts(s, depth);
    ErasedSkip(s, t);
    ClosedSkip(s);
    var x, y := Skip(s), Skip(t);
    var key, after := ParseString(x).value.0, ParseString(x).value.1;
    SkipEmpty(after);
    StringErased(x, y, key, after);
    var after' := ParseString(y).value.1;
    ErasedSkip(after, after');
    ClosedSkip(after);
    var u, w := Skip(after), Skip(after');
    ErasedHead(u, w);
    ErasedSkip(u[1..], w[1..]);
    ClosedSkip(u[1..]);
    ValueErased(Skip(u[1..]), Skip(w[1..]), depth, m.value, r);
    MemberFrom(t, depth, key, after', m.value, ParseValue(Skip(w[1..]), depth).value.1);
  }

  lemma SkipEmpty(s: bytes)
    requires Skip(s) != []
    ensures s != []
  {
  }

  /** What the parse of a list says about its first element. */
  lemma MembersParts(s: bytes, depth: nat)
    requires ParseMembers(s, depth).Some?
    ensures ParseMember(s, depth).Some?
    ensures var after := ParseMember(s, depth).value.1;
            var u := Skip(after);
            && u != [] && (u[0] == COMMA || u[0] == RBRACE)
            && (u[0] == COMMA ==> ParseMembers(u[1..], depth).Some?)
    ensures var first := ParseMember(s, depth).value.0;
            var u := Skip(ParseMember(s, depth).value.1);
            ParseMembers(s, depth) == if u[0] == COMMA then
                Some(([first] + ParseMembers(u[1..], depth).value.0, ParseMembers(u[1..], depth).value.1))
              else Some(([first], u[1..]))
  {
    hide ParseValue;
    hide ParseMember;
    hide Skip;
  }

  /** The same, put together. */
  lemma MembersFrom(s: bytes, depth: nat, first: Member, after: bytes, later: Option<(seq<Member>, bytes)>)
    requires ParseMember(s, depth) == Some((first, after)) && Skip(after) != []
    requires var u := Skip(after);
             if u[0] == COMMA then ParseMembers(u[1..], depth) == later else u[0] == RBRACE
    ensures var u := Skip(after);
            ParseMembers(s, depth) ==
            if u[0] != COMMA then Some(([first], u[1..]))
            else if later.None? then None else Some(([first] + later.value.0, later.value.1))
  {
    hide ParseValue;
    hide ParseMember;
    hide Skip;
  }

  lemma {:induction false} MembersErased(s: bytes, t: bytes, depth: nat)
    requires Closed(s) && Erased(s, t) && ParseMembers(s, depth).Some?
    ensures SameValue(ParseMembers(t, depth), ParseMembers(s, depth).value.0, ParseMembers(s, depth).value.1)
    decreases |s|, 4
  {
    hide Erased;
    hide Closed;
    hide ParseValue;
    hide ParseItems;
    hide ParseMembers;
    hide ParseMember;
    hide Skip;
    MembersParts(s, depth);
    var member, after := ParseMember(s, depth).value.0, ParseMember(s, depth).value.1;
    ListFollows(after);
    MemberErased(s, t, depth, member, after);
    var after' := ParseMember(t, depth).value.1;
    ErasedSkip(after, after');
    ClosedSkip(after);
    var u, w := Skip(after), Skip(after');
    ErasedHead(u, w);
    if u[0] == COMMA {
      MembersErased(u[1..], w[1..], depth);
    }
    MembersFrom(t, depth, member, after', ParseMembers(w[1..], depth));
  }

  // ------------------------------------------------------------------
  // Documents
  // ------------------------------------------------------------------

  /** The byte order mark is skipped in both, or in neither. */
  lemma BomErased(s: bytes, t: bytes)
    requires Closed(s) && Erased(s, t) && ParseValue(Skip(SkipBom(s)), 0).Some?
    ensures Closed(SkipBom(s)) && Erased(SkipBom(s), SkipBom(t))
  {
    var b := SkipBom(s);
    hide ParseValue;
    hide Skip;
    hide Closed;
    if b != s {
      var bom: bytes := [0xEF, 0xBB, 0xBF];
      assert s == bom + b;
      ErasedPrefix(bom, b, t);
      hide Erased;
      LongEnough(b, t[3..]);
      assert t[..3] == bom;
    } else {
      ErasedSkip(s, t);
      FirstByte(s, t);
    }
  }

  /** A document is at least one byte and the NUL. */
  lemma LongEnough(b: bytes, t: bytes)
    requires Closed(b) && Erased(b, t) && ParseValue(Skip(b), 0).Some?
    ensures |t| >= 2
  {
    ValueStarts(Skip(b), 0);
    hide ParseValue;
    ErasedSkip(b, t);
    ClosedSkip(b);
    hide Erased;
    var x, y := Skip(b), Skip(t);
    hide Skip;
    ErasedLength(x, y);
  }

  lemma ErasedLength(s: bytes, t: bytes)
    requires Closed(s) && Erased(s, t) && s[0] > 32
    ensures |t| >= 2
  {
    if s[0] != QUOTE {
      ErasedHead(s, t);
      ErasedSome(s[1..], t[1..]);
    }
  }

  lemma FirstByte(s: bytes, t: bytes)
    requires Closed(s) && Erased(s, t) && SkipBom(s) == s && ParseValue(Skip(s), 0).Some?
    ensures SkipBom(t) == t
  {
    ValueStarts(Skip(s), 0);
    ErasedSkip(s, t);
    hide ParseValue;
    hide Erased;
    if t != [] && t[0] == 0xEF {
      SkipVisible(t);
    }
  }

  /** Dropping white space between the tokens of a text that parses up to its NUL leaves its tree. */
  lemma TextErased(s: bytes, t: bytes)
    requires Closed(s) && Erased(s, t) && ParseBuffer(s, true).Some?
    ensures ParseBuffer(t, true) == ParseBuffer(s, true)
  {
    var b := SkipBom(s);
    var v, rest := ParseValue(Skip(b), 0).value.0, ParseValue(Skip(b), 0).value.1;
    assert Follows(rest);
    hide Closed;
    hide Erased;
    hide ParseValue;
    hide SkipBom;
    hide Skip;
    hide Follows;
    ErasedSome(s, t);
    BomErased(s, t);
    ErasedSkip(b, SkipBom(t));
    ClosedSkip(b);
    ValueErased(Skip(b), Skip(SkipBom(t)), 0, v, rest);
    ErasedSkip(rest, ParseValue(Skip(SkipBom(t)), 0).value.1);
  }
}
