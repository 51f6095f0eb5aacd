/**
 The string literals of a text, read off without its grammar.

 Where a text parses, its literals are the strings and keys of the tree, in
 order.  So two texts with the same tree have the same literals.
 */
module JsonLiterals {
  import opened Bytes
  import opened Json
  import opened JsonString
  import opened JsonGrammar
  import opened JsonMinify
  import opened JsonErased
  import opened JsonMinified

  // ------------------------------------------------------------------
  // Strings of a tree, literals of a text
  // ------------------------------------------------------------------

  /** Keys and strings, in the order of the text. */
  function Strings(v: Json): seq<bytes>
    decreases v, 1
  {
    match v
    case String(s) => [s]
    case Array(items) => ItemStrings(items)
    case Object(members) => MemberStrings(members)
    case _ => []
  }

  function ItemStrings(items: seq<Json>): seq<bytes>
    decreases items, 0
  {
    if items == [] then [] else Strings(items[0]) + ItemStrings(items[1..])
  }

  function MemberStrings(members: seq<Member>): seq<bytes>
    decreases members, 0
  {
    if members == [] then [] else [members[0].key] + Strings(members[0].value) + MemberStrings(members[1..])
  }

  /** What the literal decodes to whose rest, behind its opening quote, begins s. */
  function Body(s: bytes): Option<bytes> {
    match ScanEnd(s) case None => None case Some(n) => Unescape(s[..n + 1])
  }

  /** What comes behind its closing quote. */
  function Rest(s: bytes): (r: bytes)
    ensures |r| <= |s|
  {
    match ScanEnd(s) case None => [] case Some(n) => s[n + 1..]
  }

  /** The literals from outside of one to the NUL, as C strings; none where something else than a literal has a backslash or slash. */
  function Literals(s: bytes): Option<seq<bytes>>
    decreases |s|
  {
    if s == [] || (s[0] != 0 && (s[0] == BACKSLASH || s[0] == SLASH)) then None
    else if s[0] == 0 then Some([])
    else if s[0] == QUOTE then
      match Body(s[1..])
      case None => None
      case Some(text) =>
        match Literals(Rest(s[1..]))
        case None => None
        case Some(later) => Some([UpToNul(text)] + later)
    else Literals(s[1..])
  }

  // ------------------------------------------------------------------
  // Quotes that open or close a literal
  // ------------------------------------------------------------------

  function Quotes(s: bytes, p: Mode): nat {
    if s == [] || s[0] == 0 then 0
    else (if s[0] == QUOTE && !p.Esc? then 1 else 0) + Quotes(s[1..], ParserNext(p, s[0]))
  }

  lemma RestStep(s: bytes)
    requires ScanEnd(s).Some?
    ensures s[0] == QUOTE ==> Rest(s) == s[1..]
    ensures s[0] == BACKSLASH ==> |s| >= 2 && ScanEnd(s[2..]).Some? && Rest(s) == Rest(s[2..])
    ensures s[0] != QUOTE && s[0] != BACKSLASH ==> ScanEnd(s[1..]).Some? && Rest(s) == Rest(s[1..])
  {
    ScanCases(s);
    hide ScanEnd;
    var n := ScanEnd(s).value;
    if s[0] == BACKSLASH {
      assert s[2..][n - 1..] == s[n + 1..];
    } else if s[0] != QUOTE {
      assert s[1..][n..] == s[n + 1..];
    }
  }

  lemma {:induction false} LiteralQuotes(s: bytes)
    requires Closed(s) && ScanEnd(s).Some?
    ensures var r := Rest(s);
            && r != [] && Closed(r)
            && (Balanced(s, In) <==> Balanced(r, Out)) && Quotes(s, In) == 1 + Quotes(r, Out)
    decreases |s|
  {
    RestStep(s);
    ScanInside(s);
    ClosedTail(s, 1);
    hide Rest;
    hide ScanEnd;
    if s[0] == BACKSLASH {
      ClosedTail(s, 2);
      assert s[1..][1..] == s[2..] && s[1..][0] == s[1];
      ClosedTail(s[1..], 1);
      LiteralQuotes(s[2..]);
    } else if s[0] != QUOTE {
      LiteralQuotes(s[1..]);
    }
  }

  /** A literal is closed before the NUL. */
  lemma {:induction false} ScanInside(s: bytes)
    requires Closed(s) && ScanEnd(s).Some?
    ensures ScanEnd(s).value + 1 < |s|
  {
    assert s[ScanEnd(s).value] == QUOTE;
  }

  lemma {:induction false} QuotesOfLiterals(s: bytes)
    requires Closed(s) && Literals(s).Some?
    ensures Balanced(s, Out) && Quotes(s, Out) == 2 * |Literals(s).value|
    decreases |s|
  {
    if s[0] != 0 {
      assert |s| >= 2;
      ClosedTail(s, 1);
      if s[0] == QUOTE {
        hide Unescape;
        LiteralQuotes(s[1..]);
        QuotesOfLiterals(Rest(s[1..]));
      } else {
        QuotesOfLiterals(s[1..]);
      }
    }
  }

  // ------------------------------------------------------------------
  // Parsing reads the literals
  // ------------------------------------------------------------------

  /** Between s and what is left of it, r, lie these literals. */
  ghost predicate Reads(s: bytes, r: bytes, strings: seq<bytes>) {
    Closed(r) && (Literals(r).Some? ==> Literals(s) == Some(strings + Literals(r).value))
  }

  lemma ReadsOn(s: bytes, r: bytes, q: bytes, a: seq<bytes>, b: seq<bytes>)
    requires Reads(s, r, a) && Reads(r, q, b)
    ensures Reads(s, q, a + b)
  {
    hide Literals;
    if Literals(q).Some? {
      assert a + (b + Literals(q).value) == a + b + Literals(q).value;
    }
  }

  lemma ReadsFrom(s: bytes, r: bytes, q: bytes, b: seq<bytes>)
    requires Reads(s, r, []) && Reads(r, q, b)
    ensures Reads(s, q, b)
  {
    hide Reads;
    ReadsOn(s, r, q, [], b);
    assert [] + b == b;
  }

  lemma ReadsUpTo(s: bytes, r: bytes, q: bytes, a: seq<bytes>)
    requires Reads(s, r, a) && Reads(r, q, [])
    ensures Reads(s, q, a)
  {
    hide Reads;
    ReadsOn(s, r, q, a, []);
    assert a + [] == a;
  }

  /** A byte that is none of a literal's. */
  predicate Bare(c: byte) {
    c != 0 && c != QUOTE && c != BACKSLASH && c != SLASH
  }

  lemma ReadsByte(s: bytes)
    requires Closed(s) && Bare(s[0])
    ensures |s| >= 2 && Reads(s, s[1..], [])
  {
    assert |s| >= 2;
    ClosedTail(s, 1);
    if Literals(s[1..]).Some? {
      assert [] + Literals(s[1..]).value == Literals(s[1..]).value;
    }
  }

  lemma ReadsNothing(s: bytes)
    requires Closed(s)
    ensures Reads(s, s, [])
  {
    if Literals(s).Some? {
      assert [] + Literals(s).value == Literals(s).value;
    }
  }

  lemma {:induction false} ReadsBare(s: bytes, k: nat)
    requires Closed(s) && k <= |s| && forall i :: 0 <= i < k ==> Bare(s[i])
    ensures k < |s| && Reads(s, s[k..], [])
    decreases k
  {
    if k == 0 {
      assert s[0..] == s;
      ReadsNothing(s);
    } else {
      assert Bare(s[0]);
      ReadsByte(s);
      ReadsBare(s[1..], k - 1);
      assert s[1..][k - 1..] == s[k..];
      ReadsFrom(s, s[1..], s[k..], []);
    }
  }

  lemma {:induction false} ReadsSkip(s: bytes)
    requires Closed(s)
    ensures Skip(s) != [] && Reads(s, Skip(s), [])
    decreases |s|
  {
    if s[0] == 0 {
      ClosedAtNul(s);
      SkipNul();
      ReadsNothing(s);
    } else if s[0] <= 32 {
      ReadsByte(s);
      ReadsClosed(s, s[1..], []);
      SkipBlank(s);
      hide Skip;
      hide Reads;
      ReadsSkip(s[1..]);
      ReadsFrom(s, s[1..], Skip(s), []);
    } else {
      JsonRoundTrip.SkipVisible(s);
      ReadsNothing(s);
    }
  }

  lemma ReadsString(s: bytes, text: bytes, r: bytes)
    requires Closed(s) && ParseString(s) == Some((text, r))
    ensures Reads(s, r, [text])
  {
    hide UpToNul;
    hide Unescape;
    hide ScanEnd;
    ClosedTail(s, 1);
    ScanInside(s[1..]);
    var n := ScanEnd(s[1..]).value;
    assert s[1..][..n + 1] == s[1..n + 2] && s[1..][n + 1..] == s[n + 2..];
    ClosedTail(s, n + 2);
  }

  lemma ReadsNumber(s: bytes, v: Json, r: bytes)
    requires Closed(s) && ParseNumber(s) == Some((v, r))
    ensures Reads(s, r, Strings(v))
  {
    RunIsNumber(s);
    var used := ReadInteger(s[..NumberRun(s)]).value.1;
    hide ReadInteger;
    assert forall i :: 0 <= i < used ==> NumberChar(s[i]) && Bare(s[i]);
    ReadsBare(s, used);
  }

  lemma ReadsKeyword(s: bytes, depth: nat, v: Json, r: bytes)
    requires Closed(s) && ParseValue(s, depth) == Some((v, r)) && (s[0] == 110 || s[0] == 102 || s[0] == 116)
    ensures Reads(s, r, Strings(v))
  {
    hide Closed;
    hide Literals;
    hide Skip;
    var k := |s| - |r|;
    assert forall i :: 0 <= i < k ==> Bare(s[i]);
    assert r == s[k..];
    ReadsBare(s, k);
  }

  lemma {:induction false} ValueReads(s: bytes, depth: nat, v: Json, r: bytes)
    requires Closed(s) && ParseValue(s, depth) == Some((v, r))
    ensures Reads(s, r, Strings(v))
    decreases |s|, 2
  {
    ValueStarts(s, depth);
    hide Closed;
    hide Reads;
    hide ParseValue;
    hide ParseString;
    hide ParseNumber;
    hide ParseArray;
    hide ParseObject;
    if s[0] == 110 || s[0] == 102 || s[0] == 116 {
      ReadsKeyword(s, depth, v, r);
    } else if s[0] == QUOTE {
      SelectsString(s, depth);
      ReadsString(s, v.s, r);
    } else if s[0] == LBRACKET {
      SelectsArray(s, depth);
      ArrayReads(s, depth, v, r);
    } else if s[0] == LBRACE {
      SelectsObject(s, depth);
      ObjectReads(s, depth, v, r);
    } else {
      SelectsNumber(s, depth);
      ReadsNumber(s, v, r);
    }
  }

  /** Reading on past white space and one byte. */
  lemma ReadsSkipByte(s: bytes, r: bytes, strings: seq<bytes>)
    requires Reads(s, r, strings) && Skip(r) != [] && Bare(Skip(r)[0])
    ensures Reads(s, Skip(r)[1..], strings)
  {
    hide Skip;
    hide Literals;
    hide Closed;
    ReadsSkip(r);
    var u := Skip(r);
    ReadsByte(u);
    ReadsUpTo(s, r, u, strings);
    ReadsUpTo(s, u, u[1..], strings);
  }

  lemma ReadsClosed(s: bytes, r: bytes, strings: seq<bytes>)
    requires Reads(s, r, strings)
    ensures Closed(r)
  {
  }

  lemma {:induction false} ArrayReads(s: bytes, depth: nat, v: Json, r: bytes)
    requires Closed(s) && s[0] == LBRACKET && ParseArray(s, depth) == Some((v, r))
    ensures Reads(s, r, Strings(v))
    decreases |s|, 1
  {
    hide Closed;
    hide Reads;
    hide ParseItems;
    hide Skip;
    ReadsByte(s);
    ReadsClosed(s, s[1..], []);
    ReadsSkip(s[1..]);
    var t := Skip(s[1..]);
    ReadsClosed(s[1..], t, []);
    if t[0] == RBRACKET {
      ReadsSkipByte(s, s[1..], []);
    } else {
      ItemsRead(t, depth + 1);
      ReadsFrom(s, s[1..], t, []);
      ReadsFrom(s, t, r, Strings(v));
    }
  }

  lemma {:induction false} ObjectReads(s: bytes, depth: nat, v: Json, r: bytes)
    requires Closed(s) && s[0] == LBRACE && ParseObject(s, depth) == Some((v, r))
    ensures Reads(s, r, Strings(v))
    decreases |s|, 1
  {
    hide Closed;
    hide Reads;
    hide ParseMembers;
    hide Skip;
    ReadsByte(s);
    ReadsClosed(s, s[1..], []);
    ReadsSkip(s[1..]);
    var t := Skip(s[1..]);
    ReadsClosed(s[1..], t, []);
    if t[0] == RBRACE {
      ReadsSkipByte(s, s[1..], []);
    } else {
      MembersRead(t, depth + 1);
      ReadsFrom(s, s[1..], t, []);
      ReadsFrom(s, t, r, Strings(v));
    }
  }

  lemma FirstItem(item: Json, later: seq<Json>)
    ensures ItemStrings([item] + later) == Strings(item) + ItemStrings(later)
  {
    assert ([item] + later)[1..] == later;
  }

  lemma {:induction false} ItemsRead(s: bytes, depth: nat)
    requires Closed(s) && ParseItems(s, depth).Some?
    ensures Reads(s, ParseItems(s, depth).value.1, ItemStrings(ParseItems(s, depth).value.0))
    decreases |s|, 3
  {
    hide Closed;
    hide Reads;
    hide ParseValue;
    hide ParseItems;
    hide Skip;
    hide Strings;
    hide ItemStrings;
    ItemsParts(s, depth);
    ReadsSkip(s);
    var x := Skip(s);
    ReadsClosed(s, x, []);
    var item, after := ParseValue(x, depth).value.0, ParseValue(x, depth).value.1;
    ValueReads(x, depth, item, after);
    ReadsFrom(s, x, after, Strings(item));
    var u := Skip(after);
    ReadsSkipByte(s, after, Strings(item));
    ReadsClosed(s, u[1..], Strings(item));
    if u[0] == COMMA {
      var later := ParseItems(u[1..], depth).value;
      ItemsRead(u[1..], depth);
      ReadsOn(s, u[1..], later.1, Strings(item), ItemStrings(later.0));
      FirstItem(item, later.0);
    } else {
      OneItem(item);
    }
  }

  lemma OneItem(item: Json)
    ensures ItemStrings([item]) == Strings(item)
  {
    FirstItem(item, []);
    assert [item] + [] == [item] && Strings(item) + [] == Strings(item);
  }

  lemma {:induction false} MemberReads(s: bytes, depth: nat, m: Member, r: bytes)
    requires Closed(s) && ParseMember(s, depth) == Some((m, r))
    ensures Reads(s, r, [m.key] + Strings(m.value))
    decreases |s|, 3
  {
    hide Closed;
    hide Reads;
    hide ParseString;
    hide ParseValue;
    hide ParseMember;
    hide Skip;
    hide Strings;
    MemberParts(s, depth);
    ReadsSkip(s);
    var x := Skip(s);
    ReadsClosed(s, x, []);
    var key, after := ParseString(x).value.0, ParseString(x).value.1;
    ReadsString(x, key, after);
    ReadsFrom(s, x, after, [key]);
    ReadsSkipByte(s, after, [key]);
    var u := Skip(after);
    ReadsClosed(s, u[1..], [key]);
    ReadsSkip(u[1..]);
    var w := Skip(u[1..]);
    ReadsClosed(u[1..], w, []);
    ReadsUpTo(s, u[1..], w, [key]);
    ValueReads(w, depth, m.value, r);
    ReadsOn(s, w, r, [key], Strings(m.value));
  }

  lemma FirstMember(m: Member, later: seq<Member>)
    ensures MemberStrings([m] + later) == [m.key] + Strings(m.value) + MemberStrings(later)
  {
    assert ([m] + later)[1..] == later;
  }

  lemma OneMember(m: Member)
    ensures MemberStrings([m]) == [m.key] + Strings(m.value)
  {
    FirstMember(m, []);
    assert [m] + [] == [m] && [m.key] + Strings(m.value) + [] == [m.key] + Strings(m.value);
  }

  lemma {:induction false} MembersRead(s: bytes, depth: nat)
    requires Closed(s) && ParseMembers(s, depth).Some?
    ensures Reads(s, ParseMembers(s, depth).value.1, MemberStrings(ParseMembers(s, depth).value.0))
    decreases |s|, 4
  {
    hide Closed;
    hide Reads;
    hide ParseMember;
    hide ParseMembers;
    hide Skip;
    hide Strings;
    hide MemberStrings;
    MembersParts(s, depth);
    var member, after := ParseMember(s, depth).value.0, ParseMember(s, depth).value.1;
    var strings := [member.key] + Strings(member.value);
    MemberReads(s, depth, member, after);
    var u := Skip(after);
    ReadsSkipByte(s, after, strings);
    ReadsClosed(s, u[1..], strings);
    if u[0] == COMMA {
      var later := ParseMembers(u[1..], depth).value;
      MembersRead(u[1..], depth);
      ReadsOn(s, u[1..], later.1, strings, MemberStrings(later.0));
      FirstMember(member, later.0);
    } else {
      OneMember(member);
    }
  }

  /** The literals of a text that parses are the strings of its tree. */
  lemma TextReads(s: bytes)
    requires Closed(s) && ParseBuffer(s, true).Some?
    ensures Literals(s) == Some(Strings(ParseBuffer(s, true).value))
  {
    var b := SkipBom(s);
    var x := Skip(b);
    var v, rest := ParseValue(x, 0).value.0, ParseValue(x, 0).value.1;
    hide ParseValue;
    hide Skip;
    hide Strings;
    ReadsBom(s);
    ReadsClosed(s, b, []);
    ReadsSkip(b);
    ReadsClosed(b, x, []);
    ValueReads(x, 0, v, rest);
    ReadsSkip(rest);
    ReadsFrom(s, b, x, []);
    ReadsFrom(s, x, rest, Strings(v));
    ReadsUpTo(s, rest, Skip(rest), Strings(v));
    assert Literals(Skip(rest)) == Some([]);
    hide Literals;
    assert Strings(v) + [] == Strings(v);
  }

  lemma ReadsBom(s: bytes)
    requires Closed(s)
    ensures Reads(s, SkipBom(s), [])
  {
    if SkipBom(s) != s {
      ReadsBare(s, 3);
    } else {
      ReadsNothing(s);
    }
  }
}
