/**
 How many quotes of a text open or close a literal after minifying: never more
 than before.

 The parser's scan of the text, the minifier's, and the parser's scan of what is
 left run side by side here.
 */
module JsonQuotes {
  import opened Bytes
  import opened Json
  import opened JsonMinify
  import opened JsonErased
  import opened JsonMinified
  import opened JsonLiterals

  // ------------------------------------------------------------------
  // Where the three scans can stand
  // ------------------------------------------------------------------

  /** Both parsers are inside a literal, or both outside. */
  predicate InStep(p: Mode, m: Mode, q: Mode) {
    || (p.Out? && !m.Esc? && q.Out?)
    || (p.In? && q.In?)
    || (p.Esc? && m.Esc? && q.Esc?)
    || (m.Out? && !p.Out? && !q.Out?)
  }

  /** The second parser has seen one quote less. */
  predicate Behind(p: Mode, m: Mode, q: Mode) {
    (p == Out && m == In && q == In) || (p == In && m == Out && q == Out) || (p == Out && m == Out && q == Esc)
  }

  /** The second parser takes literals for what is between them, and the minifier goes with the first. */
  predicate Opposed(p: Mode, m: Mode, q: Mode) {
    (p == In && m == In && q == Out) || (p == Out && m == Out && q == In)
  }

  predicate Reached(p: Mode, m: Mode, q: Mode) {
    InStep(p, m, q) || Behind(p, m, q) || Opposed(p, m, q)
  }

  /** What a scan of a balanced text does not meet outside of literals. */
  predicate Allowed(p: Mode, c: byte) {
    !(p.Out? && (c == BACKSLASH || c == SLASH))
  }

  lemma NextReached(p: Mode, m: Mode, q: Mode, c: byte)
    requires Reached(p, m, q) && !(m.Out? && Dropped(c)) && Allowed(p, c) && Allowed(q, c)
    ensures Reached(ParserNext(p, c), MinNext(m, c), ParserNext(q, c))
    ensures Opposed(p, m, q) ==> Opposed(ParserNext(p, c), MinNext(m, c), ParserNext(q, c))
    ensures c == QUOTE && !q.Esc? && p.Esc? ==> Opposed(ParserNext(p, c), MinNext(m, c), ParserNext(q, c))
  {
  }

  lemma Front(c: byte, y: bytes, q: Mode)
    requires c != 0
    ensures Balanced([c] + y, q) <==> Allowed(q, c) && Balanced(y, ParserNext(q, c))
    ensures Quotes([c] + y, q) == (if c == QUOTE && !q.Esc? then 1 else 0) + Quotes(y, ParserNext(q, c))
  {
    assert ([c] + y)[1..] == y;
  }

  lemma Step(s: bytes, p: Mode)
    requires Closed(s) && s[0] != 0
    ensures |s| >= 2 && Closed(s[1..])
    ensures Balanced(s, p) <==> Allowed(p, s[0]) && Balanced(s[1..], ParserNext(p, s[0]))
    ensures Quotes(s, p) == (if s[0] == QUOTE && !p.Esc? then 1 else 0) + Quotes(s[1..], ParserNext(p, s[0]))
  {
    assert |s| >= 2;
    ClosedTail(s, 1);
  }

  /** Opposed scans stay so to the end, where the second one is inside a literal. */
  lemma {:induction false} OpposedFails(s: bytes, p: Mode, m: Mode, q: Mode)
    requires Closed(s) && Opposed(p, m, q) && Balanced(s, p)
    ensures !Balanced(MinFrom(s, m), q)
    decreases |s|
  {
    hide MinFrom;
    if s[0] == 0 {
      MinFromNul(s, m);
    } else {
      Step(s, p);
      hide Balanced;
      if m.Out? && Removed(s[0]) {
        BlankStep(s);
        OpposedFails(s[1..], p, m, q);
      } else {
        KeepStep(s, m);
        Front(s[0], MinFrom(s[1..], MinNext(m, s[0])), q);
        if Allowed(q, s[0]) {
          NextReached(p, m, q, s[0]);
          OpposedFails(s[1..], ParserNext(p, s[0]), MinNext(m, s[0]), ParserNext(q, s[0]));
        }
      }
    }
  }

  // ------------------------------------------------------------------
  // Comments
  // ------------------------------------------------------------------

  /** A scan from p stands at p' behind what is left out, and has passed quotes if it came out of a literal. */
  ghost predicate Passed(s: bytes, p: Mode, r: bytes, p': Mode) {
    && r != [] && Closed(r) && !p'.Esc? && Balanced(r, p') && Quotes(r, p') <= Quotes(s, p)
    && (p'.Out? && !p.Out? ==> Quotes(r, p') < Quotes(s, p))
  }

  lemma {:induction false} LinePassed(s: bytes, p: Mode) returns (p': Mode)
    requires Closed(s) && Balanced(s, p)
    ensures Passed(s, p, AfterLine(s), p')
    decreases |s|
  {
    if s[0] == 0 {
      p' := p;
    } else {
      Step(s, p);
      if s[0] == NEWLINE {
        p' := ParserNext(p, NEWLINE);
      } else {
        p' := LinePassed(s[1..], ParserNext(p, s[0]));
      }
    }
  }

  lemma {:induction false} BlockPassed(s: bytes, p: Mode) returns (p': Mode)
    requires Closed(s) && Balanced(s, p)
    ensures Passed(s, p, AfterBlock(s), p')
    decreases |s|
  {
    if s[0] == 0 {
      p' := p;
    } else {
      Step(s, p);
      var p1 := ParserNext(p, s[0]);
      if s[0] == ASTERISK && s[1] == SLASH {
        Step(s[1..], p1);
        p' := ParserNext(p1, SLASH);
        assert s[1..][1..] == s[2..];
      } else {
        p' := BlockPassed(s[1..], p1);
      }
    }
  }

  /** What is left of a text that begins with a slash, and a scan over what is dropped of it. */
  lemma SlashPassed(s: bytes, p: Mode) returns (r: bytes, p': Mode)
    requires Closed(s) && s[0] == SLASH && Balanced(s, p)
    ensures |r| < |s| && Min(s) == Min(r) && Passed(s, p, r, p')
  {
    Step(s, p);
    MinStep(s);
    hide Min;
    hide Balanced;
    hide Quotes;
    var p1 := ParserNext(p, SLASH);
    if s[1] == SLASH || s[1] == ASTERISK {
      Step(s[1..], p1);
      var p2 := ParserNext(p1, s[1]);
      assert s[1..][1..] == s[2..];
      if s[1] == SLASH {
        r := AfterLine(s[2..]);
        p' := LinePassed(s[2..], p2);
      } else {
        r := AfterBlock(s[2..]);
        p' := BlockPassed(s[2..], p2);
      }
    } else {
      r, p' := s[1..], p1;
    }
  }

  // ------------------------------------------------------------------
  // The count
  // ------------------------------------------------------------------

  /** What is left has no more quotes around literals than the text. */
  lemma {:induction false} QuotesOnlyFall(s: bytes, p: Mode, m: Mode, q: Mode)
    requires Closed(s) && Reached(p, m, q) && Balanced(s, p) && Balanced(MinFrom(s, m), q)
    ensures Quotes(MinFrom(s, m), q) <= Quotes(s, p)
    decreases |s|
  {
    hide MinFrom;
    if Opposed(p, m, q) {
      OpposedFails(s, p, m, q);
    } else if s[0] == 0 {
      MinFromNul(s, m);
    } else {
      Step(s, p);
      hide Balanced;
      hide Quotes;
      if m.Out? && Removed(s[0]) {
        BlankStep(s);
        QuotesOnlyFall(s[1..], ParserNext(p, s[0]), m, q);
      } else if m.Out? && s[0] == SLASH {
        var r, p' := SlashPassed(s, p);
        LeftFrom(s, r);
        QuotesOnlyFall(r, p', m, q);
      } else {
        KeepStep(s, m);
        Front(s[0], MinFrom(s[1..], MinNext(m, s[0])), q);
        NextReached(p, m, q, s[0]);
        if s[0] == QUOTE && !q.Esc? && p.Esc? {
          OpposedFails(s[1..], ParserNext(p, s[0]), MinNext(m, s[0]), ParserNext(q, s[0]));
        } else {
          QuotesOnlyFall(s[1..], ParserNext(p, s[0]), MinNext(m, s[0]), ParserNext(q, s[0]));
        }
      }
    }
  }

  lemma LeftFrom(s: bytes, r: bytes)
    requires Min(s) == Min(r)
    ensures MinFrom(s, Out) == MinFrom(r, Out)
  {
  }
}
