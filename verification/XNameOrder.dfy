/** Comparison and containment of XNames (sat/xname.py:191-272). An XName compares and
    hashes by its tokens, so sets of XNames are sets of token tuples. */
module XNameOrder {
  import opened Options
  import opened XNames

  datatype Order = Lt | Eq | Gt {
    function Flip(): Order {
      match this case Lt => Gt case Eq => Eq case Gt => Lt
    }
  }

  function CompareInts(a: int, b: int): Order {
    if a < b then Lt else if a == b then Eq else Gt
  }

  /** Comparison of strings, by the first character that differs or else by length. */
  function CompareStrings(a: string, b: string): Order {
    if a == "" || b == "" then CompareInts(|a|, |b|)
    else if a[0] == b[0] then CompareStrings(a[1..], b[1..])
    else CompareInts(a[0] as int, b[0] as int)
  }

  /** None stands for TypeError: a text and a number do not compare. */
  function CompareTokens(a: Token, b: Token): Option<Order> {
    match (a, b)
    case (Letters(s), Letters(t)) => Some(CompareStrings(s, t))
    case (Number(m), Number(n)) => Some(CompareInts(m, n))
    case _ => None
  }

  /** Comparison of tuples, by the first elements that are not equal or else by length. */
  function Compare(a: Tokens, b: Tokens): Option<Order> {
    if a == [] || b == [] then Some(CompareInts(|a|, |b|))
    else if a[0] == b[0] then Compare(a[1..], b[1..])
    else CompareTokens(a[0], b[0])
  }

  function CompareXNames(x: string, y: string): Option<Order> {
    Compare(Tokenize(x), Tokenize(y))
  }

  predicate AtMost(o: Option<Order>) {
    o == Some(Lt) || o == Some(Eq)
  }

  // ----- a total order -----

  lemma {:induction false} StringOrder(a: string, b: string)
    ensures CompareStrings(a, b) == Eq <==> a == b
    ensures CompareStrings(b, a) == CompareStrings(a, b).Flip()
  {
    if a == "" || b == "" || a[0] != b[0] {
    } else {
      StringOrder(a[1..], b[1..]);
      assert a == [a[0]] + a[1..] && b == [b[0]] + b[1..];
    }
  }

  lemma {:induction false} StringOrderTransitive(a: string, b: string, c: string)
    requires CompareStrings(a, b) == Lt && CompareStrings(b, c) == Lt
    ensures CompareStrings(a, c) == Lt
  {
    if a == "" || b == "" || c == "" || a[0] != b[0] || b[0] != c[0] {
    } else {
      StringOrderTransitive(a[1..], b[1..], c[1..]);
    }
  }

  /** Text stands at even places and numbers at odd ones. */
  predicate Alternates(toks: Tokens, textFirst: bool) {
    toks != [] ==> toks[0].Letters? == textFirst && Alternates(toks[1..], !textFirst)
  }

  lemma {:induction false} WellFormedAlternates(toks: Tokens, first: bool)
    requires WellFormed(toks, first)
    ensures Alternates(toks, true)
  {
    if toks == [] {
    } else {
      WellFormedAlternates(toks[2..], false);
      assert toks[1..][1..] == toks[2..];
    }
  }

  lemma TokenOrder(a: Token, b: Token)
    requires a.Letters? == b.Letters?
    ensures CompareTokens(a, b).Some?
    ensures CompareTokens(a, b) == Some(Eq) <==> a == b
    ensures CompareTokens(b, a) == Some(CompareTokens(a, b).value.Flip())
  {
    if a.Letters? {
      StringOrder(a.text, b.text);
    }
  }

  lemma {:induction false} OrderIsTotal(a: Tokens, b: Tokens, textFirst: bool)
    requires Alternates(a, textFirst) && Alternates(b, textFirst)
    ensures Compare(a, b).Some?
    ensures Compare(a, b) == Some(Eq) <==> a == b
    ensures Compare(b, a) == Some(Compare(a, b).value.Flip())
  {
    if a == [] || b == [] {
    } else {
      if a[0] == b[0] {
        OrderIsTotal(a[1..], b[1..], !textFirst);
        assert a == [a[0]] + a[1..] && b == [b[0]] + b[1..];
      } else {
        TokenOrder(a[0], b[0]);
      }
    }
  }

  lemma TokenOrderTransitive(a: Token, b: Token, c: Token)
    requires CompareTokens(a, b) == Some(Lt) && CompareTokens(b, c) == Some(Lt)
    ensures CompareTokens(a, c) == Some(Lt)
  {
    if a.Letters? {
      StringOrderTransitive(a.text, b.text, c.text);
    }
  }

  lemma {:induction false} OrderIsTransitive(a: Tokens, b: Tokens, c: Tokens, textFirst: bool)
    requires Alternates(a, textFirst) && Alternates(b, textFirst) && Alternates(c, textFirst)
    requires AtMost(Compare(a, b)) && AtMost(Compare(b, c))
    ensures AtMost(Compare(a, c))
  {
    if a == [] || b == [] || c == [] {
    } else {
      TokenOrder(a[0], b[0]);
      TokenOrder(b[0], c[0]);
      TokenOrder(a[0], c[0]);
      if a[0] == b[0] == c[0] {
        OrderIsTransitive(a[1..], b[1..], c[1..], !textFirst);
      } else if a[0] != b[0] && b[0] != c[0] {
        TokenOrderTransitive(a[0], b[0], c[0]);
      }
    }
  }

  /** Comparing XNames never raises TypeError, and it is a total order whose equality is `==`. */
  lemma XNameOrderIsTotal(x: string, y: string, z: string)
    ensures CompareXNames(x, y).Some?
    ensures CompareXNames(x, y) == Some(Eq) <==> Tokenize(x) == Tokenize(y)
    ensures CompareXNames(y, x) == Some(CompareXNames(x, y).value.Flip())
    ensures AtMost(CompareXNames(x, y)) && AtMost(CompareXNames(y, z)) ==> AtMost(CompareXNames(x, z))
  {
    XNameAlternates(x);
    XNameAlternates(y);
    XNameAlternates(z);
    hide Tokenize, Alternates, Compare;
    OrderIsTotal(Tokenize(x), Tokenize(y), true);
    if AtMost(CompareXNames(x, y)) && AtMost(CompareXNames(y, z)) {
      OrderIsTransitive(Tokenize(x), Tokenize(y), Tokenize(z), true);
    }
  }

  lemma XNameAlternates(x: string)
    ensures Alternates(Tokenize(x), true)
  {
    hide Tokenize;
    TokenizeWellFormed(x, true);
    WellFormedAlternates(Tokenize(x), true);
  }

  // ----- which of two names is smaller -----

  /** The texts agree before `i`, where the first one ends or has the smaller character. */
  predicate TextLessAt(s: string, t: string, i: int) {
    && 0 <= i <= |s| && i < |t| && s[..i] == t[..i]
    && (i == |s| || s[i] < t[i])
  }

  ghost predicate TextLess(s: string, t: string) {
    exists i :: TextLessAt(s, t, i)
  }

  lemma AgreeingFront<T>(s: seq<T>, t: seq<T>, i: nat)
    requires i <= |s| && i <= |t| && s[..i] == t[..i]
    ensures i == 0 || s[0] == t[0]
  {
    assert i > 0 ==> s[..i][0] == t[..i][0];
  }

  lemma {:induction false} CompareStringsIsLess(s: string, t: string)
    ensures CompareStrings(s, t) == Lt <==> TextLess(s, t)
  {
    if s == "" || t == "" || s[0] != t[0] {
      assert s[..0] == t[..0];
      assert TextLessAt(s, t, 0) <==> CompareStrings(s, t) == Lt;
      forall i | TextLessAt(s, t, i) ensures i == 0 {
        AgreeingFront(s, t, i);
      }
    } else {
      CompareStringsIsLess(s[1..], t[1..]);
      if i :| TextLessAt(s[1..], t[1..], i) {
        assert s[..i + 1] == [s[0]] + s[1..][..i] && t[..i + 1] == [t[0]] + t[1..][..i];
        assert TextLessAt(s, t, i + 1);
      }
      if i :| TextLessAt(s, t, i) {
        assert s[1..][..i - 1] == s[..i][1..] && t[1..][..i - 1] == t[..i][1..];
        assert TextLessAt(s[1..], t[1..], i - 1);
      }
    }
  }

  /** The tokens agree before `i`, where the first name ends or has the smaller number or text. */
  ghost predicate LessAt(a: Tokens, b: Tokens, i: int) {
    && 0 <= i <= |a| && i < |b| && a[..i] == b[..i]
    && (i == |a|
        || (a[i].Number? && b[i].Number? && a[i].n < b[i].n)
        || (a[i].Letters? && b[i].Letters? && TextLess(a[i].text, b[i].text)))
  }

  lemma TokensLess(a: Token, b: Token)
    ensures CompareTokens(a, b) == Some(Lt) <==>
            || (a.Number? && b.Number? && a.n < b.n)
            || (a.Letters? && b.Letters? && TextLess(a.text, b.text))
  {
    hide CompareStrings, TextLess;
    if a.Letters? && b.Letters? {
      CompareStringsIsLess(a.text, b.text);
    }
  }

  lemma {:induction false} CompareIsLess(a: Tokens, b: Tokens)
    ensures Compare(a, b) == Some(Lt) <==> exists i :: LessAt(a, b, i)
  {
    hide CompareTokens, TextLess;
    if a == [] || b == [] || a[0] != b[0] {
      assert a[..0] == b[..0];
      if a != [] && b != [] {
        TokensLess(a[0], b[0]);
      }
      assert LessAt(a, b, 0) <==> Compare(a, b) == Some(Lt);
      forall i | LessAt(a, b, i) ensures i == 0 {
        AgreeingFront(a, b, i);
      }
    } else {
      CompareIsLess(a[1..], b[1..]);
      if i :| LessAt(a[1..], b[1..], i) {
        assert a[..i + 1] == [a[0]] + a[1..][..i] && b[..i + 1] == [b[0]] + b[1..][..i];
        assert LessAt(a, b, i + 1);
      }
      if i :| LessAt(a, b, i) {
        if i == 0 {
          TokensLess(a[0], b[0]);
          TokenOrder(a[0], b[0]);
        } else {
          assert a[1..][..i - 1] == a[..i][1..] && b[1..][..i - 1] == b[..i][1..];
          assert LessAt(a[1..], b[1..], i - 1);
        }
      }
    }
  }

  /** A name is smaller than another exactly if, where their tokens first differ, it ends or has
      the smaller number, or the text that comes first by the same rule for characters. */
  lemma XNameLessIff(x: string, y: string)
    ensures CompareXNames(x, y) == Some(Lt) <==> exists i :: LessAt(Tokenize(x), Tokenize(y), i)
  {
    hide Tokenize, Compare, LessAt;
    var a, b := Tokenize(x), Tokenize(y);
    CompareIsLess(a, b);
    assert CompareXNames(x, y) == Compare(a, b);
    if i :| LessAt(a, b, i) {
      assert LessAt(Tokenize(x), Tokenize(y), i);
    }
  }

  // ----- containment -----

  /** `contains_component`. */
  predicate Contains(x: string, y: string) {
    var (a, b) := (Tokenize(x), Tokenize(y));
    |a| <= |b| && forall i | 0 <= i < |a| :: b[i] == a[i]
  }

  lemma ContainsIsPrefix(x: string, y: string)
    ensures Contains(x, y) <==> Tokenize(x) <= Tokenize(y)
  {
  }

  lemma {:induction false} PrefixAtMost(a: Tokens, b: Tokens)
    requires a <= b
    ensures AtMost(Compare(a, b))
  {
    if a == [] {
    } else {
      PrefixAtMost(a[1..], b[1..]);
    }
  }

  lemma {:induction false} PrefixInterval(a: Tokens, x: Tokens, y: Tokens, z: Tokens, textFirst: bool)
    requires Alternates(x, textFirst) && Alternates(y, textFirst) && Alternates(z, textFirst)
    requires a <= x && a <= z && AtMost(Compare(x, y)) && AtMost(Compare(y, z))
    ensures a <= y
  {
    if a == [] {
    } else {
      if y != [] {
        TokenOrder(x[0], y[0]);
        TokenOrder(y[0], z[0]);
      }
      PrefixInterval(a[1..], x[1..], y[1..], z[1..], !textFirst);
      assert y == [y[0]] + y[1..];
    }
  }

  /** Containment is a partial order, up to equality of XNames, within the order of XNames;
      the components contained in one are an interval of that order. */
  lemma ContainmentIsIntervalOrder(a: string, x: string, y: string, z: string)
    ensures Contains(x, x)
    ensures Contains(x, y) && Contains(y, x) ==> Tokenize(x) == Tokenize(y)
    ensures Contains(x, y) && Contains(y, z) ==> Contains(x, z)
    ensures Contains(x, y) ==> AtMost(CompareXNames(x, y))
    ensures Contains(a, x) && Contains(a, z) && AtMost(CompareXNames(x, y)) && AtMost(CompareXNames(y, z))
            ==> Contains(a, y)
  {
    XNameAlternates(x);
    XNameAlternates(y);
    XNameAlternates(z);
    hide Tokenize, Alternates, Compare;
    if Contains(x, y) {
      PrefixAtMost(Tokenize(x), Tokenize(y));
    }
    if Contains(a, x) && Contains(a, z) && AtMost(CompareXNames(x, y)) && AtMost(CompareXNames(y, z)) {
      PrefixInterval(Tokenize(a), Tokenize(x), Tokenize(y), Tokenize(z), true);
    }
  }

  /** A proper ancestor contains the component, and not the other way round. */
  lemma AncestorContains(s: string, levels: nat)
    requires levels > 0 && Ancestor(s, levels).Some?
    ensures Contains(Ancestor(s, levels).value, s) && !Contains(s, Ancestor(s, levels).value)
  {
    hide Tokenize;
    AncestorTokens(s, levels);
  }

  // ----- get_matches -----

  ghost function TokensOf(names: seq<string>): set<Tokens> {
    set s | s in names :: Tokenize(s)
  }

  ghost function Containing(filters: set<Tokens>, e: Tokens): set<Tokens> {
    set f | f in filters && f <= e
  }

  ghost function UsedBy(filters: set<Tokens>, elems: set<Tokens>): set<Tokens> {
    set f | f in filters && exists e | e in elems :: f <= e
  }

  ghost function MatchedBy(filters: set<Tokens>, elems: set<Tokens>): set<Tokens> {
    set e | e in elems && exists f | f in filters :: f <= e
  }

  lemma TokensOfOneMore(names: seq<string>, i: nat)
    requires i < |names|
    ensures TokensOf(names[..i + 1]) == TokensOf(names[..i]) + {Tokenize(names[i])}
  {
    hide Tokenize;
    assert names[..i + 1] == names[..i] + [names[i]];
  }

  lemma OneMoreElem(filters: set<Tokens>, elems: set<Tokens>, e: Tokens)
    ensures UsedBy(filters, elems + {e}) == UsedBy(filters, elems) + Containing(filters, e)
    ensures MatchedBy(filters, elems + {e}) ==
            MatchedBy(filters, elems) + if Containing(filters, e) == {} then {} else {e}
  {
    forall f | f in filters
      ensures f in UsedBy(filters, elems + {e}) <==> f in UsedBy(filters, elems) + Containing(filters, e)
    {
      if f <= e {
        assert e in elems + {e};
      }
      if x :| x in elems && f <= x {
        assert x in elems + {e};
      }
    }
    assert Containing(filters, e) == {} <==> forall f | f in filters :: !(f <= e) by {
      if f :| f in filters && f <= e {
        assert f in Containing(filters, e);
      }
    }
  }

  /** The inner loop: one element against all filters. */
  method MatchElem(filters: seq<string>, elem: string, used0: set<Tokens>, unused0: set<Tokens>,
                   matches0: set<Tokens>, noMatches0: set<Tokens>)
    returns (used: set<Tokens>, unused: set<Tokens>, matches: set<Tokens>, noMatches: set<Tokens>)
    ensures var containing := Containing(TokensOf(filters), Tokenize(elem));
            && used == used0 + containing && unused == unused0 - containing
            && matches == matches0 + (if containing == {} then {} else {Tokenize(elem)})
            && noMatches == noMatches0 - (if containing == {} then {} else {Tokenize(elem)})
  {
    hide Tokenize;
    used, unused, matches, noMatches := used0, unused0, matches0, noMatches0;
    var e := Tokenize(elem);
    for j := 0 to |filters|
      invariant var containing := Containing(TokensOf(filters[..j]), e);
                && used == used0 + containing && unused == unused0 - containing
                && matches == matches0 + (if containing == {} then {} else {e})
                && noMatches == noMatches0 - (if containing == {} then {} else {e})
    {
      var filter := Tokenize(filters[j]);
      TokensOfOneMore(filters, j);
      ghost var before, after := Containing(TokensOf(filters[..j]), e), Containing(TokensOf(filters[..j + 1]), e);
      assert after == before + if filter <= e then {filter} else {};
      if Contains(filters[j], elem) {
        used := used + {filter};
        unused := unused - {filter};
        matches := matches + {e};
        noMatches := noMatches - {e};
      }
    }
    assert filters[..|filters|] == filters;
  }

  /** Splits the filters into used and unused ones, and the elements into matched and unmatched ones. */
  method GetMatches(filters: seq<string>, elems: seq<string>)
    returns (used: set<Tokens>, unused: set<Tokens>, matches: set<Tokens>, noMatches: set<Tokens>)
    ensures used == UsedBy(TokensOf(filters), TokensOf(elems))
    ensures matches == MatchedBy(TokensOf(filters), TokensOf(elems))
    ensures used + unused == TokensOf(filters) && used !! unused
    ensures matches + noMatches == TokensOf(elems) && matches !! noMatches
  {
    hide Tokenize;
    used, matches := {}, {};
    unused := set s | s in filters :: Tokenize(s);
    noMatches := set s | s in elems :: Tokenize(s);
    for i := 0 to |elems|
      invariant used == UsedBy(TokensOf(filters), TokensOf(elems[..i]))
      invariant matches == MatchedBy(TokensOf(filters), TokensOf(elems[..i]))
      invariant unused == TokensOf(filters) - used && noMatches == TokensOf(elems) - matches
    {
      TokensOfOneMore(elems, i);
      OneMoreElem(TokensOf(filters), TokensOf(elems[..i]), Tokenize(elems[i]));
      used, unused, matches, noMatches := MatchElem(filters, elems[i], used, unused, matches, noMatches);
    }
    assert elems[..|elems|] == elems;
    assert forall e | e in matches :: e in TokensOf(elems);
  }
}
