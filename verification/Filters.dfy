/** The filter grammar of sat/filtering.py:366-396 over tokens, and the evaluation of the
    filters it builds (sat/filtering.py:125-145). `C` stands for the comparisons. */
module Filters {
  import opened Options

  datatype Token<C> = Cmp(c: C) | And | Or

  datatype Filter<C> =
    | Comparison(c: C)
    | Combined(combinator: Combinator, lhs: Filter<C>, rhs: Filter<C>)

  datatype Combinator = All | Any

  /** What evaluating a filter on a row comes to; a comparison may raise KeyError or TypeError. */
  datatype Outcome = True | False | Raises

  type Parsed<C> = Option<(Filter<C>, seq<Token<C>>)>

  // ----- the parsers -----

  function ParseComparison<C>(toks: seq<Token<C>>): Parsed<C> {
    if toks != [] && toks[0].Cmp? then Some((Comparison(toks[0].c), toks[1..])) else None
  }

  /** `bool_and_expr`: a comparison, `and`, and `bool_and_expr ^ comparison`. */
  function ParseAnd<C>(toks: seq<Token<C>>): Parsed<C>
    decreases |toks|, 0
  {
    match ParseComparison(toks)
    case None => None
    case Some((lhs, rest)) =>
      if rest == [] || !rest[0].And? then None
      else
        match ParseAndOrComparison(rest[1..])
        case None => None
        case Some((rhs, more)) => Some((Combined(All, lhs, rhs), more))
  }

  /** `bool_and_expr ^ comparison`: the second where the first fails. */
  function ParseAndOrComparison<C>(toks: seq<Token<C>>): Parsed<C>
    decreases |toks|, 1
  {
    match ParseAnd(toks)
    case Some(r) => Some(r)
    case None => ParseComparison(toks)
  }

  /** `bool_expr`. */
  function ParseBool<C>(toks: seq<Token<C>>): Parsed<C>
    decreases |toks|, 0
  {
    match ParseAndOrComparison(toks)
    case None => None
    case Some((lhs, rest)) =>
      if rest == [] then Some((lhs, rest))
      else if rest[0].Cmp? then None
      else
        RestIsShorter(toks);
        match ParseExpr(rest[1..])
        case None => None
        case Some((rhs, more)) => Some((Combined(if rest[0].And? then All else Any, lhs, rhs), more))
  }

  /** `bool_expr ^ comparison`. */
  function ParseExpr<C>(toks: seq<Token<C>>): Parsed<C>
    decreases |toks|, 1
  {
    match ParseBool(toks)
    case Some(r) => Some(r)
    case None => ParseComparison(toks)
  }

  /** `parse_strict`: the whole input must be used. */
  function ParseStrict<C>(toks: seq<Token<C>>): Option<Filter<C>> {
    match ParseExpr(toks)
    case Some((f, rest)) => if rest == [] then Some(f) else None
    case None => None
  }

  lemma {:induction false} RestIsShorter<C>(toks: seq<Token<C>>)
    ensures ParseAndOrComparison(toks).Some? ==> |ParseAndOrComparison(toks).value.1| < |toks|
    decreases |toks|
  {
    if |toks| < 2 {
    } else {
      RestIsShorter(toks[2..]);
    }
  }

  // ----- evaluation -----

  /** `combinator(filter_fn(row) for filter_fn in filter_fns)` stops at the first value that decides. */
  function Eval<C>(test: C -> Outcome, f: Filter<C>): Outcome {
    match f
    case Comparison(c) => test(c)
    case Combined(All, lhs, rhs) => if Eval(test, lhs) == True then Eval(test, rhs) else Eval(test, lhs)
    case Combined(Any, lhs, rhs) => if Eval(test, lhs) == False then Eval(test, rhs) else Eval(test, lhs)
  }

  // ----- what a query means -----

  /** Comparisons with `and` or `or` between each two. */
  predicate Alternating<C>(toks: seq<Token<C>>) {
    && toks != [] && toks[0].Cmp?
    && (|toks| > 1 ==> !toks[1].Cmp? && Alternating(toks[2..]))
  }

  /** The comparisons, a new list beginning after each `or`. */
  function Runs<C>(toks: seq<Token<C>>): (r: seq<seq<C>>)
    requires Alternating(toks)
    ensures r != []
  {
    if |toks| == 1 then [[toks[0].c]]
    else
      var rest := Runs(toks[2..]);
      if toks[1].And? then [[toks[0].c] + rest[0]] + rest[1..] else [[toks[0].c]] + rest
  }

  /** The tokens stand for comparisons and operators in turn, a comparison first and last. */
  lemma {:induction false} AlternatingIs<C>(toks: seq<Token<C>>)
    ensures Alternating(toks) <==> |toks| % 2 == 1 && forall i | 0 <= i < |toks| :: toks[i].Cmp? <==> i % 2 == 0
  {
    if |toks| <= 1 {
    } else {
      AlternatingIs(toks[2..]);
      assert forall i | 2 <= i < |toks| :: toks[i] == toks[2..][i - 2];
      assert forall i | 0 <= i < |toks| - 2 :: toks[2..][i] == toks[i + 2];
    }
  }

  /** A query written from its runs: `and` within a run, `or` between runs. */
  function WrittenRun<C>(cs: seq<C>): seq<Token<C>> {
    if cs == [] then [] else if |cs| == 1 then [Cmp(cs[0])] else [Cmp(cs[0]), And] + WrittenRun(cs[1..])
  }

  function WrittenRuns<C>(runs: seq<seq<C>>): seq<Token<C>> {
    if runs == [] then []
    else if |runs| == 1 then WrittenRun(runs[0])
    else WrittenRun(runs[0]) + [Or] + WrittenRuns(runs[1..])
  }

  lemma WrittenRunCons<C>(c: C, run: seq<C>, rest: seq<seq<C>>)
    requires run != []
    ensures WrittenRuns([[c] + run] + rest) == [Cmp(c), And] + WrittenRuns([run] + rest)
  {
    assert ([c] + run)[1..] == run;
    assert ([[c] + run] + rest)[1..] == rest && ([run] + rest)[1..] == rest;
  }

  /** The runs of a query are the ones it is written from: all its comparisons, in order. */
  lemma {:induction false} RunsSpell<C>(toks: seq<Token<C>>)
    requires Alternating(toks)
    ensures WrittenRuns(Runs(toks)) == toks
    ensures forall run | run in Runs(toks) :: run != []
    decreases |toks|
  {
    if |toks| == 1 {
    } else {
      var rest := Runs(toks[2..]);
      RunsSpell(toks[2..]);
      assert rest == [rest[0]] + rest[1..];
      assert toks == [toks[0], toks[1]] + toks[2..];
      if toks[1].And? {
        WrittenRunCons(toks[0].c, rest[0], rest[1..]);
        assert forall run | run in rest[1..] :: run in rest;
      } else {
        assert ([[toks[0].c]] + rest)[1..] == rest;
      }
    }
  }

  /** Tests from left to right up to the first that is not True. */
  function AllOf<C>(test: C -> Outcome, cs: seq<C>): Outcome {
    if cs == [] then True else if test(cs[0]) == True then AllOf(test, cs[1..]) else test(cs[0])
  }

  /** Runs from left to right up to the first that is not False. */
  function AnyOf<C>(test: C -> Outcome, runs: seq<seq<C>>): Outcome {
    if runs == [] then False
    else if AllOf(test, runs[0]) == False then AnyOf(test, runs[1..])
    else AllOf(test, runs[0])
  }

  // ----- the parsers accept the alternating queries, and only those -----

  /** What a parser has used up is an alternating query. */
  ghost predicate Used<C>(toks: seq<Token<C>>, r: Parsed<C>) {
    r.Some? ==>
      && |r.value.1| < |toks|
      && toks[|toks| - |r.value.1|..] == r.value.1
      && Alternating(toks[..|toks| - |r.value.1|])
  }

  lemma UsedAfterOperator<C>(toks: seq<Token<C>>, lhs: Parsed<C>, r: Parsed<C>)
    requires Used(toks, lhs) && lhs.Some? && lhs.value.1 != [] && !lhs.value.1[0].Cmp?
    requires Used(lhs.value.1[1..], r) && r.Some?
    ensures Used(toks, r)
  {
    var rest := lhs.value.1;
    var a := toks[..|toks| - |rest|];
    var b := rest[1..][..|rest| - 1 - |r.value.1|];
    assert toks[..|toks| - |r.value.1|] == a + [rest[0]] + b;
    AlternatingConcat(a, rest[0], b);
  }

  lemma {:induction false} AlternatingConcat<C>(a: seq<Token<C>>, op: Token<C>, b: seq<Token<C>>)
    requires Alternating(a) && !op.Cmp? && Alternating(b)
    ensures Alternating(a + [op] + b)
  {
    var s := a + [op] + b;
    if |a| == 1 {
      assert s[2..] == b;
    } else {
      AlternatingConcat(a[2..], op, b);
      assert s[2..] == a[2..] + [op] + b;
    }
  }

  lemma {:induction false} AndUsed<C>(toks: seq<Token<C>>)
    ensures Used(toks, ParseAndOrComparison(toks)) && Used(toks, ParseComparison(toks))
    decreases |toks|
  {
    ComparisonUsed(toks);
    if ParseAnd(toks).Some? {
      AndUsed(toks[1..][1..]);
      UsedAfterOperator(toks, ParseComparison(toks), ParseAndOrComparison(toks[1..][1..]));
    }
  }

  lemma ComparisonUsed<C>(toks: seq<Token<C>>)
    ensures Used(toks, ParseComparison(toks))
  {
  }

  lemma {:induction false} ExprUsed<C>(toks: seq<Token<C>>)
    ensures Used(toks, ParseExpr(toks))
    decreases |toks|
  {
    AndUsed(toks);
    if ParseBool(toks).Some? && ParseAndOrComparison(toks).value.1 != [] {
      var rest := ParseAndOrComparison(toks).value.1;
      ExprUsed(rest[1..]);
      UsedAfterOperator(toks, ParseAndOrComparison(toks), ParseExpr(rest[1..]));
    }
  }

  // ----- and what they build means what the query means -----

  /** The first run of an alternating query is parsed to its end. */
  lemma {:induction false} AndRun<C>(toks: seq<Token<C>>, test: C -> Outcome)
    requires Alternating(toks)
    ensures var r := ParseAndOrComparison(toks);
            && r.Some? && (var (f, rest) := r.value;
            && Eval(test, f) == AllOf(test, Runs(toks)[0])
            && |rest| < |toks|
            && (rest == [] ==> |Runs(toks)| == 1)
            && (rest != [] ==> rest[0].Or? && Alternating(rest[1..]) && Runs(toks)[1..] == Runs(rest[1..])))
    decreases |toks|
  {
    if |toks| == 1 {
      assert Runs(toks)[0][1..] == [];
    } else if toks[1].And? {
      AndRun(toks[2..], test);
      var run := Runs(toks)[0];
      assert toks[1..][1..] == toks[2..] && run[1..] == Runs(toks[2..])[0];
    } else {
      assert toks[1..][1..] == toks[2..];
      assert Runs(toks)[0][1..] == [];
    }
  }

  lemma {:induction false} ExprMeans<C>(toks: seq<Token<C>>, test: C -> Outcome)
    requires Alternating(toks)
    ensures ParseExpr(toks).Some? && ParseExpr(toks).value.1 == []
    ensures Eval(test, ParseExpr(toks).value.0) == AnyOf(test, Runs(toks))
    decreases |toks|
  {
    AndRun(toks, test);
    var (f, rest) := ParseAndOrComparison(toks).value;
    if rest == [] {
      assert Runs(toks)[1..] == [];
    } else {
      ExprMeans(rest[1..], test);
    }
  }

  /** A query is accepted exactly when it alternates, and the filter then evaluates, errors
      included, as the `or` of its runs of `and`, from left to right. */
  lemma ParseMeans<C>(toks: seq<Token<C>>, test: C -> Outcome)
    ensures ParseStrict(toks).Some? <==> Alternating(toks)
    ensures Alternating(toks) ==> Eval(test, ParseStrict(toks).value) == AnyOf(test, Runs(toks))
  {
    if Alternating(toks) {
      ExprMeans(toks, test);
    }
    ExprUsed(toks);
    if ParseStrict(toks).Some? {
      assert toks[..|toks|] == toks;
    }
  }

  /** The tests go on while they are True, and the first that is not is the outcome. */
  lemma {:induction false} AllOfStops<C>(test: C -> Outcome, cs: seq<C>, i: nat)
    requires i <= |cs| && forall j | 0 <= j < i :: test(cs[j]) == True
    requires i < |cs| ==> test(cs[i]) != True
    ensures AllOf(test, cs) == if i == |cs| then True else test(cs[i])
  {
    if i == 0 {
    } else {
      assert forall j | 0 <= j < |cs| - 1 :: cs[1..][j] == cs[j + 1];
      AllOfStops(test, cs[1..], i - 1);
    }
  }

  /** The runs are tried while they are False, and the first that is not is the outcome. */
  lemma {:induction false} AnyOfStops<C>(test: C -> Outcome, runs: seq<seq<C>>, i: nat)
    requires i <= |runs| && forall j | 0 <= j < i :: AllOf(test, runs[j]) == False
    requires i < |runs| ==> AllOf(test, runs[i]) != False
    ensures AnyOf(test, runs) == if i == |runs| then False else AllOf(test, runs[i])
  {
    if i == 0 {
    } else {
      assert forall j | 0 <= j < |runs| - 1 :: runs[1..][j] == runs[j + 1];
      AnyOfStops(test, runs[1..], i - 1);
    }
  }

  predicate NoneRaises<C>(test: C -> Outcome, cs: seq<C>) {
    forall j | 0 <= j < |cs| :: test(cs[j]) != Raises
  }

  predicate AllTrue<C>(test: C -> Outcome, cs: seq<C>) {
    forall j | 0 <= j < |cs| :: test(cs[j]) == True
  }

  lemma {:induction false} AllOfIsConjunction<C>(test: C -> Outcome, cs: seq<C>)
    requires NoneRaises(test, cs)
    ensures AllOf(test, cs) == if AllTrue(test, cs) then True else False
  {
    if cs == [] {
    } else {
      AllOfIsConjunction(test, cs[1..]);
      assert forall j | 0 < j < |cs| :: cs[1..][j - 1] == cs[j];
    }
  }

  /** On rows where no comparison raises, that is: some run is True throughout. */
  lemma {:induction false} AnyOfIsDisjunction<C>(test: C -> Outcome, runs: seq<seq<C>>)
    requires forall i | 0 <= i < |runs| :: NoneRaises(test, runs[i])
    ensures AnyOf(test, runs) == if exists i | 0 <= i < |runs| :: AllTrue(test, runs[i]) then True else False
  {
    if runs == [] {
    } else {
      AllOfIsConjunction(test, runs[0]);
      AnyOfIsDisjunction(test, runs[1..]);
      assert forall i | 0 < i < |runs| :: runs[1..][i - 1] == runs[i];
    }
  }

  // ----- the `and` branch of bool_expr -----

  /** A run is parsed as far as it goes: an `and` is left over only when no comparison follows it. */
  lemma {:induction false} AndIsMaximal<C>(toks: seq<Token<C>>)
    ensures ParseAndOrComparison(toks).Some? ==>
              var rest := ParseAndOrComparison(toks).value.1;
              rest != [] && rest[0].And? ==> ParseComparison(rest[1..]).None?
    decreases |toks|
  {
    if |toks| < 2 {
    } else {
      AndIsMaximal(toks[1..][1..]);
    }
  }

  /** So `bool_expr` never succeeds by way of its `and` branch. */
  lemma AndBranchNeverSucceeds<C>(toks: seq<Token<C>>)
    requires ParseAndOrComparison(toks).Some?
    requires var rest := ParseAndOrComparison(toks).value.1; rest != [] && rest[0].And?
    ensures ParseBool(toks).None?
  {
    AndIsMaximal(toks);
    var after := ParseAndOrComparison(toks).value.1[1..];
    assert ParseAndOrComparison(after).None?;
    assert ParseExpr(after).None?;
  }
}
