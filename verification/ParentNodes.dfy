/** The node a name lies in (sat/xname.py:36-42 and 145-156). */
module ParentNodes {
  import opened Options
  import opened Text
  import opened Sequences
  import opened Decimals
  import opened XNames
  import opened XNameOrder

  const NODE_LETTERS := "xcsbn"

  /** How much of `s` the letters take, each followed by as many digits as there are, but at
      least one. */
  function MatchFields(s: string, letters: string): Option<nat> {
    if letters == "" then Some(0)
    else if |s| < 2 || s[0] != letters[0] || !IsDigit(s[1]) then None
    else
      match MatchFields(AfterLeading(s[1..]), letters[1..])
      case None => None
      case Some(k) => Some(1 + |Leading(s[1..])| + k)
  }

  /** `get_parent_node`: the match of the node pattern at the start of the name, case and all. */
  function ParentNode(s: string): Option<string> {
    match MatchFields(s, NODE_LETTERS)
    case Some(k) => if k <= |s| then Some(s[..k]) else None
    case None => None
  }

  /** The first tokens are these letters, one each, and numbers. */
  predicate HasFields(toks: Tokens, letters: string) {
    letters != "" ==>
      |toks| >= 2 && toks[0] == Letters([letters[0]]) && HasFields(toks[2..], letters[1..])
  }

  /** The same of the parts of the name itself, before they are put in lower case. */
  predicate HasRawFields(parts: seq<string>, letters: string) {
    letters != "" ==>
      |parts| >= 3 && parts[0] == [letters[0]] && HasRawFields(parts[2..], letters[1..])
  }

  lemma MatchStep(s: string, letters: string) returns (digits: string, rest: string)
    requires letters != "" && MatchFields(s, letters).Some?
    ensures s == [letters[0]] + digits + rest && Digits(digits) && digits != ""
    ensures rest != "" ==> !IsDigit(rest[0])
    ensures MatchFields(rest, letters[1..]).Some?
    ensures MatchFields(s, letters).value == 1 + |digits| + MatchFields(rest, letters[1..]).value
  {
    hide Leading, AfterLeading;
    digits, rest := Leading(s[1..]), AfterLeading(s[1..]);
    assert s == [s[0]] + s[1..];
  }

  lemma {:induction false} MatchHasFields(s: string, letters: string)
    requires LowerText(letters) && MatchFields(s, letters).Some?
    ensures var k := MatchFields(s, letters).value;
            && k <= |s| && HasFields(Tokenize(s), letters) && |Tokenize(s)| >= 2 * |letters|
            && Tokenize(s[..k]) == Tokenize(s)[..2 * |letters|]
    ensures HasRawFields(SplitDigits(s), letters)
    decreases |letters|
  {
    hide MatchFields, Tokenize, SplitDigits, HasFields, HasRawFields, Leading, AfterLeading, Value;
    hide Lower, LowerText, NoDigits;
    var k := MatchFields(s, letters).value;
    if letters == "" {
      NoFields(s);
    } else {
      var digits, rest := MatchStep(s, letters);
      LowerRest(letters);
      MatchHasFields(rest, letters[1..]);
      var l := [letters[0]];
      var k' := k - 1 - |digits|;
      LowerLetter(letters);
      FirstPair(l, digits, rest);
      FirstPair(l, digits, rest[..k']);
      FieldsStep(l, digits, rest, k', letters);
      RawFieldsStep(s, digits, rest, letters);
      assert s[..k] == l + digits + rest[..k'];
    }
  }

  lemma NoFields(s: string)
    ensures MatchFields(s, "") == Some(0) && HasFields(Tokenize(s), "")
    ensures Tokenize(s[..0]) == Tokenize(s)[..0] && HasRawFields(SplitDigits(s), "")
  {
    assert s[..0] == "";
    assert Tokenize("") == [];
  }

  lemma LowerRest(letters: string)
    requires LowerText(letters) && letters != ""
    ensures LowerText(letters[1..])
  {
  }

  lemma LowerLetter(letters: string)
    requires LowerText(letters) && letters != ""
    ensures Lower([letters[0]]) == [letters[0]] && NoDigits([letters[0]])
  {
  }

  lemma FieldsStep(l: string, digits: string, rest: string, k: nat, letters: string)
    requires letters != "" && Digits(digits) && k <= |rest|
    requires HasFields(Tokenize(rest), letters[1..]) && |Tokenize(rest)| >= 2 * |letters| - 2
    requires Tokenize(rest[..k]) == Tokenize(rest)[..2 * |letters| - 2]
    requires Lower(l) == [letters[0]]
    requires Tokenize(l + digits + rest) == [Letters(Lower(l)), Number(Value(digits))] + Tokenize(rest)
    requires Tokenize(l + digits + rest[..k]) == [Letters(Lower(l)), Number(Value(digits))] + Tokenize(rest[..k])
    ensures HasFields(Tokenize(l + digits + rest), letters) && |Tokenize(l + digits + rest)| >= 2 * |letters|
    ensures Tokenize(l + digits + rest[..k]) == Tokenize(l + digits + rest)[..2 * |letters|]
  {
    hide Tokenize, Lower, Value;
    var toks := Tokenize(l + digits + rest);
    assert toks[2..] == Tokenize(rest);
  }

  lemma RawFieldsStep(s: string, digits: string, rest: string, letters: string)
    requires letters != "" && SplitDigits(s) == [[letters[0]], digits] + SplitDigits(rest)
    ensures HasRawFields(SplitDigits(s), letters) <==> HasRawFields(SplitDigits(rest), letters[1..])
  {
    hide SplitDigits;
    assert SplitDigits(s)[2..] == SplitDigits(rest);
  }

  /** Conversely the fields are found whenever the parts of the name are those of the fields. */
  lemma {:induction false} FieldsAreMatched(s: string, letters: string)
    requires HasRawFields(SplitDigits(s), letters)
    ensures MatchFields(s, letters).Some?
    decreases |letters|
  {
    hide Tokenize, SplitDigits, MatchFields, HasRawFields, NoDigits, Value, Lower;
    if letters == "" {
      NoFields(s);
    } else {
      FirstField(s, letters);
      var text, digits, rest := SplitStep(s);
      FirstPair(text, digits, rest);
      TextIsLetter(s, text, digits, rest, letters);
      RawFieldsStep(s, digits, rest, letters);
      FieldsAreMatched(rest, letters[1..]);
      MatchOneMore(s, digits, rest, letters);
    }
  }

  lemma MatchOneMore(s: string, digits: string, rest: string, letters: string)
    requires letters != "" && s == [letters[0]] + digits + rest && Digits(digits) && digits != ""
    requires Leading(digits + rest) == digits && AfterLeading(digits + rest) == rest
    requires MatchFields(rest, letters[1..]).Some?
    ensures MatchFields(s, letters).Some?
  {
    hide Leading, AfterLeading;
    assert s[0] == letters[0] && s[1] == digits[0] && s[1..] == digits + rest;
  }

  lemma FirstField(s: string, letters: string)
    requires letters != "" && HasRawFields(SplitDigits(s), letters)
    ensures !NoDigits(s)
  {
    if NoDigits(s) {
      NoSplit(s);
    }
  }

  lemma TextIsLetter(s: string, text: string, digits: string, rest: string, letters: string)
    requires letters != "" && HasRawFields(SplitDigits(s), letters)
    requires SplitDigits(s) == [text, digits] + SplitDigits(rest)
    ensures text == [letters[0]]
  {
    hide SplitDigits;
  }

  /** A name has a parent node exactly when it begins with the fields of a node as they are
      spelt in lower case; the parent's tokens are then its first ten tokens. */
  lemma ParentNodeIs(s: string)
    ensures ParentNode(s).Some? <==> HasRawFields(SplitDigits(s), NODE_LETTERS)
    ensures ParentNode(s).Some? ==>
              && HasFields(Tokenize(s), NODE_LETTERS) && |Tokenize(s)| >= 10
              && Tokenize(ParentNode(s).value) == Tokenize(s)[..10]
              && Contains(ParentNode(s).value, s)
  {
    assert LowerText(NODE_LETTERS);
    hide Tokenize, SplitDigits, Lower, MatchFields, HasFields, HasRawFields, LowerText, Contains;
    MatchIffRawFields(s, NODE_LETTERS);
    if ParentNode(s).Some? {
      MatchHasFields(s, NODE_LETTERS);
      ContainsIsPrefix(ParentNode(s).value, s);
    }
  }

  /** The pattern matches the parts it asks for, and as they stand. */
  lemma {:induction false} MatchIsParts(s: string, letters: string)
    requires LowerText(letters) && MatchFields(s, letters).Some?
    ensures |SplitDigits(s)| > 2 * |letters| && MatchFields(s, letters).value <= |s|
    ensures s[..MatchFields(s, letters).value] == Concat(SplitDigits(s)[..2 * |letters|])
    decreases |letters|
  {
    hide MatchFields, Tokenize, SplitDigits, Leading, AfterLeading, Value, Lower, LowerText, NoDigits, Concat;
    if letters == "" {
      NoFields(s);
      ConcatNone(SplitDigits(s));
    } else {
      var digits, rest := MatchStep(s, letters);
      LowerRest(letters);
      MatchIsParts(rest, letters[1..]);
      LowerLetter(letters);
      FirstPair([letters[0]], digits, rest);
      var k := MatchFields(rest, letters[1..]).value;
      var parts := SplitDigits(rest)[..2 * |letters| - 2];
      ConcatCons(digits, parts);
      ConcatCons([letters[0]], [digits] + parts);
      assert SplitDigits(s)[..2 * |letters|] == [[letters[0]]] + ([digits] + parts);
      assert s[..1 + |digits| + k] == [letters[0]] + (digits + rest[..k]);
    }
  }

  lemma {:induction false} RawFieldsAt(parts: seq<string>, letters: string)
    ensures HasRawFields(parts, letters) <==>
            |parts| > 2 * |letters| - (if letters == "" then 1 else 0)
            && forall i | 0 <= i < |letters| :: parts[2 * i] == [letters[i]]
    decreases |letters|
  {
    if letters == "" {
    } else if |parts| < 3 {
    } else {
      RawFieldsAt(parts[2..], letters[1..]);
      assert forall i | 1 <= i < |letters| :: letters[i] == letters[1..][i - 1];
      assert forall i | 1 <= i && 2 * i < |parts| :: parts[2 * i] == parts[2..][2 * (i - 1)];
      assert forall i | 0 <= i < |letters| - 1 && 2 * i + 2 < |parts| :: parts[2..][2 * i] == parts[2 * (i + 1)];
    }
  }

  lemma NodeFieldsAt(p: seq<string>)
    ensures HasRawFields(p, NODE_LETTERS) <==>
            |p| >= 11 && p[0] == "x" && p[2] == "c" && p[4] == "s" && p[6] == "b" && p[8] == "n"
  {
    hide HasRawFields;
    RawFieldsAt(p, NODE_LETTERS);
    assert NODE_LETTERS == ['x', 'c', 's', 'b', 'n'];
    if |p| >= 11 {
      assert (forall i | 0 <= i < 5 :: p[2 * i] == [NODE_LETTERS[i]]) <==>
             p[2 * 0] == ['x'] && p[2 * 1] == ['c'] && p[2 * 2] == ['s'] && p[2 * 3] == ['b'] && p[2 * 4] == ['n'];
    }
  }

  /** Written out: a name has a parent node exactly if it begins with x, c, s, b and n in lower
      case with a number after each, and the parent is what these make up, character by character. */
  lemma ParentNodeSpelt(s: string)
    ensures var p := SplitDigits(s);
            ParentNode(s).Some? <==>
            |p| >= 11 && p[0] == "x" && p[2] == "c" && p[4] == "s" && p[6] == "b" && p[8] == "n"
    ensures ParentNode(s).Some? ==>
              |SplitDigits(s)| >= 11 && ParentNode(s).value == Concat(SplitDigits(s)[..10])
  {
    assert LowerText(NODE_LETTERS);
    hide Tokenize, SplitDigits, HasFields, HasRawFields, MatchFields, LowerText, Contains, Concat;
    ParentNodeIs(s);
    NodeFieldsAt(SplitDigits(s));
    if ParentNode(s).Some? {
      MatchIsParts(s, NODE_LETTERS);
    }
  }

  lemma MatchIffRawFields(s: string, letters: string)
    requires LowerText(letters)
    ensures MatchFields(s, letters).Some? <==> HasRawFields(SplitDigits(s), letters)
    ensures MatchFields(s, letters).Some? ==> MatchFields(s, letters).value <= |s|
  {
    hide Tokenize, SplitDigits, MatchFields, HasFields, HasRawFields, LowerText;
    if MatchFields(s, letters).Some? {
      MatchHasFields(s, letters);
    } else if HasRawFields(SplitDigits(s), letters) {
      FieldsAreMatched(s, letters);
    }
  }

  /** Equal XNames need not agree: for each name with a parent there is one that has the same
      tokens and none. */
  lemma EqualNameWithoutParent(s: string) returns (u: string)
    requires ParentNode(s).Some?
    ensures Tokenize(u) == Tokenize(s) && ParentNode(u) == None
  {
    hide Tokenize, SplitDigits, Value, Leading, AfterLeading;
    var digits, rest := MatchStep(s, NODE_LETTERS);
    u := "X" + digits + rest;
    FirstPair("x", digits, rest);
    FirstPair("X", digits, rest);
    assert Lower("X") == "x" == Lower("x");
    assert u[0] == 'X';
  }

  /** Text made from tokens that have the fields is spelt as the pattern asks. */
  lemma {:induction false} FieldsPrintRaw(toks: Tokens, letters: string, first: bool)
    requires WellFormed(toks, first) && HasFields(toks, letters) && LowerText(letters)
    ensures HasRawFields(SplitDigits(Print(toks)), letters)
    decreases |letters|
  {
    hide SplitDigits, Tokenize, Value, Decimal, Lower, LowerText, NoDigits, Digits, Leading, AfterLeading;
    if letters == "" {
    } else {
      var n, rest := toks[1].n, toks[2..];
      LowerRest(letters);
      LowerLetter(letters);
      FieldsPrintRaw(rest, letters[1..], false);
      RoundTrip(rest, false);
      PrintPair(toks);
      ValueOfDecimal(n);
      FirstPair([letters[0]], Decimal(n), Print(rest));
      RawFieldsStep(Print(toks), Decimal(n), Print(rest), letters);
    }
  }

  /** All names equal to `s` agree with it on having a parent exactly when the tokens of `s` do
      not begin with the fields of a node: otherwise some spellings have one and some do not. */
  lemma SpellingMattersIff(s: string)
    ensures (forall u | Tokenize(u) == Tokenize(s) :: ParentNode(u).Some? == ParentNode(s).Some?)
       <==> !HasFields(Tokenize(s), NODE_LETTERS)
  {
    assert LowerText(NODE_LETTERS);
    hide Tokenize, SplitDigits, HasFields, HasRawFields, ParentNode, Print, LowerText, Contains;
    ParentNodeIs(s);
    if HasFields(Tokenize(s), NODE_LETTERS) {
      if ParentNode(s).Some? {
        var u := EqualNameWithoutParent(s);
      } else {
        var u := Print(Tokenize(s));
        TokenizeWellFormed(s, true);
        RoundTrip(Tokenize(s), true);
        FieldsPrintRaw(Tokenize(s), NODE_LETTERS, true);
        ParentNodeIs(u);
      }
    } else {
      forall u | Tokenize(u) == Tokenize(s) ensures ParentNode(u).None? {
        ParentNodeIs(u);
      }
    }
  }
}
