/** XName (sat/xname.py:33-240): names of components as strings, compared by their tokens.
    Letters and digits are ASCII. */
module XNames {
  import opened Options
  import opened Sequences
  import opened Text
  import opened Decimals

  /** Tokens alternate between lower-case text and numbers. */
  datatype Token = Letters(text: string) | Number(n: nat)

  type Tokens = seq<Token>

  // ----- splitting at runs of digits -----

  /** The length of the longest prefix of digits, or of characters that are no digits. */
  function Run(s: string, digits: bool): (r: nat)
    ensures r <= |s| && (forall i | 0 <= i < r :: IsDigit(s[i]) == digits)
    ensures r < |s| ==> IsDigit(s[r]) != digits
  {
    if s == "" || IsDigit(s[0]) != digits then 0 else 1 + Run(s[1..], digits)
  }

  lemma RunIs(s: string, digits: bool, n: nat)
    requires n <= |s| && (forall i | 0 <= i < n :: IsDigit(s[i]) == digits)
    requires n < |s| ==> IsDigit(s[n]) != digits
    ensures Run(s, digits) == n
  {
    hide IsDigit;
    var r := Run(s, digits);
  }

  /** The longest prefix of digits. */
  function Leading(s: string): (r: string)
    requires s != "" && IsDigit(s[0])
    ensures Digits(r) && r != "" && |r| <= |s| && (|r| < |s| ==> !IsDigit(s[|r|]))
  {
    s[..Run(s, true)]
  }

  function AfterLeading(s: string): (r: string)
    requires s != "" && IsDigit(s[0])
    ensures s == Leading(s) + r && (r != "" ==> !IsDigit(r[0]))
  {
    s[|Leading(s)|..]
  }

  /** `re.split(r'(\d+)', s)`: text and digits in turn, with text first and last. */
  function SplitDigits(s: string): (r: seq<string>)
    ensures |r| % 2 == 1
  {
    var i := Run(s, false);
    if i == |s| then [s]
    else
      [s[..i], Leading(s[i..])] + SplitDigits(AfterLeading(s[i..]))
  }

  /** The tokens of a name: what comes before and at each run of digits. */
  function Tokenize(s: string): Tokens {
    var i := Run(s, false);
    if i == |s| then []
    else
      [Letters(Lower(s[..i])), Number(Value(Leading(s[i..])))] + Tokenize(AfterLeading(s[i..]))
  }

  predicate NoDigits(s: string) {
    forall i | 0 <= i < |s| :: !IsDigit(s[i])
  }

  /** One turn of both: text, digits, and a rest that does not go on with a digit. */
  lemma SplitStep(s: string) returns (text: string, digits: string, rest: string)
    requires !NoDigits(s)
    ensures s == text + digits + rest && NoDigits(text) && Digits(digits) && digits != ""
    ensures rest != "" ==> !IsDigit(rest[0])
    ensures SplitDigits(s) == [text, digits] + SplitDigits(rest)
    ensures Tokenize(s) == [Letters(Lower(text)), Number(Value(digits))] + Tokenize(rest)
  {
    hide Run, Leading, AfterLeading, Value, Lower, NoDigits;
    text, digits, rest := SplitShape(s);
  }

  lemma SplitShape(s: string) returns (text: string, digits: string, rest: string)
    requires !NoDigits(s)
    ensures Run(s, false) < |s|
    ensures text == s[..Run(s, false)] && digits == Leading(s[Run(s, false)..])
    ensures rest == AfterLeading(s[Run(s, false)..])
    ensures s == text + digits + rest && NoDigits(text)
  {
    hide Leading, AfterLeading;
    var i := Run(s, false);
    text, digits, rest := s[..i], Leading(s[i..]), AfterLeading(s[i..]);
    assert s == s[..i] + s[i..];
  }

  lemma NoSplit(s: string)
    requires NoDigits(s)
    ensures SplitDigits(s) == [s] && Tokenize(s) == []
  {
  }

  /** `tokens`: the split list, its last element dropped, is rewritten in place. */
  method GetTokens(xname: string) returns (toks: Tokens)
    ensures toks == Tokenize(xname)
  {
    hide SplitDigits, Tokenize, Value, Lower, Digits;
    TokenizeIsSplit(xname);
    var parts := SplitDigits(xname);
    parts := parts[..|parts| - 1];
    toks := seq(|parts|, i requires 0 <= i < |parts| => Letters(parts[i]));
    for i := 0 to |parts|
      invariant |toks| == |parts|
      invariant forall k | 0 <= k < i :: toks[k] == TokenAt(parts, k)
      invariant forall k | i <= k < |parts| :: toks[k] == Letters(parts[k])
    {
      if i % 2 == 1 {
        toks := toks[i := Number(Value(toks[i].text))];
      } else {
        toks := toks[i := Letters(Lower(toks[i].text))];
      }
    }
    assert toks == Tokenize(xname);
  }

  function TokenAt(parts: seq<string>, i: nat): Token
    requires i < |parts| && (i % 2 == 1 ==> Digits(parts[i]))
  {
    if i % 2 == 1 then Number(Value(parts[i])) else Letters(Lower(parts[i]))
  }

  lemma {:induction false} TokenizeIsSplit(s: string)
    decreases |s|
    ensures |Tokenize(s)| == |SplitDigits(s)| - 1
    ensures forall i | 0 <= i < |Tokenize(s)| && i % 2 == 1 :: Digits(SplitDigits(s)[i])
    ensures forall i | 0 <= i < |Tokenize(s)| :: Tokenize(s)[i] == TokenAt(SplitDigits(s), i)
  {
    hide SplitDigits, Tokenize, Value, Lower, Digits, NoDigits;
    if NoDigits(s) {
      NoSplit(s);
    } else {
      var text, digits, rest := SplitStep(s);
      TokenizeIsSplit(rest);
      assert forall k | 2 <= k < |Tokenize(s)| ::
        Tokenize(s)[k] == Tokenize(rest)[k - 2] && SplitDigits(s)[k] == SplitDigits(rest)[k - 2];
    }
  }

  /** The parts of a name make it up: text without digits and runs of digits in turn. */
  lemma {:induction false} SplitDigitsIs(s: string)
    ensures Concat(SplitDigits(s)) == s
    ensures forall i | 0 <= i < |SplitDigits(s)| ::
              if i % 2 == 0 then NoDigits(SplitDigits(s)[i])
              else Digits(SplitDigits(s)[i]) && SplitDigits(s)[i] != ""
    ensures forall i | 0 < i < |SplitDigits(s)| - 1 && i % 2 == 0 :: SplitDigits(s)[i] != ""
    decreases |s|
  {
    hide SplitDigits, Tokenize, Value, Lower, Digits, NoDigits;
    if NoDigits(s) {
      NoSplit(s);
      ConcatOne(s);
    } else {
      var text, digits, rest := SplitStep(s);
      SplitDigitsIs(rest);
      ConcatCons(digits, SplitDigits(rest));
      ConcatCons(text, [digits] + SplitDigits(rest));
      assert [text, digits] + SplitDigits(rest) == [text] + ([digits] + SplitDigits(rest));
      FirstNotEmpty(rest);
    }
  }

  /** Where more parts follow, the text at the front is empty only before a digit. */
  lemma FirstNotEmpty(s: string)
    requires s == "" || !IsDigit(s[0])
    ensures |SplitDigits(s)| > 1 ==> SplitDigits(s)[0] != ""
  {
  }

  // ----- printing -----

  function PrintToken(t: Token): string {
    match t
    case Letters(text) => text
    case Number(n) => Decimal(n)
  }

  /** `get_xname_from_tokens`. */
  function Print(toks: Tokens): string {
    if toks == [] then "" else PrintToken(toks[0]) + Print(toks[1..])
  }

  predicate LowerText(s: string) {
    forall i | 0 <= i < |s| :: !IsDigit(s[i]) && LowerChar(s[i]) == s[i]
  }

  /** Pairs of lower-case text and a number; only the first text may be empty. */
  predicate WellFormed(toks: Tokens, first: bool) {
    toks != [] ==>
      && |toks| >= 2 && toks[0].Letters? && toks[1].Number?
      && LowerText(toks[0].text) && (!first ==> toks[0].text != "")
      && WellFormed(toks[2..], false)
  }

  lemma LowerIsLowerText(s: string)
    requires NoDigits(s)
    ensures LowerText(Lower(s))
  {
  }

  lemma {:induction false} TokenizeWellFormed(s: string, first: bool)
    requires !first && s != "" ==> !IsDigit(s[0])
    ensures WellFormed(Tokenize(s), first)
    decreases |s|
  {
    hide SplitDigits, Tokenize, Value, LowerText, Lower;
    if NoDigits(s) {
      NoSplit(s);
    } else {
      var text, digits, rest := SplitStep(s);
      TokenizeWellFormed(rest, false);
      LowerIsLowerText(text);
      assert Tokenize(s)[2..] == Tokenize(rest);
    }
  }

  lemma {:induction false} PrefixWellFormed(toks: Tokens, n: nat, first: bool)
    requires WellFormed(toks, first) && n <= |toks| && n % 2 == 0
    ensures WellFormed(toks[..n], first)
  {
    if n == 0 {
    } else {
      PrefixWellFormed(toks[2..], n - 2, false);
      assert toks[..n][2..] == toks[2..][..n - 2];
    }
  }

  lemma PrintPair(toks: Tokens)
    requires |toks| >= 2
    ensures Print(toks) == PrintToken(toks[0]) + PrintToken(toks[1]) + Print(toks[2..])
  {
    assert toks[1..][1..] == toks[2..];
  }

  /** Well-formed tokens come back when their text is tokenized again. */
  lemma {:induction false} RoundTrip(toks: Tokens, first: bool)
    requires WellFormed(toks, first)
    ensures Tokenize(Print(toks)) == toks
    ensures !first && toks != [] ==> Print(toks) != "" && !IsDigit(Print(toks)[0])
  {
    if toks == [] {
    } else {
      hide Tokenize, SplitDigits, Value, Decimal, Print, Lower, Leading, AfterLeading;
      var text, n, rest := toks[0].text, toks[1].n, toks[2..];
      RoundTrip(rest, false);
      PrintPair(toks);
      ValueOfDecimal(n);
      FirstPair(text, Decimal(n), Print(rest));
      LowerOfLowerText(text);
      assert toks == [toks[0], toks[1]] + rest;
    }
  }

  /** These parts are the texts of the tokens and their numbers in decimal. */
  predicate PartsAre(toks: Tokens, parts: seq<string>) {
    && |parts| == |toks| + 1 && parts[|toks|] == ""
    && forall i | 0 <= i < |toks| ::
         if i % 2 == 0 then toks[i] == Letters(parts[i])
         else toks[i].Number? && parts[i] == Decimal(toks[i].n)
  }

  lemma PartsAreCons(text: string, n: nat, toks: Tokens, parts: seq<string>)
    requires PartsAre(toks, parts)
    ensures PartsAre([Letters(text), Number(n)] + toks, [text, Decimal(n)] + parts)
  {
    hide Decimal;
    var allToks, allParts := [Letters(text), Number(n)] + toks, [text, Decimal(n)] + parts;
    assert forall i | 2 <= i < |allToks| :: allToks[i] == toks[i - 2] && allParts[i] == parts[i - 2];
  }

  /** The text made from tokens splits into just these parts. */
  lemma {:induction false} PrintParts(toks: Tokens, first: bool)
    requires WellFormed(toks, first)
    ensures PartsAre(toks, SplitDigits(Print(toks)))
  {
    hide Tokenize, SplitDigits, Value, Decimal, Print, Lower, Leading, AfterLeading;
    EmptyName();
    if toks == [] {
    } else {
      hide PartsAre;
      var text, n, rest := toks[0].text, toks[1].n, toks[2..];
      PrintParts(rest, false);
      RoundTrip(rest, false);
      PrintPair(toks);
      ValueOfDecimal(n);
      LowerOfLowerText(text);
      FirstPair(text, Decimal(n), Print(rest));
      PartsAreCons(text, n, rest, SplitDigits(Print(rest)));
      assert toks == [Letters(text), Number(n)] + rest;
    }
  }

  /** Leading zeros are lost when a name is rebuilt from its tokens. */
  lemma RebuiltExample()
    ensures Tokenize("x0001c0") == [Letters("x"), Number(1), Letters("c"), Number(0)]
    ensures Print(Tokenize("x0001c0")) == "x1c0"
  {
    ExampleTokens();
    hide Tokenize;
    var toks := [Letters("x"), Number(1), Letters("c"), Number(0)];
    assert toks[2..] == [Letters("c"), Number(0)] && toks[2..][2..] == [];
    PrintPair(toks);
    PrintPair(toks[2..]);
    assert Decimal(1) == "1" && Decimal(0) == "0" && Print([]) == "";
  }

  lemma ExamplePair(letter: string, digits: string, rest: string)
    requires |letter| == 1 && 'a' <= letter[0] <= 'z'
    requires Digits(digits) && digits != "" && (rest != "" ==> !IsDigit(rest[0]))
    ensures Tokenize(letter + digits + rest) == [Letters(letter), Number(Value(digits))] + Tokenize(rest)
  {
    assert Lower(letter) == letter;
    hide Tokenize, SplitDigits, Lower, Value, Leading, AfterLeading;
    FirstPair(letter, digits, rest);
  }

  lemma EmptyName()
    ensures Tokenize("") == [] && SplitDigits("") == [""] && Print([]) == ""
  {
  }

  lemma ExampleTokens()
    ensures Tokenize("x0001c0") == [Letters("x"), Number(1), Letters("c"), Number(0)]
  {
    hide Tokenize, SplitDigits, Value, Leading, AfterLeading;
    EmptyName();
    ExampleValues();
    ExamplePair("c", "0", "");
    assert "c" + "0" + "" == "c0";
    ExamplePair("x", "0001", "c0");
    assert "x" + "0001" + "c0" == "x0001c0";
  }

  lemma ExampleValues()
    ensures Value("0001") == 1 && Value("0") == 0
  {
    ValueIsPlaced("0001");
    ValueIsPlaced("001");
    ValueIsPlaced("01");
    ValueIsPlaced("1");
    ValueIsPlaced("0");
    hide Value;
    assert "0001"[1..] == "001" && "001"[1..] == "01" && "01"[1..] == "1";
    assert Value("") == 0 by { ValueIsPlaced(""); }
    assert "1"[1..] == "" && "0"[1..] == "";
  }

  lemma LowerOfLowerText(s: string)
    requires LowerText(s)
    ensures NoDigits(s) && Lower(s) == s
  {
  }

  lemma FirstPair(text: string, digits: string, rest: string)
    requires NoDigits(text) && Digits(digits) && digits != "" && (rest != "" ==> !IsDigit(rest[0]))
    ensures Tokenize(text + digits + rest) == [Letters(Lower(text)), Number(Value(digits))] + Tokenize(rest)
    ensures SplitDigits(text + digits + rest) == [text, digits] + SplitDigits(rest)
    ensures Leading(digits + rest) == digits && AfterLeading(digits + rest) == rest
  {
    hide Lower, Value;
    var s := text + digits + rest;
    assert s[|text|] == digits[0];
    RunIs(s, false, |text|);
    assert s[|text|..] == digits + rest;
    RunIs(digits + rest, true, |digits|);
    assert s[..|text|] == text;
    assert (digits + rest)[..|digits|] == digits && (digits + rest)[|digits|..] == rest;
  }

  /** Rebuilding a name from its tokens, or from its first tokens, keeps those tokens. */
  lemma PrefixRoundTrip(s: string, n: nat)
    requires n <= |Tokenize(s)| && n % 2 == 0
    ensures Tokenize(Print(Tokenize(s)[..n])) == Tokenize(s)[..n]
  {
    TokenizeWellFormed(s, true);
    PrefixWellFormed(Tokenize(s), n, true);
    RoundTrip(Tokenize(s)[..n], true);
  }

  lemma TokenCountEven(s: string)
    ensures |Tokenize(s)| % 2 == 0
  {
    hide Tokenize, SplitDigits;
    TokenizeIsSplit(s);
  }

  // ----- ancestors -----

  /** `toks[:-n]`: a negative bound counts from the end, but -0 is 0. */
  function DropLast(toks: Tokens, n: int): Tokens
    requires n < |toks|
  {
    if n > 0 then toks[..|toks| - n]
    else if -n <= |toks| then toks[..-n]
    else toks
  }

  /** `get_ancestor`; None stands for ValueError. */
  function Ancestor(s: string, levels: int): Option<string> {
    var toks := Tokenize(s);
    if 2 * levels >= |toks| then None else Some(Print(DropLast(toks, 2 * levels)))
  }

  /** One ancestor after another. */
  function AncestorOf(s: Option<string>, levels: int): Option<string> {
    match s
    case None => None
    case Some(name) => Ancestor(name, levels)
  }

  lemma AncestorTokens(s: string, levels: nat)
    requires levels > 0 && 2 * levels < |Tokenize(s)|
    ensures Ancestor(s, levels).Some?
    ensures Tokenize(Ancestor(s, levels).value) == Tokenize(s)[..|Tokenize(s)| - 2 * levels]
  {
    hide Tokenize, Print;
    TokenCountEven(s);
    PrefixRoundTrip(s, |Tokenize(s)| - 2 * levels);
  }

  lemma AncestorZero(s: string)
    ensures Ancestor(s, 0) == if Tokenize(s) == [] then None else Some("")
  {
  }

  /** A negative number of levels keeps as many pairs of tokens from the front. */
  lemma AncestorBelow(s: string, levels: int)
    requires levels < 0
    ensures Ancestor(s, levels).Some?
    ensures Tokenize(Ancestor(s, levels).value)
         == if -2 * levels <= |Tokenize(s)| then Tokenize(s)[..-2 * levels] else Tokenize(s)
  {
    hide Tokenize, Print;
    TokenCountEven(s);
    PrefixRoundTrip(s, if -2 * levels <= |Tokenize(s)| then -2 * levels else |Tokenize(s)|);
    assert Tokenize(s)[..|Tokenize(s)|] == Tokenize(s);
  }

  lemma ComposeUp(s: string, a: nat, b: nat)
    requires a > 0 && b > 0
    ensures AncestorOf(Ancestor(s, a), b) == Ancestor(s, a + b)
  {
    hide Tokenize, Print;
    var toks := Tokenize(s);
    if 2 * a < |toks| {
      AncestorTokens(s, a);
      if 2 * (a + b) < |toks| {
        DropTwice(toks, 2 * a, 2 * b);
      }
    }
  }

  lemma DropTwice(toks: Tokens, m: nat, n: nat)
    requires m + n <= |toks|
    ensures toks[..|toks| - m][..|toks| - m - n] == toks[..|toks| - (m + n)]
  {
  }

  /** An ancestor above the name itself is not the empty name. */
  lemma AncestorNotEmpty(s: string, levels: nat)
    requires levels > 0 && Ancestor(s, levels).Some?
    ensures Ancestor(s, levels) != Some("")
  {
    AncestorTokens(s, levels);
    assert Tokenize("") == [];
  }

  lemma ComposeZero(s: string, a: nat, b: nat)
    requires a == 0 || b == 0
    ensures AncestorOf(Ancestor(s, a), b) == Ancestor(s, a + b) <==> 2 * (a + b) >= |Tokenize(s)|
  {
    assert Ancestor("", b) == None by { assert Tokenize("") == []; }
    hide Tokenize, Print;
    if a == 0 {
      AncestorZero(s);
    } else if Ancestor(s, a).Some? {
      AncestorZero(Ancestor(s, a).value);
      AncestorNotEmpty(s, a);
    }
  }

  /** Going up `a` levels and then `b` is going up `a + b`, exactly when both are at least
      one or there are not that many levels anyway. */
  lemma AncestorsCompose(s: string, a: nat, b: nat)
    ensures AncestorOf(Ancestor(s, a), b) == Ancestor(s, a + b)
       <==> (a > 0 && b > 0) || 2 * (a + b) >= |Tokenize(s)|
  {
    if a > 0 && b > 0 {
      ComposeUp(s, a, b);
    } else {
      ComposeZero(s, a, b);
    }
  }
}
