/** What a nid list denotes, and that conversion, splitting and parsing compute it
    (sat/cli/nid2xname/main.py:71-112 and 239-253). */
module NidLists {
  import opened Options
  import opened Text
  import opened Decimals
  import opened Nids
  import opened NidItems

  // ----- parsing one argument -----

  /** `fixup_nid`. */
  function FixupNid(nid: string): string {
    Canonical(if "nid" <= nid then nid[3..] else nid)
  }

  /** `int(s)`, or ValueError. */
  function ParseInt(s: string): Option<nat> {
    if s != "" && Digits(s) then Some(Value(s)) else None
  }

  function Interval(lo: nat, hi: nat): seq<nat>
    decreases hi - lo
  {
    if lo > hi then [] else [lo] + Interval(lo + 1, hi)
  }

  /** It lists the numbers from `lo` to `hi`. */
  lemma {:induction false} IntervalIs(lo: nat, hi: nat)
    ensures |Interval(lo, hi)| == if lo <= hi then hi - lo + 1 else 0
    ensures forall i | 0 <= i < |Interval(lo, hi)| :: Interval(lo, hi)[i] == lo + i
    decreases hi - lo
  {
    if lo > hi {
    } else {
      IntervalIs(lo + 1, hi);
    }
  }

  function DecimalsOf(ns: seq<nat>): (r: seq<string>)
    ensures |r| == |ns| && forall i | 0 <= i < |ns| :: r[i] == Decimal(ns[i])
  {
    seq(|ns|, i requires 0 <= i < |ns| => Decimal(ns[i]))
  }

  function ParseNidArg(arg: string): seq<string> {
    var i := IndexOf(arg, '-');
    var range :=
      if i == |arg| then []
      else
        match (ParseInt(FixupNid(arg[..i])), ParseInt(FixupNid(arg[i + 1..])))
        case (Some(lo), Some(hi)) => DecimalsOf(Interval(lo, hi))
        case _ => [];
    if range == [] then [FixupNid(arg)] else range
  }

  function ParsePart(part: string): seq<string> {
    if part == "" then [] else ParseNidArg(part)
  }

  function ParseParts(parts: seq<string>): seq<string> {
    if parts == [] then [] else ParsePart(parts[0]) + ParseParts(parts[1..])
  }

  /** The nids looked up for one argument of the command. */
  function NidsOf(arg: string): seq<string> {
    ParseParts(Split(Convert(arg), ','))
  }

  // ----- what a list denotes -----

  /** A run of digits, with or without `nid` before it. */
  datatype Nid = Nid(named: bool, digits: string)

  datatype NidItem =
    | Single(nid: Nid)
    | Range(lo: Nid, hi: Nid)
    | Pdsh(prefix: Nid, elems: seq<Elem>)

  datatype Elem = One(digits: string) | Span(lo: string, hi: string)

  predicate Numeral(s: string) {
    Digits(s) && s != ""
  }

  /** Numerals where the documentation asks for numbers. The prefix of a bracketed list may
      have digits of its own. */
  predicate Numeric(item: NidItem) {
    match item
    case Single(n) => Numeral(n.digits)
    case Range(lo, hi) => Numeral(lo.digits) && Numeral(hi.digits)
    case Pdsh(prefix, elems) =>
      Digits(prefix.digits) && elems != [] && forall e | e in elems :: NumericElem(e)
  }

  predicate NumericElem(e: Elem) {
    match e
    case One(d) => Numeral(d)
    case Span(lo, hi) => Numeral(lo) && Numeral(hi)
  }

  /** A range, or a range in brackets, that goes down. */
  predicate Descends(item: NidItem)
    requires Numeric(item)
  {
    match item
    case Single(_) => false
    case Range(lo, hi) => Value(lo.digits) > Value(hi.digits)
    case Pdsh(prefix, elems) => exists e | e in elems :: DescendingElem(prefix, e)
  }

  predicate DescendingElem(prefix: Nid, e: Elem)
    requires Digits(prefix.digits) && NumericElem(e)
  {
    e.Span? && Value(prefix.digits + e.lo) > Value(prefix.digits + e.hi)
  }

  predicate Valid(item: NidItem) {
    Numeric(item) && !Descends(item)
  }

  predicate ValidElem(prefix: Nid, e: Elem)
    requires Digits(prefix.digits)
  {
    NumericElem(e) && !DescendingElem(prefix, e)
  }

  function NidText(n: Nid): string {
    (if n.named then "nid" else "") + n.digits
  }

  function ElemText(e: Elem): string {
    match e
    case One(d) => d
    case Span(lo, hi) => lo + "-" + hi
  }

  function ElemTexts(elems: seq<Elem>): (r: seq<string>)
    ensures |r| == |elems| && forall i | 0 <= i < |elems| :: r[i] == ElemText(elems[i])
  {
    seq(|elems|, i requires 0 <= i < |elems| => ElemText(elems[i]))
  }

  /** How an item is written. */
  function Written(item: NidItem): Item {
    match item
    case Single(n) => Plain(NidText(n))
    case Range(lo, hi) => Plain(NidText(lo) + "-" + NidText(hi))
    case Pdsh(prefix, elems) => Bracketed(NidText(prefix), ElemTexts(elems))
  }

  function WrittenAll(items: seq<NidItem>): seq<Item> {
    if items == [] then [] else [Written(items[0])] + WrittenAll(items[1..])
  }

  /** The item that an element of a bracketed list stands for: digits go after the prefix. */
  function Standalone(prefix: Nid, e: Elem): NidItem {
    match e
    case One(d) => Single(prefix.(digits := prefix.digits + d))
    case Span(lo, hi) => Range(prefix.(digits := prefix.digits + lo), prefix.(digits := prefix.digits + hi))
  }

  function Denote(item: NidItem): seq<nat>
    requires Valid(item)
  {
    match item
    case Single(n) => [Value(n.digits)]
    case Range(lo, hi) => Interval(Value(lo.digits), Value(hi.digits))
    case Pdsh(prefix, elems) => DenoteElems(prefix, elems)
  }

  function DenoteElems(prefix: Nid, elems: seq<Elem>): seq<nat>
    requires Digits(prefix.digits) && forall e | e in elems :: ValidElem(prefix, e)
  {
    if elems == [] then []
    else
      assert ValidElem(prefix, elems[0]);
      (match elems[0]
       case One(d) => [Value(prefix.digits + d)]
       case Span(lo, hi) => Interval(Value(prefix.digits + lo), Value(prefix.digits + hi)))
      + DenoteElems(prefix, elems[1..])
  }

  function DenoteAll(items: seq<NidItem>): seq<nat>
    requires forall item | item in items :: Valid(item)
  {
    if items == [] then [] else Denote(items[0]) + DenoteAll(items[1..])
  }

  // ----- single arguments -----

  lemma FixupNidIs(n: Nid)
    requires Numeral(n.digits)
    ensures FixupNid(NidText(n)) == Decimal(Value(n.digits))
    ensures ParseInt(FixupNid(NidText(n))) == Some(Value(n.digits))
  {
    hide Canonical, Decimal, Value, NidText, FixupNid;
    StripNid(n);
    CanonicalIsDecimal(n.digits);
    ValueOfDecimal(Value(n.digits));
  }

  lemma StripNid(n: Nid)
    requires Numeral(n.digits)
    ensures FixupNid(NidText(n)) == Canonical(n.digits)
  {
    hide Canonical;
    if n.named {
      assert NidText(n)[3..] == n.digits;
    } else {
      assert NidText(n) == n.digits;
      assert IsDigit(NidText(n)[0]);
    }
  }

  /** A leading `nid` is dropped and then leading zeros, but not the last one. */
  lemma FixupNidSpelt(s: string) returns (k: nat)
    ensures var t := if "nid" <= s then s[3..] else s;
            && k <= |t| && (forall i | 0 <= i < k :: t[i] == '0') && (k < |t| ==> t[k] != '0')
            && FixupNid(s) == if k == |t| then "0" else t[k..]
  {
    var t := if "nid" <= s then s[3..] else s;
    StripIs(t);
    k := |t| - |StripZeros(t)|;
  }

  /** Every argument: a range is listed if it is one of numerals that does not descend; anything
      else is passed on as one nid. */
  lemma ParseNidArgIs(a: string, b: string)
    requires '-' !in a
    ensures ParseNidArg(a) == [FixupNid(a)]
    ensures var (x, y, r) := (FixupNid(a), FixupNid(b), ParseNidArg(a + "-" + b));
            if Numeral(x) && Numeral(y) && Value(x) <= Value(y)
            then |r| == Value(y) - Value(x) + 1 && forall i | 0 <= i < |r| :: r[i] == Decimal(Value(x) + i)
            else r == [FixupNid(a + "-" + b)]
  {
    hide FixupNid, Value, Decimal, IndexOf;
    var arg := a + "-" + b;
    IndexOfIs(arg, '-', |a|);
    assert arg[..|a|] == a && arg[|a| + 1..] == b;
    if Numeral(FixupNid(a)) && Numeral(FixupNid(b)) {
      IntervalIs(Value(FixupNid(a)), Value(FixupNid(b)));
    }
  }

  lemma NidTextChars(n: Nid)
    requires Digits(n.digits)
    ensures Clean(NidText(n)) && '-' !in NidText(n)
  {
    assert forall c | c in n.digits :: IsDigit(c);
  }

  lemma ParseSingle(n: Nid)
    requires Numeral(n.digits)
    ensures ParseNidArg(NidText(n)) == DecimalsOf([Value(n.digits)])
  {
    NidTextChars(n);
    FixupNidIs(n);
  }

  lemma ParseRange(lo: Nid, hi: Nid)
    requires Numeral(lo.digits) && Numeral(hi.digits) && Value(lo.digits) <= Value(hi.digits)
    ensures ParseNidArg(NidText(lo) + "-" + NidText(hi)) == DecimalsOf(Interval(Value(lo.digits), Value(hi.digits)))
    ensures var r := ParseNidArg(NidText(lo) + "-" + NidText(hi));
            && |r| == Value(hi.digits) - Value(lo.digits) + 1
            && forall i | 0 <= i < |r| :: r[i] == Decimal(Value(lo.digits) + i)
  {
    hide Value, Decimal, NidText;
    IntervalIs(Value(lo.digits), Value(hi.digits));
    NidTextChars(lo);
    FixupNidIs(lo);
    FixupNidIs(hi);
    ParseDash(NidText(lo), NidText(hi), Value(lo.digits), Value(hi.digits));
  }

  lemma ParseDash(a: string, b: string, lo: nat, hi: nat)
    requires '-' !in a && ParseInt(FixupNid(a)) == Some(lo) && ParseInt(FixupNid(b)) == Some(hi) && lo <= hi
    ensures ParseNidArg(a + "-" + b) == DecimalsOf(Interval(lo, hi))
  {
    hide FixupNid, ParseInt, IndexOf, Decimal;
    var arg := a + "-" + b;
    IndexOfIs(arg, '-', |a|);
    assert arg[..|a|] == a && arg[|a| + 1..] == b;
    assert |Interval(lo, hi)| >= 1;
  }

  lemma {:induction false} StripKeepsDash(s: string)
    requires '-' in s
    ensures '-' in StripZeros(s)
  {
    if s[0] != '0' {
    } else {
      StripKeepsDash(s[1..]);
    }
  }

  /** A descending range is passed on as one argument, with its dash: a range yields numerals
      exactly when it does not descend. */
  lemma RangeYieldsNumeralsIff(lo: Nid, hi: Nid)
    requires Numeral(lo.digits) && Numeral(hi.digits)
    ensures (forall p | p in ParseNidArg(NidText(lo) + "-" + NidText(hi)) :: Digits(p))
       <==> Value(lo.digits) <= Value(hi.digits)
  {
    if Value(lo.digits) <= Value(hi.digits) {
      ParseRange(lo, hi);
      forall p | p in DecimalsOf(Interval(Value(lo.digits), Value(hi.digits))) ensures Digits(p) {
        var n: nat :| p == Decimal(n);
        ValueOfDecimal(n);
      }
    } else {
      NidTextChars(lo);
      FixupNidIs(lo);
      FixupNidIs(hi);
      DescendingDash(NidText(lo), NidText(hi), Value(lo.digits), Value(hi.digits));
    }
  }

  lemma DescendingDash(a: string, b: string, lo: nat, hi: nat)
    requires '-' !in a && ParseInt(FixupNid(a)) == Some(lo) && ParseInt(FixupNid(b)) == Some(hi) && lo > hi
    ensures exists p | p in ParseNidArg(a + "-" + b) :: !Digits(p)
  {
    var arg := a + "-" + b;
    assert ParseNidArg(arg) == [FixupNid(arg)] by {
      hide FixupNid, ParseInt, IndexOf;
      IndexOfIs(arg, '-', |a|);
      assert arg[..|a|] == a && arg[|a| + 1..] == b;
    }
    var p := FixupNid(arg);
    hide ParseNidArg;
    DashStays(a, b);
    var i :| 0 <= i < |p| && p[i] == '-';
    assert !IsDigit(p[i]);
    assert p in ParseNidArg(arg) && !Digits(p);
  }

  lemma DashStays(a: string, b: string)
    requires '-' !in a
    ensures '-' in FixupNid(a + "-" + b)
  {
    var arg := a + "-" + b;
    assert arg[|a|] == '-';
    var rest := if "nid" <= arg then arg[3..] else arg;
    if "nid" <= arg {
      assert arg[0] == 'n' && arg[1] == 'i' && arg[2] == 'd';
      assert rest[|a| - 3] == '-';
    }
    StripKeepsDash(rest);
    CanonicalKeepsDash(rest);
  }

  lemma CanonicalKeepsDash(s: string)
    requires '-' in StripZeros(s)
    ensures '-' in Canonical(s)
  {
    hide StripZeros;
  }

  predicate Simple(item: NidItem) {
    !item.Pdsh?
  }

  lemma SimpleIsClean(item: NidItem)
    requires Simple(item) && Numeric(item)
    ensures Print(Written(item)) != "" && Clean(Print(Written(item)))
  {
    match item
    case Single(n) => NidTextChars(n);
    case Range(lo, hi) => NidTextChars(lo); NidTextChars(hi);
  }

  lemma ParseSimple(item: NidItem)
    requires Simple(item) && Valid(item)
    ensures ParseNidArg(Print(Written(item))) == DecimalsOf(Denote(item))
  {
    match item
    case Single(n) => ParseSingle(n);
    case Range(lo, hi) => ParseRange(lo, hi);
  }

  // ----- elements of bracketed lists -----

  lemma StandaloneNumeric(prefix: Nid, e: Elem)
    requires Digits(prefix.digits) && NumericElem(e)
    ensures Numeric(Standalone(prefix, e)) && Simple(Standalone(prefix, e))
    ensures Descends(Standalone(prefix, e)) <==> DescendingElem(prefix, e)
  {
  }

  /** A piece is the text of the item its element stands for. */
  lemma PieceIsStandalone(prefix: Nid, e: Elem)
    requires Digits(prefix.digits) && NumericElem(e)
    ensures Piece(NidText(prefix), ElemText(e)) == Print(Written(Standalone(prefix, e)))
  {
    match e
    case One(d) =>
      NoDash(d);
      NoOccurrence(d, '-');
      assert NidText(prefix) + d == NidText(prefix.(digits := prefix.digits + d));
    case Span(lo, hi) =>
      NoDash(lo);
      NoDash(hi);
      var s := lo + "-" + hi;
      OneOccurrence(s, '-', |lo|);
      assert s[..|lo|] == lo && s[|lo| + 1..] == hi;
      SpanPiece(prefix, lo, hi);
  }

  lemma NoDash(d: string)
    requires Digits(d)
    ensures '-' !in d && Lacks(d, '-', 0, |d|) && Clean(d)
  {
    assert forall c | c in d :: IsDigit(c);
  }

  lemma SpanPiece(prefix: Nid, lo: string, hi: string)
    ensures NidText(prefix) + (lo + "-" + NidText(prefix) + hi)
         == NidText(prefix.(digits := prefix.digits + lo)) + "-" + NidText(prefix.(digits := prefix.digits + hi))
  {
  }

  lemma {:induction false} ParsePieces(prefix: Nid, elems: seq<Elem>)
    requires Digits(prefix.digits) && forall e | e in elems :: ValidElem(prefix, e)
    ensures var pieces := Pieces(NidText(prefix), ElemTexts(elems));
            ParseParts(pieces) == DecimalsOf(DenoteElems(prefix, elems))
  {
    hide ParseNidArg, Piece, NidText, ElemText, Decimal;
    if elems == [] {
    } else {
      var pieces := Pieces(NidText(prefix), ElemTexts(elems));
      var rest := Pieces(NidText(prefix), ElemTexts(elems[1..]));
      ParsePieces(prefix, elems[1..]);
      assert ValidElem(prefix, elems[0]);
      StandaloneNumeric(prefix, elems[0]);
      PieceIsStandalone(prefix, elems[0]);
      SimpleIsClean(Standalone(prefix, elems[0]));
      ParseSimple(Standalone(prefix, elems[0]));
      assert pieces == [pieces[0]] + rest;
      DecimalsOfConcat(Denote(Standalone(prefix, elems[0])), DenoteElems(prefix, elems[1..]));
    }
  }

  lemma DecimalsOfConcat(a: seq<nat>, b: seq<nat>)
    ensures DecimalsOf(a + b) == DecimalsOf(a) + DecimalsOf(b)
  {
  }

  lemma NoParts()
    ensures ParseParts([]) == []
  {
  }

  lemma ParsePartsCons(part: string, parts: seq<string>)
    ensures ParseParts([part] + parts) == ParsePart(part) + ParseParts(parts)
  {
    hide ParsePart;
    assert ([part] + parts)[1..] == parts;
  }

  lemma {:induction false} ParsePartsConcat(a: seq<string>, b: seq<string>)
    ensures ParseParts(a + b) == ParseParts(a) + ParseParts(b)
  {
    hide ParsePart, ParseParts;
    if a == [] {
      NoParts();
      assert a + b == b;
    } else {
      ParsePartsConcat(a[1..], b);
      ParsePartsCons(a[0], a[1..]);
      ParsePartsCons(a[0], a[1..] + b);
      assert a == [a[0]] + a[1..];
      assert a + b == [a[0]] + (a[1..] + b);
    }
  }

  lemma NothingInPart()
    ensures ParsePart("") == []
  {
  }

  /** Parts with nothing in them are skipped. */
  lemma EmptyPartsSkipped(a: seq<string>, b: seq<string>)
    ensures ParseParts(a + [""] + b) == ParseParts(a + b)
  {
    NothingInPart();
    hide ParsePart, ParseParts;
    ParsePartsConcat(a, b);
    ParsePartsConcat(a, [""] + b);
    ParsePartsCons("", b);
    assert a + [""] + b == a + ([""] + b);
  }

  // ----- whole lists -----

  lemma WrittenWellFormed(item: NidItem)
    requires Numeric(item)
    ensures WellFormed(Written(item))
  {
    match item
    case Single(n) => NidTextChars(n);
    case Range(lo, hi) => NidTextChars(lo); NidTextChars(hi);
    case Pdsh(prefix, elems) =>
      NidTextChars(prefix);
      forall i | 0 <= i < |elems| ensures Clean(ElemText(elems[i])) && ElemText(elems[i]) != "" {
        assert NumericElem(elems[i]);
        match elems[i]
        case One(d) => NoDash(d);
        case Span(lo, hi) => NoDash(lo); NoDash(hi);
      }
      assert ElemTexts(elems)[0] == ElemText(elems[0]);
  }

  lemma PartsAreClean(item: NidItem)
    requires Numeric(item)
    ensures Expand(Written(item)) != []
    ensures forall p | p in Expand(Written(item)) :: p != "" && ',' !in p
  {
    hide NidText, Piece, ElemText, WellFormed;
    if item.Pdsh? {
      forall i | 0 <= i < |item.elems|
        ensures var piece := Piece(NidText(item.prefix), ElemText(item.elems[i])); piece != "" && ',' !in piece
      {
        var e := item.elems[i];
        StandaloneNumeric(item.prefix, e);
        PieceIsStandalone(item.prefix, e);
        SimpleIsClean(Standalone(item.prefix, e));
      }
    } else {
      SimpleIsClean(item);
    }
  }

  lemma ParseItem(item: NidItem)
    requires Valid(item)
    ensures ParseParts(Expand(Written(item))) == DecimalsOf(Denote(item))
  {
    hide ParseNidArg, Decimal, Piece, DenoteElems, ParsePart, ElemText, NidText;
    if item.Pdsh? {
      forall e | e in item.elems ensures ValidElem(item.prefix, e) {
      }
      ParsePieces(item.prefix, item.elems);
    } else {
      SimpleIsClean(item);
      ParseSimple(item);
      ParseOnePart(Print(Written(item)));
    }
  }

  lemma ParseOnePart(part: string)
    requires part != ""
    ensures ParseParts([part]) == ParseNidArg(part)
  {
    hide ParseNidArg;
    assert ParseParts([part][1..]) == [];
    assert ParseNidArg(part) + [] == ParseNidArg(part);
  }

  lemma {:induction false} AllClean(items: seq<NidItem>)
    requires forall item | item in items :: Numeric(item)
    ensures forall w | w in WrittenAll(items) :: WellFormed(w)
    ensures forall p | p in Expanded(WrittenAll(items)) :: ',' !in p
    ensures items != [] ==> Expanded(WrittenAll(items)) != []
  {
    if items == [] {
    } else {
      hide Written, Expand, WellFormed, Numeric;
      AllClean(items[1..]);
      WrittenWellFormed(items[0]);
      PartsAreClean(items[0]);
      assert WrittenAll(items)[1..] == WrittenAll(items[1..]);
    }
  }

  lemma {:induction false} ParseExpanded(items: seq<NidItem>)
    requires forall item | item in items :: Valid(item)
    ensures ParseParts(Expanded(WrittenAll(items))) == DecimalsOf(DenoteAll(items))
  {
    if items != [] {
      hide ParseNidArg, Decimal, Written, Expand, Valid, Denote, ParseParts;
      ParseExpanded(items[1..]);
      ParseItem(items[0]);
      assert WrittenAll(items)[1..] == WrittenAll(items[1..]);
      ParsePartsConcat(Expand(Written(items[0])), Expanded(WrittenAll(items[1..])));
      DecimalsOfConcat(Denote(items[0]), DenoteAll(items[1..]));
    } else {
      assert ParseParts([]) == [];
    }
  }

  /** What is parsed is the parts of the expanded list, whether its ranges go up or down. */
  lemma NidsOfNumeric(items: seq<NidItem>)
    requires forall item | item in items :: Numeric(item)
    ensures NidsOf(Join(Printed(WrittenAll(items)))) == ParseParts(Expanded(WrittenAll(items)))
  {
    if items == [] {
      NoNids();
    } else {
      hide Convert, Join, Printed, Expanded, Split, ParseParts, WellFormed, Numeric;
      AllClean(items);
      ConvertPrinted(WrittenAll(items));
      SplitJoin(Expanded(WrittenAll(items)));
    }
  }

  /** Every valid list denotes numbers, and the command looks up exactly their decimal
      forms, without `nid` or leading zeros, in order and with repetitions. */
  lemma NidsOfWritten(items: seq<NidItem>)
    requires forall item | item in items :: Valid(item)
    ensures NidsOf(Join(Printed(WrittenAll(items)))) == DecimalsOf(DenoteAll(items))
  {
    hide Join, Printed, Expanded, ParseParts, NidsOf, DenoteAll, Decimal;
    NidsOfNumeric(items);
    ParseExpanded(items);
  }

  lemma NoNids()
    ensures NidsOf("") == []
  {
    assert Convert("") == "" && Split("", ',') == [""];
    assert ParseParts([""][1..]) == [];
  }

  lemma ExampleItem()
    ensures var item := Pdsh(Nid(true, "00"), [Span("1", "3"), One("7")]);
            Valid(item) && Denote(item) == [1, 2, 3, 7] && Print(Written(item)) == "nid00[1-3,7]"
  {
    var item := Pdsh(Nid(true, "00"), [Span("1", "3"), One("7")]);
    ExampleDenotes();
    hide Valid, Value, DenoteElems, Join;
    assert ElemText(Span("1", "3")) == "1-3" && ElemText(One("7")) == "7";
    assert ElemTexts(item.elems) == ["1-3", "7"];
    JoinOne("7");
    JoinCons("1-3", ["7"]);
    assert ["1-3"] + ["7"] == ["1-3", "7"];
  }

  lemma ExampleDenotes()
    ensures var item := Pdsh(Nid(true, "00"), [Span("1", "3"), One("7")]);
            Valid(item) && Denote(item) == [1, 2, 3, 7]
  {
    var prefix, elems := Nid(true, "00"), [Span("1", "3"), One("7")];
    ExampleValues();
    hide Value, Interval;
    assert "00" + "1" == "001" && "00" + "3" == "003" && "00" + "7" == "007";
    assert elems[1..] == [One("7")] && elems[1..][1..] == [];
    assert ValidElem(prefix, elems[0]) && ValidElem(prefix, elems[1]);
    assert Valid(Pdsh(prefix, elems));
    assert DenoteElems(prefix, elems[1..]) == [7] + DenoteElems(prefix, elems[1..][1..]);
    assert Interval(1, 3) == [1, 2, 3] by { IntervalIs(1, 3); }
  }

  lemma ExampleValues()
    ensures Value("001") == 1 && Value("003") == 3 && Value("007") == 7 && Value("12") == 12
  {
    assert "001"[1..] == "01" && "01"[1..] == "1" && "003"[1..] == "03" && "03"[1..] == "3";
    assert "007"[1..] == "07" && "07"[1..] == "7" && "12"[1..] == "2";
    assert Place(0) == 1 && Place(1) == 10 && Value("") == 0;
    ValueIsPlaced("001"); ValueIsPlaced("01"); ValueIsPlaced("1");
    ValueIsPlaced("003"); ValueIsPlaced("03"); ValueIsPlaced("3");
    ValueIsPlaced("007"); ValueIsPlaced("07"); ValueIsPlaced("7");
    ValueIsPlaced("12"); ValueIsPlaced("2");
  }

  /** One list of each kind of item, character by character. */
  lemma Example()
    ensures NidsOf("nid00[1-3,7],12") == ["1", "2", "3", "7", "12"]
  {
    var items := [Pdsh(Nid(true, "00"), [Span("1", "3"), One("7")]), Single(Nid(false, "12"))];
    ExampleItem();
    ExampleSingle();
    hide Value, Denote, Written, Print, NidsOf, Valid, Decimal, Join;
    NidsOfWritten(items);
    ExampleText(items);
    assert items[1..][1..] == [];
    assert DenoteAll(items) == [1, 2, 3, 7] + ([12] + []);
    assert DecimalsOf([1, 2, 3, 7, 12]) == ["1", "2", "3", "7", "12"] by { ExampleDecimals(); }
  }

  lemma ExampleSingle()
    ensures var item := Single(Nid(false, "12"));
            Valid(item) && Denote(item) == [12] && Print(Written(item)) == "12"
  {
    ExampleValues();
  }

  lemma ExampleDecimals()
    ensures Decimal(1) == "1" && Decimal(2) == "2" && Decimal(3) == "3" && Decimal(7) == "7" && Decimal(12) == "12"
  {
    assert Decimal(12 / 10) == "1" && DigitChar(12 % 10) == '2';
  }

  lemma ExampleText(items: seq<NidItem>)
    requires |items| == 2 && Print(Written(items[0])) == "nid00[1-3,7]" && Print(Written(items[1])) == "12"
    ensures Join(Printed(WrittenAll(items))) == "nid00[1-3,7],12"
  {
    hide Written, Print, Join;
    assert items[1..][1..] == [];
    var written := [Written(items[0]), Written(items[1])];
    assert WrittenAll(items[1..]) == [Written(items[1])] + WrittenAll(items[1..][1..]);
    assert WrittenAll(items) == written;
    assert written[1..][1..] == [];
    assert Printed(written[1..]) == ["12"] + Printed(written[1..][1..]);
    assert Printed(written) == ["nid00[1-3,7]"] + ["12"];
    JoinOne("12");
    JoinCons("nid00[1-3,7]", ["12"]);
  }

  // ----- lists with descending ranges -----

  lemma {:induction false} ParsePartsHas(parts: seq<string>, i: nat, p: string)
    requires i < |parts| && p in ParsePart(parts[i])
    ensures p in ParseParts(parts)
  {
    hide ParsePart;
    if i == 0 {
    } else {
      ParsePartsHas(parts[1..], i - 1, p);
    }
  }

  lemma {:induction false} ExpandedHas(items: seq<NidItem>, i: nat, part: string)
    requires i < |items| && part in Expand(Written(items[i]))
    ensures part in Expanded(WrittenAll(items))
  {
    hide Written, Expand;
    assert WrittenAll(items)[1..] == WrittenAll(items[1..]);
    if i == 0 {
    } else {
      ExpandedHas(items[1..], i - 1, part);
    }
  }

  lemma DescendingSimple(item: NidItem) returns (p: string)
    requires Simple(item) && Numeric(item) && Descends(item)
    ensures p in ParsePart(Print(Written(item))) && !Digits(p)
  {
    hide ParseNidArg, NidText;
    SimpleIsClean(item);
    RangeYieldsNumeralsIff(item.lo, item.hi);
    p :| p in ParseNidArg(NidText(item.lo) + "-" + NidText(item.hi)) && !Digits(p);
  }

  /** A descending range, in brackets or not, is a part that yields something else than numerals. */
  lemma DescendingPart(item: NidItem) returns (part: string, p: string)
    requires Numeric(item) && Descends(item)
    ensures part in Expand(Written(item)) && p in ParsePart(part) && !Digits(p)
  {
    hide ParsePart, NidText, Piece, Digits;
    if item.Pdsh? {
      var i :| 0 <= i < |item.elems| && DescendingElem(item.prefix, item.elems[i]);
      StandaloneNumeric(item.prefix, item.elems[i]);
      PieceIsStandalone(item.prefix, item.elems[i]);
      part := Expand(Written(item))[i];
      p := DescendingSimple(Standalone(item.prefix, item.elems[i]));
    } else {
      part := Print(Written(item));
      p := DescendingSimple(item);
    }
  }

  /** A list of numerals and ranges of them has only numerals looked up exactly when none of
      its ranges descends, in brackets or not. */
  lemma NumeralsIffNoneDescends(items: seq<NidItem>)
    requires forall item | item in items :: Numeric(item)
    ensures (forall p | p in NidsOf(Join(Printed(WrittenAll(items)))) :: Numeral(p))
       <==> forall item | item in items :: !Descends(item)
  {
    hide Join, Printed, Expanded, ParseParts, NidsOf, DenoteAll, Decimal, Descends, ParsePart, Numeric, Digits, Value;
    NidsOfNumeric(items);
    if i :| 0 <= i < |items| && Descends(items[i]) {
      var part, p := DescendingPart(items[i]);
      ExpandedHas(items, i, part);
      var k :| 0 <= k < |Expanded(WrittenAll(items))| && Expanded(WrittenAll(items))[k] == part;
      ParsePartsHas(Expanded(WrittenAll(items)), k, p);
    } else {
      ParseExpanded(items);
      forall n: nat ensures Numeral(Decimal(n)) {
        ValueOfDecimal(n);
      }
    }
  }
}
