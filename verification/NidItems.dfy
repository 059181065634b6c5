/** What the conversion of a nid list means: every well-formed list comes out with each
    bracketed item replaced by its elements, prefixed, in place. */
module NidItems {
  import opened Options
  import opened Text
  import opened Nids

  /** An item of a comma-separated nid list. */
  datatype Item = Plain(text: string) | Bracketed(prefix: string, elems: seq<string>)

  predicate Clean(s: string) {
    ',' !in s && '[' !in s && ']' !in s
  }

  /** No stray separators, and bracketed lists are not empty. */
  predicate WellFormed(item: Item) {
    match item
    case Plain(text) => Clean(text)
    case Bracketed(prefix, elems) =>
      Clean(prefix) && elems != [] && (forall e | e in elems :: Clean(e)) && prefix + elems[0] != ""
  }

  function Print(item: Item): string {
    match item
    case Plain(text) => text
    case Bracketed(prefix, elems) => prefix + "[" + Join(elems) + "]"
  }

  function Expand(item: Item): seq<string> {
    match item
    case Plain(text) => [text]
    case Bracketed(prefix, elems) => Pieces(prefix, elems)
  }

  function Printed(items: seq<Item>): seq<string> {
    if items == [] then [] else [Print(items[0])] + Printed(items[1..])
  }

  function Expanded(items: seq<Item>): seq<string> {
    if items == [] then [] else Expand(items[0]) + Expanded(items[1..])
  }

  // ----- one bracketed list -----

  lemma {:induction false} JoinLacks(parts: seq<string>, ch: char)
    requires ch != ',' && forall p | p in parts :: ch !in p
    ensures ch !in Join(parts)
  {
    if |parts| <= 1 {
    } else {
      JoinLacks(parts[1..], ch);
    }
  }

  lemma PieceNotEmpty(prefix: string, elem: string)
    requires prefix + elem != ""
    ensures Piece(prefix, elem) != ""
  {
  }

  /** Empty strings at the front are dropped. */
  function DropEmpty(parts: seq<string>): seq<string> {
    if parts == [] || parts[0] != "" then parts else DropEmpty(parts[1..])
  }

  lemma {:induction false} DropEmptyAppend(parts: seq<string>, last: string)
    ensures DropEmpty(parts + [last])
         == if DropEmpty(parts) == [] then DropEmpty([last]) else DropEmpty(parts) + [last]
    ensures DropEmpty(parts) != [] ==> Join(DropEmpty(parts)) != ""
  {
    if parts == [] {
      assert parts + [last] == [last];
    } else if parts[0] != "" {
      assert (parts + [last])[0] == parts[0];
    } else {
      DropEmptyAppend(parts[1..], last);
      assert (parts + [last])[1..] == parts[1..] + [last];
    }
  }

  /** The loop joins the pieces with commas; only pieces that are empty are dropped, and only at
      the front, where there is no text yet. */
  lemma {:induction false} AccumulatedIsJoin(prefix: string, elems: seq<string>)
    ensures Accumulated(prefix, elems) == Join(DropEmpty(Pieces(prefix, elems)))
  {
    hide Piece, DropEmpty, Join;
    if elems == [] {
      assert Pieces(prefix, elems) == [] && DropEmpty([]) == [] && Join([]) == "" by { NothingJoined(); }
    } else {
      var n := |elems| - 1;
      var last := Piece(prefix, elems[n]);
      var pieces := Pieces(prefix, elems[..n]);
      AccumulatedIsJoin(prefix, elems[..n]);
      assert Pieces(prefix, elems) == pieces + [last];
      DropEmptyAppend(pieces, last);
      NothingJoined();
      OneJoined(last);
      if DropEmpty(pieces) != [] {
        JoinConcat(DropEmpty(pieces), [last]);
      }
    }
  }

  lemma NothingJoined()
    ensures DropEmpty([]) == [] && Join([]) == ""
  {
  }

  lemma OneJoined(last: string)
    ensures Join(DropEmpty([last])) == last == Join([last])
  {
  }

  lemma ConvertOneSplits(item: Item)
    requires item.Bracketed? && Clean(item.prefix) && item.elems != [] && forall e | e in item.elems :: Clean(e)
    ensures var s := Accumulated(item.prefix, item.elems);
            ConvertOne(Print(item)) == if s == "" then Print(item) else s
  {
    hide Join, Accumulated, Pieces;
    var (prefix, elems) := (item.prefix, item.elems);
    JoinLacks(elems, '[');
    JoinLacks(elems, ']');
    var middle := Join(elems);
    var s := Print(item);
    assert s == prefix + ['['] + (middle + "]");
    assert s[|prefix|] == '[' && s[|s| - 1] == ']';
    SplitAtFirst(prefix, middle + "]", '[');
    assert Split(middle + "]", '[') == [middle + "]"] && DropLast(middle + "]") == middle;
    SplitJoin(elems);
  }

  /** One bracketed list, with elements that may be empty. If nothing is left of it, or there
      are no brackets, it stays as it was. */
  lemma ConvertOneIs(item: Item)
    requires item.Plain? ==> Clean(item.text)
    requires item.Bracketed? ==>
               Clean(item.prefix) && item.elems != [] && forall e | e in item.elems :: Clean(e)
    ensures item.Plain? ==> ConvertOne(item.text) == item.text
    ensures item.Bracketed? ==>
              var s := Join(DropEmpty(Expand(item)));
              ConvertOne(Print(item)) == if s == "" then Print(item) else s
    ensures item.Bracketed? && WellFormed(item) ==> ConvertOne(Print(item)) == Join(Expand(item))
  {
    if item.Bracketed? {
      hide Join, Accumulated, ConvertOne, Print, Pieces, Piece;
      ConvertOneSplits(item);
      AccumulatedIsJoin(item.prefix, item.elems);
      var pieces := Pieces(item.prefix, item.elems);
      if item.prefix + item.elems[0] != "" {
        PieceNotEmpty(item.prefix, item.elems[0]);
        assert DropEmpty(pieces) == pieces;
        JoinNotEmpty(pieces);
      }
    }
  }

  lemma JoinNotEmpty(parts: seq<string>)
    requires parts != [] && parts[0] != ""
    ensures Join(parts) != ""
  {
  }

  // ----- the text that comes out -----

  /** The converted text, unless the scan breaks off. */
  function Converted(s: string): Option<string> {
    if ']' !in s then Some(s)
    else
      match ScanBlocks(s)
      case None => None
      case Some(parts) => Some(Join(parts + Tail(s)))
  }

  lemma TailAfter(a: string, s: string)
    requires ']' in s
    ensures ']' in a + s && Tail(a + s) == Tail(s)
  {
    LastIndexOfConcat(a, s, ']');
    var last := LastIndexOf(s, ']');
    if last < |s| - 1 {
      assert (a + s)[|a| + last + 2..] == s[last + 2..];
    }
  }

  lemma BeforeBracketConcat(head: string, block: string)
    requires '[' !in head
    ensures BeforeBracket(head + block) == head + BeforeBracket(block)
  {
    IndexOfConcat(head, block, '[');
  }

  lemma DropConcat(a: string, b: string, i: nat)
    requires i <= |b|
    ensures (a + b)[|a| + i..] == b[i..] && (a + b)[..|a| + i] == a + b[..i]
  {
  }

  lemma PlainBlockComma(head: string, block: string)
    requires '[' !in head && ',' in BeforeBracket(block)
    ensures |BlockParts(block)| == 2
    ensures BlockParts(head + block) == [head + BlockParts(block)[0], BlockParts(block)[1]]
  {
    hide ConvertOne, IndexOf, LastIndexOf;
    var before := BeforeBracket(block);
    var c := LastIndexOf(before, ',');
    BeforeBracketConcat(head, block);
    LastIndexOfConcat(head, before, ',');
    DropConcat(head, before, c);
    DropConcat(head, block, c + 1);
  }

  lemma PlainBlockNoComma(text: string, block: string)
    requires Clean(text) && ',' !in BeforeBracket(block)
    ensures |BlockParts(block)| == 1
    ensures BlockParts(text + "," + block) == [text] + BlockParts(block)
  {
    hide ConvertOne, IndexOf, LastIndexOf;
    var head := text + ",";
    var before := BeforeBracket(block);
    BeforeBracketConcat(head, block);
    LastIndexOfIs(head + before, ',', |text|);
    DropConcat(text, "," + before, 0);
    assert head + before == text + ("," + before);
    DropConcat(head, block, 0);
  }

  lemma PlainBlock(text: string, block: string, more: seq<string>)
    requires Clean(text)
    ensures Join(BlockParts(text + "," + block) + more) == text + "," + Join(BlockParts(block) + more)
  {
    hide BlockParts, BeforeBracket;
    var parts := BlockParts(block);
    if ',' in BeforeBracket(block) {
      PlainBlockComma(text + ",", block);
      var rest := [parts[1]] + more;
      assert BlockParts(text + "," + block) + more == [text + "," + parts[0]] + rest;
      assert parts + more == [parts[0]] + rest;
      JoinCons(text + "," + parts[0], rest);
      JoinCons(parts[0], rest);
    } else {
      PlainBlockNoComma(text, block);
      assert [text] + parts + more == [text] + (parts + more);
      JoinCons(text, parts + more);
    }
  }

  /** Text before the first right bracket affects the first block alone. */
  lemma ScanConcat(head: string, s: string)
    requires ']' !in head && ']' in s
    ensures ']' in head + s
    ensures ScanBlocks(head + s)
         == Prepend(BlockParts(head + s[..IndexOf(s, ']') + 1]), ScanRest(s[IndexOf(s, ']') + 1..]))
  {
    hide IndexOf, BlockParts, ScanRest;
    IndexOfConcat(head, s, ']');
    DropConcat(head, s, IndexOf(s, ']') + 1);
  }

  lemma PlainStep(text: string, s: string)
    requires Clean(text) && Converted(s).Some?
    ensures Converted(text + "," + s) == Some(text + "," + Converted(s).value)
  {
    hide BlockParts, Join, ScanRest, Tail;
    if ']' in s {
      var head := text + ",";
      var block := s[..IndexOf(s, ']') + 1];
      var rest := ScanRest(s[IndexOf(s, ']') + 1..]);
      ScanConcat(head, s);
      TailAfter(head, s);
      PlainBlock(text, block, rest.value + Tail(s));
      assert BlockParts(head + block) + rest.value + Tail(s) == BlockParts(head + block) + (rest.value + Tail(s));
      assert BlockParts(block) + rest.value + Tail(s) == BlockParts(block) + (rest.value + Tail(s));
    }
  }

  lemma BracketedBlock(item: Item)
    requires item.Bracketed? && WellFormed(item)
    ensures var b := Print(item);
            b[|b| - 1] == ']' && IndexOf(b, ']') == |b| - 1 && BlockParts(b) == [Join(Expand(item))]
  {
    hide Join, Accumulated, Pieces, Piece, DropEmpty, ConvertOne;
    var b := Print(item);
    JoinLacks(item.elems, ']');
    IndexOfConcat(item.prefix + "[" + Join(item.elems), "]", ']');
    IndexOfConcat(item.prefix, "[" + Join(item.elems) + "]", '[');
    assert b == item.prefix + ("[" + Join(item.elems) + "]");
    assert b[..|item.prefix|] == item.prefix;
    ConvertOneIs(item);
  }

  /** A bracketed item at the front is a block of its own. */
  lemma BracketedScan(item: Item, rest: string)
    requires item.Bracketed? && WellFormed(item)
    ensures ']' in Print(item) + rest
    ensures ScanBlocks(Print(item) + rest) == Prepend([Join(Expand(item))], ScanRest(rest))
  {
    var b := Print(item);
    BracketedBlock(item);
    IndexOfFirst(b, ']');
    assert (b + rest)[|b| - 1] == ']';
    IndexOfIs(b + rest, ']', |b| - 1);
    assert (b + rest)[..|b|] == b && (b + rest)[|b|..] == rest;
  }

  lemma BracketedTail(item: Item, rest: string)
    requires item.Bracketed? && WellFormed(item) && ']' !in rest
    ensures ']' in Print(item) + rest
    ensures Tail(Print(item) + rest) == if rest == "" then [] else [rest[1..]]
  {
    hide LastIndexOf, IndexOf, BlockParts, Join, Expand, Print;
    var b := Print(item);
    BracketedBlock(item);
    LastIndexOfIs(b + rest, ']', |b| - 1);
    if rest != "" {
      DropConcat(b, rest, 1);
    }
  }

  lemma BracketedLast(item: Item)
    requires item.Bracketed? && WellFormed(item)
    ensures Converted(Print(item)) == Some(Join(Expand(item)))
  {
    assert Print(item) + "" == Print(item);
    BracketedScan(item, "");
    BracketedTail(item, "");
    assert [Join(Expand(item))] + [] + [] == [Join(Expand(item))];
  }

  lemma BracketedStep(item: Item, s: string)
    requires item.Bracketed? && WellFormed(item) && Converted(s).Some?
    ensures Converted(Print(item) + "," + s) == Some(Join(Expand(item)) + "," + Converted(s).value)
  {
    hide BlockParts, Join, Tail, Print, Expand;
    var b := Print(item);
    var e := Join(Expand(item));
    assert b + "," + s == b + ("," + s) && ("," + s)[1..] == s;
    BracketedScan(item, "," + s);
    if ']' in s {
      TailAfter(b + ",", s);
      var parts := ScanBlocks(s).value;
      SomeParts(s);
      assert [e] + parts + Tail(s) == [e] + (parts + Tail(s));
      JoinCons(e, parts + Tail(s));
    } else {
      BracketedTail(item, "," + s);
      assert [e] + [] + [s] == [e] + [s];
      JoinOne(s);
      JoinCons(e, [s]);
    }
  }

  lemma SomeParts(s: string)
    requires ']' in s && ScanBlocks(s).Some?
    ensures ScanBlocks(s).value != []
  {
    var r := IndexOf(s, ']');
    assert |BlockParts(s[..r + 1])| >= 1;
  }

  // ----- all items -----

  lemma ExpandNotEmpty(item: Item)
    requires WellFormed(item)
    ensures Expand(item) != []
    ensures item.Plain? ==> Clean(item.text) && Expand(item) == [Print(item)]
    ensures item.Plain? ==> Converted(Print(item)) == Some(Print(item))
  {
  }

  lemma {:induction false} ConvertedIs(items: seq<Item>)
    requires items != [] && forall item | item in items :: WellFormed(item)
    ensures Converted(Join(Printed(items))) == Some(Join(Expanded(items)))
  {
    hide Join, Converted, WellFormed, Expand, Clean;
    var item := items[0];
    ExpandNotEmpty(item);
    if |items| == 1 {
      assert Printed(items[1..]) == [] && Expanded(items[1..]) == [];
      assert Printed(items) == [Print(item)] && Expanded(items) == Expand(item);
      JoinOne(Print(item));
      if item.Bracketed? {
        BracketedLast(item);
      }
    } else {
      ConvertedIs(items[1..]);
      ExpandNotEmpty(items[1]);
      assert Printed(items[1..]) != [] && Expanded(items[1..]) != [];
      var s := Join(Printed(items[1..]));
      JoinCons(Print(item), Printed(items[1..]));
      JoinConcat(Expand(item), Expanded(items[1..]));
      if item.Plain? {
        JoinOne(Print(item));
        PlainStep(item.text, s);
      } else {
        BracketedStep(item, s);
      }
    }
  }

  lemma EqualBracketsOne(item: Item)
    requires WellFormed(item)
    ensures multiset(Print(item))['['] == multiset(Print(item))[']']
  {
    if item.Bracketed? {
      JoinLacks(item.elems, '[');
      JoinLacks(item.elems, ']');
    }
  }

  lemma {:induction false} EqualBrackets(items: seq<Item>)
    requires forall item | item in items :: WellFormed(item)
    ensures multiset(Join(Printed(items)))['['] == multiset(Join(Printed(items)))[']']
  {
    if items == [] {
    } else {
      EqualBracketsOne(items[0]);
      EqualBrackets(items[1..]);
      if |items| > 1 {
        JoinCons(Print(items[0]), Printed(items[1..]));
      } else {
        assert Printed(items[1..]) == [];
      }
    }
  }

  /** Converting the text of a well-formed list gives the text of its expansion. */
  lemma ConvertPrinted(items: seq<Item>)
    requires forall item | item in items :: WellFormed(item)
    ensures Convert(Join(Printed(items))) == Join(Expanded(items))
  {
    hide Join, ScanBlocks, Tail, WellFormed, Print, Expand;
    NothingJoined();
    if items != [] {
      ConvertedIs(items);
    }
    EqualBrackets(items);
    var s := Join(Printed(items));
    if ']' in s && ScanBlocks(s).Some? {
      SomeParts(s);
    }
  }
}
