/** Conversion of pdsh nid lists (sat/cli/nid2xname/main.py:115-213). */
module Nids {
  import opened Options
  import opened Text

  // ----- one bracketed list -----

  function DropLast(s: string): string {
    if s == "" then "" else s[..|s| - 1]
  }

  /** One element of the bracketed list with the prefix put before it, and before the
      second half as well when it is a range. */
  function Piece(prefix: string, elem: string): string {
    var dashes := FindOccurrences(elem, '-');
    prefix + if |dashes| == 1 then elem[..dashes[0]] + "-" + prefix + elem[dashes[0] + 1..] else elem
  }

  /** The prefix goes before the second half too if there is just one dash. */
  lemma PieceIs(prefix: string, elem: string)
    ensures multiset(elem)['-'] != 1 ==> Piece(prefix, elem) == prefix + elem
    ensures multiset(elem)['-'] == 1 ==> forall i | 0 <= i < |elem| && elem[i] == '-' ::
              Piece(prefix, elem) == prefix + elem[..i] + "-" + prefix + elem[i + 1..]
  {
    hide FindOccurrences;
    OccurrencesCount(elem, '-');
    forall i | 0 <= i < |elem| && elem[i] == '-' ensures i in FindOccurrences(elem, '-') {
      OccurrencesComplete(elem, '-', i);
    }
  }

  function Pieces(prefix: string, elems: seq<string>): (r: seq<string>)
    ensures |r| == |elems|
    ensures forall i | 0 <= i < |elems| :: r[i] == Piece(prefix, elems[i])
  {
    seq(|elems|, i requires 0 <= i < |elems| => Piece(prefix, elems[i]))
  }

  /** The string the loop builds: a comma goes before a piece only if there is text already. */
  function Accumulated(prefix: string, elems: seq<string>): string {
    if elems == [] then ""
    else
      var s := Accumulated(prefix, elems[..|elems| - 1]);
      s + (if s != "" then "," else "") + Piece(prefix, elems[|elems| - 1])
  }

  function ConvertOne(nids: string): string {
    var s := if '[' in nids && ']' in nids
             then Accumulated(Split(nids, '[')[0], Split(DropLast(Split(nids, '[')[1]), ','))
             else "";
    if s == "" then nids else s
  }

  method ConvertPdshNidList(nids: string) returns (newNids: string)
    ensures newNids == ConvertOne(nids)
  {
    hide Split, FindOccurrences, DropLast;
    newNids := "";
    if '[' in nids && ']' in nids {
      var prefix := Split(nids, '[')[0];
      var middle := DropLast(Split(nids, '[')[1]);
      var elems := Split(middle, ',');
      for i := 0 to |elems|
        invariant newNids == Accumulated(prefix, elems[..i])
      {
        var nid := elems[i];
        var newNid := nid;
        var dashes := FindOccurrences(nid, '-');
        if |dashes| == 1 {
          newNid := nid[..dashes[0]] + "-" + prefix + nid[dashes[0] + 1..];
        }
        if newNids != "" {
          newNids := newNids + ",";
        }
        newNids := newNids + (prefix + newNid);
        assert elems[..i + 1][..i] == elems[..i];
      }
      assert elems[..|elems|] == elems;
    }
    if newNids == "" {
      newNids := nids;
    }
  }

  // ----- the whole list -----

  /** `block.split('[', 1)[0]`. */
  function BeforeBracket(block: string): string {
    block[..IndexOf(block, '[')]
  }

  /** What a stretch of text up to a right bracket contributes. */
  function BlockParts(block: string): seq<string> {
    var before := BeforeBracket(block);
    if ',' in before then
      var c := LastIndexOf(before, ',');
      [before[..c], ConvertOne(block[c + 1..])]
    else [ConvertOne(block)]
  }

  /** The contributions of all stretches, unless one that is not the first does not
      begin with a comma. */
  function ScanBlocks(s: string): Option<seq<string>>
    requires ']' in s
    decreases |s|, 0
  {
    var r := IndexOf(s, ']');
    Prepend(BlockParts(s[..r + 1]), ScanRest(s[r + 1..]))
  }

  function ScanRest(rest: string): Option<seq<string>>
    decreases |rest|, 1
  {
    if ']' !in rest then Some([])
    else if rest[0] != ',' then None
    else
      assert rest == [','] + rest[1..];
      ScanBlocks(rest[1..])
  }

  function Prepend(parts: seq<string>, more: Option<seq<string>>): Option<seq<string>> {
    match more
    case None => None
    case Some(p) => Some(parts + p)
  }

  /** What follows the last right bracket and the character after it. */
  function Tail(s: string): seq<string>
    requires ']' in s
  {
    var last := LastIndexOf(s, ']');
    if last < |s| - 1 then [s[last + 2..]] else []
  }

  predicate Balanced(s: string) {
    ']' in s && multiset(s)['['] == multiset(s)[']']
  }

  function Blocks(nids: string): seq<string>
    requires ']' in nids
  {
    match ScanBlocks(nids)
    case None => []
    case Some(parts) => parts
  }

  function Convert(nids: string): string {
    if !Balanced(nids) then nids
    else
      var parts := Blocks(nids) + Tail(nids);
      if parts == [] then nids else Join(parts)
  }

  /** The body of the loop: text before the bracketed list is split off at its last comma. */
  method ConvertBlock(block: string) returns (parts: seq<string>)
    ensures parts == BlockParts(block)
  {
    parts := [];
    var withBrackets := block;
    var prefixToLeftBracket := Split(block, '[')[0];
    if ',' in prefixToLeftBracket {
      var commas := FindOccurrences(prefixToLeftBracket, ',');
      LastOccurrence(prefixToLeftBracket, ',');
      var lastComma := commas[|commas| - 1];
      parts := parts + [prefixToLeftBracket[..lastComma]];
      withBrackets := withBrackets[lastComma + 1..];
    }
    var converted := ConvertPdshNidList(withBrackets);
    parts := parts + [converted];
  }

  /** What the loop has collected before its `k`-th turn, and what is left. */
  ghost predicate Collected(nids: string, parts: seq<string>, k: nat)
    requires k <= |FindOccurrences(nids, ']')|
  {
    if k == 0 then parts == [] && ']' in nids
    else ']' in nids && ScanBlocks(nids) == Prepend(parts, ScanRest(nids[Past(nids, ']', k)..]))
  }

  lemma StartCollecting(nids: string)
    requires ']' in nids
    ensures Collected(nids, [], 0)
  {
  }

  /** One turn: the block starts where the last one ended, past a comma if it is not the first. */
  lemma CollectBlock(nids: string, parts: seq<string>, k: nat, start: nat)
    requires k < |FindOccurrences(nids, ']')| && Collected(nids, parts, k)
    requires if k == 0 then start == 0
             else nids[Past(nids, ']', k)] == ',' && start == Past(nids, ']', k) + 1
    ensures start <= FindOccurrences(nids, ']')[k]
    ensures Collected(nids, parts + BlockParts(nids[start..FindOccurrences(nids, ']')[k] + 1]), k + 1)
  {
    hide BlockParts, FindOccurrences, IndexOf, ScanBlocks;
    NextOccurrence(nids, ']', k);
    if k > 0 {
      AfterComma(nids[Past(nids, ']', k)..]);
      assert nids[Past(nids, ']', k)..][1..] == nids[start..];
    } else {
      assert nids[0..] == nids;
    }
    var rbracket := FindOccurrences(nids, ']')[k];
    BlockAt(nids, start, rbracket);
    PrependTwice(parts, BlockParts(nids[start..rbracket + 1]), ScanRest(nids[rbracket + 1..]));
    assert k == 0 ==> parts + BlockParts(nids[start..rbracket + 1]) == BlockParts(nids[start..rbracket + 1]);
  }

  lemma BlockAt(nids: string, start: nat, rbracket: nat)
    requires start <= rbracket < |nids| && ']' in nids[start..]
    requires start + IndexOf(nids[start..], ']') == rbracket
    ensures ScanBlocks(nids[start..]) == Prepend(BlockParts(nids[start..rbracket + 1]), ScanRest(nids[rbracket + 1..]))
  {
    hide BlockParts, ScanRest, IndexOf;
    var s := nids[start..];
    assert s[..rbracket - start + 1] == nids[start..rbracket + 1];
    assert s[rbracket - start + 1..] == nids[rbracket + 1..];
  }

  lemma PrependTwice(a: seq<string>, b: seq<string>, more: Option<seq<string>>)
    ensures Prepend(a, Prepend(b, more)) == Prepend(a + b, more)
    ensures Prepend([], Prepend(b, more)) == Prepend(b, more)
  {
    if more.Some? {
      assert a + (b + more.value) == a + b + more.value;
      assert [] + (b + more.value) == b + more.value;
    }
  }

  lemma AfterComma(rest: string)
    requires ']' in rest && rest[0] == ','
    ensures ']' in rest[1..] && IndexOf(rest, ']') == IndexOf(rest[1..], ']') + 1
  {
    assert rest == "," + rest[1..];
    IndexOfConcat(",", rest[1..], ']');
  }

  method ConvertPdshListsToStandardLists(nids: string) returns (r: string)
    ensures r == Convert(nids)
  {
    hide Blocks, FindOccurrences, LastIndexOf, Join;
    NoOccurrence(nids, ']');
    var newNids: seq<string> := [];
    var rbrackets := FindOccurrences(nids, ']');
    var lbrackets := FindOccurrences(nids, '[');
    BalancedIs(nids);
    if rbrackets != [] && |rbrackets| == |lbrackets| {
      newNids := ConvertBlocks(nids, rbrackets);
      LastOccurrence(nids, ']');
      var lastRbracket := rbrackets[|rbrackets| - 1];
      if lastRbracket < |nids| - 1 {
        newNids := newNids + [nids[lastRbracket + 2..]];
      }
      assert newNids == Blocks(nids) + Tail(nids);
    } else {
      newNids := newNids + [nids];
      assert newNids == [nids];
      JoinOne(nids);
    }
    r := if newNids != [] then Join(newNids) else nids;
  }

  /** The loop over the right brackets. */
  method ConvertBlocks(nids: string, rbrackets: seq<nat>) returns (newNids: seq<string>)
    requires ']' in nids && rbrackets == FindOccurrences(nids, ']')
    ensures newNids == Blocks(nids)
  {
    hide Collected, FindOccurrences, BlockParts, ScanBlocks, Blocks, IndexOf;
    newNids := [];
    var nidsIndex := 0;
    StartCollecting(nids);
    for iteration := 0 to |rbrackets|
      invariant iteration == 0 ==> nidsIndex == 0
      invariant Collected(nids, newNids, iteration)
    {
      var rbracket := rbrackets[iteration];
      NextOccurrence(nids, ']', iteration);
      if iteration > 0 {
        var previous := rbrackets[iteration - 1];
        if nids[previous + 1] != ',' {
          BrokenOff(nids, newNids, iteration);
          return [];
        }
        nidsIndex := previous + 2;
      }
      CollectBlock(nids, newNids, iteration, nidsIndex);
      var parts := ConvertBlock(nids[nidsIndex..rbracket + 1]);
      newNids := newNids + parts;
    }
    AllCollected(nids, newNids);
  }

  lemma BalancedIs(s: string)
    ensures Balanced(s) <==> FindOccurrences(s, ']') != [] && |FindOccurrences(s, ']')| == |FindOccurrences(s, '[')|
  {
    OccurrencesCount(s, ']');
    OccurrencesCount(s, '[');
  }

  lemma AllCollected(nids: string, parts: seq<string>)
    requires ']' in nids && Collected(nids, parts, |FindOccurrences(nids, ']')|)
    ensures ScanBlocks(nids) == Some(parts) && Blocks(nids) == parts
  {
    NoOccurrence(nids, ']');
    NoMoreOccurrences(nids, ']');
    assert parts + [] == parts;
  }

  lemma BrokenOff(nids: string, parts: seq<string>, k: nat)
    requires 0 < k < |FindOccurrences(nids, ']')| && Collected(nids, parts, k)
    requires nids[Past(nids, ']', k)] != ','
    ensures ScanBlocks(nids).None? && Blocks(nids) == []
  {
    NextOccurrence(nids, ']', k);
  }

  /** Without brackets, or with more of one kind than of the other, the input is returned. */
  lemma UnbalancedUnchanged(nids: string)
    requires ']' !in nids || multiset(nids)['['] != multiset(nids)[']']
    ensures Convert(nids) == nids
  {
  }

  /** The guard of the error: a right bracket that is not the last one is not followed by a comma. */
  ghost predicate Broken(s: string) {
    exists i :: BrokenAt(s, i)
  }

  predicate BrokenAt(s: string, i: int) {
    0 <= i < |s| - 1 && s[i] == ']' && s[i + 1] != ',' && ']' in s[i + 1..]
  }

  lemma {:induction false} ScanBreaksIffBroken(s: string)
    requires ']' in s
    ensures ScanBlocks(s).None? <==> Broken(s)
    decreases |s|
  {
    hide BlockParts, IndexOf;
    var r := IndexOf(s, ']');
    IndexOfFirst(s, ']');
    var rest := s[r + 1..];
    BrokenAfter(s, r);
    if ']' in rest && rest[0] == ',' {
      AfterComma(rest);
      ScanBreaksIffBroken(rest[1..]);
    }
  }

  /** What lies past the first right bracket decides. */
  lemma BrokenAfter(s: string, r: nat)
    requires r < |s| && s[r] == ']' && Lacks(s, ']', 0, r)
    ensures var rest := s[r + 1..];
            Broken(s) <==> ']' in rest && (rest[0] != ',' || Broken(rest[1..]))
  {
    var rest := s[r + 1..];
    if i :| BrokenAt(s, i) {
      if i > r {
        assert rest[i - r - 1] == ']';
        if rest[0] == ',' {
          assert rest[1..][i - r - 2..][1..] == s[i + 1..];
          assert BrokenAt(rest[1..], i - r - 2);
        }
      }
    }
    if ']' in rest && rest[0] != ',' {
      assert BrokenAt(s, r);
    }
    if ']' in rest && rest[0] == ',' {
      if i :| BrokenAt(rest[1..], i) {
        assert rest[1..][i + 1..] == s[i + r + 3..];
        assert BrokenAt(s, i + r + 2);
      }
    }
  }

  /** When a bracketed list is not followed by a comma, nothing is kept but what follows the
      last one, past one character more. */
  lemma BrokenConverts(nids: string)
    requires Balanced(nids) && Broken(nids)
    ensures var last := LastIndexOf(nids, ']');
            Convert(nids) == if last < |nids| - 1 then nids[last + 2..] else nids
  {
    hide ScanBlocks, LastIndexOf, IndexOf, Broken, Join;
    ScanBreaksIffBroken(nids);
    assert Blocks(nids) == [];
    assert Blocks(nids) + Tail(nids) == Tail(nids);
    var last := LastIndexOf(nids, ']');
    if last < |nids| - 1 {
      JoinOne(nids[last + 2..]);
    }
  }

  /** So the input is returned unchanged exactly if it ends in a bracketed list. */
  lemma BrokenListUnchangedIff(nids: string)
    requires Balanced(nids) && Broken(nids)
    ensures Convert(nids) == nids <==> nids[|nids| - 1] == ']'
  {
    hide Convert, LastIndexOf, Broken;
    BrokenConverts(nids);
    LastIndexOfLast(nids, ']');
    var last := LastIndexOf(nids, ']');
    assert last < |nids| - 1 ==> |nids[last + 2..]| < |nids|;
  }

  /** The shortest kind of input that comes out changed. */
  lemma BrokenListChanged()
    ensures var nids := "a[1]b[2]c";
            Balanced(nids) && Broken(nids) && Convert(nids) == ""
  {
    hide Convert, LastIndexOf, FindOccurrences, Accumulated;
    var nids := "a[1]b[2]c";
    assert nids[3] == ']' && nids[7] == ']';
    assert nids[4..][3] == ']';
    assert BrokenAt(nids, 3);
    assert nids[8..] == "c" && nids[9..] == "";
    LastIndexOfIs(nids, ']', 7);
    hide Broken, BrokenAt;
    BrokenConverts(nids);
  }
}
