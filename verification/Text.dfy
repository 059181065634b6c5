/** The string operations that nid lists, query keys and names are worked on with. */
module Text {
  function LowerChar(c: char): char {
    if 'A' <= c <= 'Z' then c - 'A' + 'a' else c
  }

  /** `s.lower()` on ASCII. */
  function Lower(s: string): (r: string)
    ensures |r| == |s| && forall i | 0 <= i < |s| :: r[i] == LowerChar(s[i])
  {
    seq(|s|, i requires 0 <= i < |s| => LowerChar(s[i]))
  }

  /** The 26 capital letters of ASCII, 65 to 90, become the small ones 32 further on; nothing
      else changes. */
  lemma LowerIs(s: string, i: nat)
    requires i < |s|
    ensures Lower(s)[i] as int == s[i] as int + if 65 <= s[i] as int <= 90 then 32 else 0
  {
  }

  ghost predicate Lacks(s: string, ch: char, lo: nat, hi: nat)
    requires hi <= |s|
  {
    forall i | lo <= i < hi :: s[i] != ch
  }

  // ----- the first and the last index -----

  /** The first index of `ch`, or the length when there is none. */
  function IndexOf(s: string, ch: char): (r: nat)
    ensures r <= |s| && (r < |s| ==> s[r] == ch)
    ensures ch in s <==> r < |s|
  {
    if s == "" || s[0] == ch then 0 else 1 + IndexOf(s[1..], ch)
  }

  lemma {:induction false} IndexOfFirst(s: string, ch: char)
    ensures Lacks(s, ch, 0, IndexOf(s, ch))
  {
    if s == "" || s[0] == ch {
    } else {
      IndexOfFirst(s[1..], ch);
      assert forall i | 0 < i < |s| :: s[i] == s[1..][i - 1];
    }
  }

  lemma IndexOfIs(s: string, ch: char, i: nat)
    requires i < |s| && s[i] == ch && Lacks(s, ch, 0, i)
    ensures IndexOf(s, ch) == i
  {
    IndexOfFirst(s, ch);
  }

  lemma IndexOfConcat(a: string, b: string, ch: char)
    requires ch !in a
    ensures IndexOf(a + b, ch) == |a| + IndexOf(b, ch)
  {
    IndexOfFirst(b, ch);
    if ch in b {
      IndexOfIs(a + b, ch, |a| + IndexOf(b, ch));
    }
  }

  /** The last index of `ch`. */
  function LastIndexOf(s: string, ch: char): (r: nat)
    requires ch in s
    ensures r < |s| && s[r] == ch
  {
    if s[|s| - 1] == ch then |s| - 1 else LastIndexOf(s[..|s| - 1], ch)
  }

  lemma {:induction false} LastIndexOfLast(s: string, ch: char)
    requires ch in s
    ensures Lacks(s, ch, LastIndexOf(s, ch) + 1, |s|)
  {
    if s[|s| - 1] == ch {
    } else {
      LastIndexOfLast(s[..|s| - 1], ch);
    }
  }

  lemma LastIndexOfIs(s: string, ch: char, i: nat)
    requires i < |s| && s[i] == ch && Lacks(s, ch, i + 1, |s|)
    ensures ch in s && LastIndexOf(s, ch) == i
  {
    LastIndexOfLast(s, ch);
  }

  lemma LastIndexOfConcat(a: string, b: string, ch: char)
    requires ch in b
    ensures ch in a + b && LastIndexOf(a + b, ch) == |a| + LastIndexOf(b, ch)
  {
    LastIndexOfLast(b, ch);
    LastIndexOfIs(a + b, ch, |a| + LastIndexOf(b, ch));
  }

  // ----- splitting and joining -----

  /** `s.split(ch)`. */
  function Split(s: string, ch: char): (r: seq<string>)
    ensures r != [] && r[0] == s[..IndexOf(s, ch)]
    ensures ch in s ==> |r| >= 2
  {
    var i := IndexOf(s, ch);
    if i == |s| then [s] else [s[..i]] + Split(s[i + 1..], ch)
  }

  /** The parts have no separator, ... */
  lemma {:induction false} SplitPartsLack(s: string, ch: char)
    ensures forall p | p in Split(s, ch) :: ch !in p
    decreases |s|
  {
    IndexOfFirst(s, ch);
    hide IndexOf;
    var i := IndexOf(s, ch);
    if i == |s| {
    } else {
      SplitPartsLack(s[i + 1..], ch);
      assert Split(s, ch) == [s[..i]] + Split(s[i + 1..], ch);
      hide Split;
    }
  }

  /** ... and joining them undoes the split. */
  lemma {:induction false} JoinSplit(s: string)
    ensures Join(Split(s, ',')) == s
    decreases |s|
  {
    var i := IndexOf(s, ',');
    if i == |s| {
      JoinOne(s);
    } else {
      JoinSplit(s[i + 1..]);
      JoinCons(s[..i], Split(s[i + 1..], ','));
      assert s == s[..i] + "," + s[i + 1..];
    }
  }

  /** `','.join(parts)`. */
  function Join(parts: seq<string>): string {
    if parts == [] then "" else if |parts| == 1 then parts[0] else parts[0] + "," + Join(parts[1..])
  }

  lemma JoinOne(part: string)
    ensures Join([part]) == part
  {
  }

  lemma JoinCons(part: string, parts: seq<string>)
    requires parts != []
    ensures Join([part] + parts) == part + "," + Join(parts)
  {
    assert ([part] + parts)[1..] == parts;
  }

  lemma {:induction false} JoinConcat(a: seq<string>, b: seq<string>)
    requires a != [] && b != []
    ensures Join(a + b) == Join(a) + "," + Join(b)
  {
    if |a| == 1 {
      JoinCons(a[0], b);
    } else {
      JoinConcat(a[1..], b);
      JoinCons(a[0], a[1..] + b);
      assert a + b == [a[0]] + (a[1..] + b);
    }
  }

  lemma SplitAtFirst(a: string, b: string, ch: char)
    requires ch !in a
    ensures Split(a + [ch] + b, ch) == [a] + Split(b, ch)
  {
    var s := a + [ch] + b;
    assert IndexOf(s, ch) == |a| by {
      assert s == a + ([ch] + b);
      IndexOfConcat(a, [ch] + b, ch);
    }
    hide IndexOf;
    assert s[..|a|] == a && s[|a| + 1..] == b;
  }

  /** Splitting undoes joining. */
  lemma {:induction false} SplitJoin(parts: seq<string>)
    requires parts != [] && forall p | p in parts :: ',' !in p
    ensures Split(Join(parts), ',') == parts
  {
    if |parts| <= 1 {
    } else {
      SplitJoin(parts[1..]);
      SplitAtFirst(parts[0], Join(parts[1..]), ',');
      assert parts == [parts[0]] + parts[1..];
    }
  }

  // ----- all indices -----

  /** `find_occurrences`. */
  function FindOccurrences(s: string, ch: char): (r: seq<nat>)
    ensures forall k | 0 <= k < |r| :: r[k] < |s|
  {
    if s == "" then []
    else FindOccurrences(s[..|s| - 1], ch) + if s[|s| - 1] == ch then [|s| - 1] else []
  }

  /** It lists the indices of `ch` in ascending order, ... */
  lemma {:induction false} OccurrencesAscend(s: string, ch: char)
    ensures forall k | 0 <= k < |FindOccurrences(s, ch)| :: s[FindOccurrences(s, ch)[k]] == ch
    ensures Ascending(FindOccurrences(s, ch))
  {
    if s == "" {
    } else {
      OccurrencesAscend(s[..|s| - 1], ch);
    }
  }

  /** ... all of them, ... */
  lemma {:induction false} OccurrencesComplete(s: string, ch: char, i: nat)
    requires i < |s| && s[i] == ch
    ensures i in FindOccurrences(s, ch)
  {
    if i == |s| - 1 {
    } else {
      OccurrencesComplete(s[..|s| - 1], ch, i);
    }
  }

  /** ... and has as many elements as `ch` occurs. */
  lemma {:induction false} OccurrencesCount(s: string, ch: char)
    ensures |FindOccurrences(s, ch)| == multiset(s)[ch]
  {
    if s == "" {
    } else {
      OccurrencesCount(s[..|s| - 1], ch);
      assert s == s[..|s| - 1] + [s[|s| - 1]];
    }
  }

  lemma NoOccurrence(s: string, ch: char)
    ensures FindOccurrences(s, ch) == [] <==> ch !in s
  {
    OccurrencesCount(s, ch);
  }

  lemma OneOccurrence(s: string, ch: char, i: nat)
    requires i < |s| && s[i] == ch && Lacks(s, ch, 0, i) && Lacks(s, ch, i + 1, |s|)
    ensures FindOccurrences(s, ch) == [i]
  {
    OccurrencesComplete(s, ch, i);
    OccurrencesAscend(s, ch);
    OneElement(FindOccurrences(s, ch), i);
  }

  ghost predicate Ascending(r: seq<nat>) {
    forall k, l | 0 <= k < l < |r| :: r[k] < r[l]
  }

  lemma AscendingEnds(r: seq<nat>, k: nat)
    requires Ascending(r) && k < |r|
    ensures r[k] <= r[|r| - 1]
    ensures |r| > 1 ==> r[0] != r[1]
  {
  }

  lemma OneElement(r: seq<nat>, i: nat)
    requires Ascending(r) && i in r && forall k | 0 <= k < |r| :: r[k] == i
    ensures r == [i]
  {
    AscendingEnds(r, 0);
  }

  lemma LastOccurrence(s: string, ch: char)
    requires ch in s
    ensures FindOccurrences(s, ch) != []
    ensures FindOccurrences(s, ch)[|FindOccurrences(s, ch)| - 1] == LastIndexOf(s, ch)
  {
    hide FindOccurrences, LastIndexOf;
    OccurrencesAscend(s, ch);
    OccurrencesComplete(s, ch, LastIndexOf(s, ch));
    LastIndexOfLast(s, ch);
    var r := FindOccurrences(s, ch);
    var k :| 0 <= k < |r| && r[k] == LastIndexOf(s, ch);
    AscendingEnds(r, k);
    assert s[r[|r| - 1]] == ch;
  }

  /** Where the search for the `k`-th occurrence starts. */
  function Past(s: string, ch: char, k: nat): (a: nat)
    requires k <= |FindOccurrences(s, ch)|
    ensures a <= |s|
  {
    if k == 0 then 0 else FindOccurrences(s, ch)[k - 1] + 1
  }

  lemma NoneAt(s: string, ch: char, k: nat, i: nat)
    requires k <= |FindOccurrences(s, ch)| && Past(s, ch, k) <= i < |s|
    requires k < |FindOccurrences(s, ch)| ==> i < FindOccurrences(s, ch)[k]
    ensures s[i] != ch
  {
    hide FindOccurrences;
    OccurrencesAscend(s, ch);
    var r := FindOccurrences(s, ch);
    if s[i] == ch {
      OccurrencesComplete(s, ch, i);
    }
    forall j | 0 <= j < |r| ensures r[j] != i {
      assert j < k ==> r[j] <= r[k - 1];
      assert k <= j ==> r[k] <= r[j];
    }
  }

  lemma NoneBetween(s: string, ch: char, k: nat)
    requires k <= |FindOccurrences(s, ch)|
    ensures Lacks(s, ch, Past(s, ch, k), if k == |FindOccurrences(s, ch)| then |s| else FindOccurrences(s, ch)[k])
  {
    hide FindOccurrences;
    var end := if k == |FindOccurrences(s, ch)| then |s| else FindOccurrences(s, ch)[k];
    forall i | Past(s, ch, k) <= i < end ensures s[i] != ch {
      NoneAt(s, ch, k, i);
    }
  }

  lemma NextOccurrence(s: string, ch: char, k: nat)
    requires k < |FindOccurrences(s, ch)|
    ensures var a := Past(s, ch, k);
            ch in s[a..] && a + IndexOf(s[a..], ch) == FindOccurrences(s, ch)[k]
  {
    hide FindOccurrences, IndexOf;
    OccurrencesAscend(s, ch);
    NoneBetween(s, ch, k);
    var a := Past(s, ch, k);
    var b := FindOccurrences(s, ch)[k];
    assert k > 0 ==> FindOccurrences(s, ch)[k - 1] < b;
    assert s[a..][b - a] == ch;
    IndexOfIs(s[a..], ch, b - a);
  }

  lemma NoMoreOccurrences(s: string, ch: char)
    ensures ch !in s[Past(s, ch, |FindOccurrences(s, ch)|)..]
  {
    NoneBetween(s, ch, |FindOccurrences(s, ch)|);
  }
}
