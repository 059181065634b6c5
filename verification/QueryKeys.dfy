/** Matching of query keys against column headings (sat/util.py:575-645). */
module QueryKeys {
  import opened Options
  import opened Text

  /** Greedy search: the first letter is matched as early as it can be. */
  function IsSubsequence(needle: string, haystack: string): bool {
    if needle != "" && haystack != "" then
      needle[0] in haystack && IsSubsequence(needle[1..], haystack[IndexOf(haystack, needle[0]) + 1..])
    else needle == ""
  }

  /** `needle` is spelt by the letters of `haystack` at the ascending indices `at`. */
  predicate Embeds(needle: string, haystack: string, at: seq<nat>) {
    && |at| == |needle|
    && (forall i | 0 <= i < |at| :: at[i] < |haystack| && haystack[at[i]] == needle[i])
    && (forall i, j | 0 <= i < j < |at| :: at[i] < at[j])
  }

  function Shift(at: seq<nat>, d: nat): (r: seq<nat>)
    ensures |r| == |at| && forall i | 0 <= i < |at| :: r[i] == at[i] + d
  {
    seq(|at|, i requires 0 <= i < |at| => at[i] + d)
  }

  lemma {:induction false} GreedyFinds(needle: string, haystack: string) returns (at: seq<nat>)
    requires IsSubsequence(needle, haystack)
    ensures Embeds(needle, haystack, at)
  {
    if needle == "" {
      at := [];
    } else {
      var k := IndexOf(haystack, needle[0]);
      var rest := GreedyFinds(needle[1..], haystack[k + 1..]);
      at := [k] + Shift(rest, k + 1);
    }
  }

  /** Matching the first letter early leaves room for the others wherever they were. */
  lemma {:induction false} GreedySuffices(needle: string, haystack: string, at: seq<nat>)
    requires Embeds(needle, haystack, at)
    ensures IsSubsequence(needle, haystack)
  {
    if needle == "" {
    } else {
      var k := IndexOf(haystack, needle[0]);
      IndexOfFirst(haystack, needle[0]);
      assert haystack[at[0]] == needle[0];
      assert forall i | 0 < i < |at| :: at[i] > at[0] >= k;
      var rest: seq<nat> := seq(|at| - 1, i requires 0 <= i < |at| - 1 => at[i + 1] - (k + 1));
      GreedySuffices(needle[1..], haystack[k + 1..], rest);
    }
  }

  lemma IsSubsequenceIff(needle: string, haystack: string)
    ensures IsSubsequence(needle, haystack) <==> exists at: seq<nat> :: Embeds(needle, haystack, at)
  {
    if IsSubsequence(needle, haystack) {
      var at := GreedyFinds(needle, haystack);
    }
    if at: seq<nat> :| Embeds(needle, haystack, at) {
      GreedySuffices(needle, haystack, at);
    }
  }

  // ----- headings -----

  function FirstExact(query: string, headings: seq<string>): Option<string> {
    if headings == [] then None
    else if Lower(headings[0]) == Lower(query) then Some(headings[0])
    else FirstExact(query, headings[1..])
  }

  function Matching(query: string, headings: seq<string>): seq<string> {
    if headings == [] then []
    else
      (if IsSubsequence(Lower(query), Lower(headings[0])) then [headings[0]] else [])
      + Matching(query, headings[1..])
  }

  function MatchQueryKey(query: string, headings: seq<string>): Option<string> {
    match FirstExact(query, headings)
    case Some(key) => Some(key)
    case None => if Matching(query, headings) == [] then None else Some(Matching(query, headings)[0])
  }

  predicate Exact(query: string, heading: string) {
    Lower(heading) == Lower(query)
  }

  ghost predicate Spelt(query: string, heading: string) {
    exists at: seq<nat> :: Embeds(Lower(query), Lower(heading), at)
  }

  /** `i` is the first heading that is the key up to case. */
  ghost predicate FirstExactAt(query: string, headings: seq<string>, i: nat) {
    i < |headings| && Exact(query, headings[i]) && forall j | 0 <= j < i :: !Exact(query, headings[j])
  }

  /** `i` is the first heading that spells the key. */
  ghost predicate FirstSpeltAt(query: string, headings: seq<string>, i: nat) {
    i < |headings| && Spelt(query, headings[i]) && forall j | 0 <= j < i :: !Spelt(query, headings[j])
  }

  lemma {:induction false} FirstExactIs(query: string, headings: seq<string>)
    ensures match FirstExact(query, headings)
            case Some(key) => exists i: nat | i < |headings| :: FirstExactAt(query, headings, i) && headings[i] == key
            case None => forall j | 0 <= j < |headings| :: !Exact(query, headings[j])
  {
    if headings == [] {
    } else {
      if Exact(query, headings[0]) {
        assert FirstExactAt(query, headings, 0);
      } else {
        var rest := headings[1..];
        FirstExactIs(query, rest);
        if FirstExact(query, rest).Some? {
          var i: nat :| i < |rest| && FirstExactAt(query, rest, i) && rest[i] == FirstExact(query, rest).value;
          assert headings[i + 1] == rest[i] && FirstExactAt(query, headings, i + 1);
        }
      }
    }
  }

  lemma {:induction false} FirstMatchingIs(query: string, headings: seq<string>)
    ensures Matching(query, headings) == [] ==> forall j | 0 <= j < |headings| :: !Spelt(query, headings[j])
    ensures Matching(query, headings) != [] ==>
              exists i: nat | i < |headings| ::
                FirstSpeltAt(query, headings, i) && headings[i] == Matching(query, headings)[0]
  {
    if headings == [] {
    } else {
      IsSubsequenceIff(Lower(query), Lower(headings[0]));
      var rest := headings[1..];
      FirstMatchingIs(query, rest);
      if Spelt(query, headings[0]) {
        assert FirstSpeltAt(query, headings, 0);
      } else if Matching(query, rest) != [] {
        var i: nat :| i < |rest| && FirstSpeltAt(query, rest, i) && rest[i] == Matching(query, rest)[0];
        assert headings[i + 1] == rest[i] && FirstSpeltAt(query, headings, i + 1);
      }
    }
  }

  lemma ExactIsSpelt(query: string, heading: string)
    requires Exact(query, heading)
    ensures Spelt(query, heading)
  {
    assert Embeds(Lower(query), Lower(heading), seq(|query|, i => i));
  }

  /** The first exact match; if there is none the first heading that spells the key; if
      there is none of these either, nothing. */
  lemma MatchQueryKeyIs(query: string, headings: seq<string>)
    ensures match MatchQueryKey(query, headings)
            case Some(key) =>
              exists i | 0 <= i < |headings| :: headings[i] == key
                && (FirstExactAt(query, headings, i)
                    || ((forall j | 0 <= j < |headings| :: !Exact(query, headings[j]))
                        && FirstSpeltAt(query, headings, i)))
            case None => forall j | 0 <= j < |headings| :: !Exact(query, headings[j]) && !Spelt(query, headings[j])
  {
    FirstExactIs(query, headings);
    FirstMatchingIs(query, headings);
  }
}
