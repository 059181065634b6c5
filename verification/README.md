# A verified model of SAT's waiting, naming and filtering core

SAT, the System Admin Toolkit, drives long operations on a supercomputer: it builds images
that depend on each other, translates node ids to xnames, filters tables and inventories
hardware. This project models the parts of it that take the most care to get right, and
proves what they promise, for all inputs and all runs.

## The dependency scheduler

Objects that depend on each other (in practice the images of a bootprep input file) hold
their direct dependencies and dependents in two sets. `Members` models these objects,
`DependencyGraph` the graph they form and its mathematics (transitive dependencies, cycles,
longest chains). `DependencyWaiter` models the waiter as a class with the source's fields
and loops. `Scheduler` restates it as a step machine in which poll answers, failures of
`begin`, timeouts, retries and the order in which sets are visited are all left open; each
method of the class records the steps it takes, and what is proved about runs of the machine
thereby holds of the class. `DrivenRuns` ties the steps to what polls answered and what
`begin` raised. `SchedulerResults` has the theorems about runs, `SchedulerLimits` the exact
conditions they need, and `Images` the one use of the scheduler.

Three promises are not kept on every acyclic graph. The release test asks only whether a
transitive dependency is pending or has failed, and a dependency that has not been released
yet is neither; and a member is visited anew from each of its dependencies that completes.

- A member is begun only after everything it depends on has completed: this holds in every
  run if and only if any two direct dependencies of a member have the same transitive
  dependencies (`OrderSafeIffSiblingsAgree`). The smallest graph outside is a triangle.
- Nothing is begun that depends on a failed member, and when a run ends every member has
  succeeded, has failed, or was never begun because something it depends on failed. Each of
  these holds in every run under the same condition (`NoneBegunAboveFailureIffSiblingsAgree`,
  `SettlesIffSiblingsAgree`).
- A member is begun at most once: this holds in every run if and only if no member has two
  direct dependencies (`OnceIffAtMostOneDependency`). On a diamond, a `begin` that raises is
  called again in the same round. As this condition implies the other one, it is exact for
  order and this together as well (`CorrectIffAtMostOneDependency`).

The graphs `find_image_dependencies` builds have at most one dependency per member, so the
scheduling in `create_images` keeps all three promises. The bound on the number of polling rounds
needs no more than an acyclic graph.

## The other parts

- `GroupWaiters` and `SimultaneousWaiters`: the waiter for a group without dependencies, and
  the one that runs a thread per condition, under every interleaving of the threads with the
  parent's reads of their flags. The latter's answer is True exactly in the runs that do not
  run out of time (`ResultIffNotExpired`), and True is sound. False says nothing: however many
  subwaiters there are, all of them may have completed (`CompletedButReturnsFalse`). So the
  answer is exact in all runs if and only if there is no timeout (`ExactIffNoTimeout`).
- `Text`, `Nids`, `NidItems`, `Decimals`, `NidLists`: node id lists with bracketed parts such
  as `nid[1-3,7],12`. The docstring at sat/cli/nid2xname/main.py:172 says that the original is
  returned on errors; where brackets are not separated by a comma that is so only if the text
  ends in a bracket, and otherwise all but the end of it is lost (`BrokenListUnchangedIff`).
  An example is `a[1]b[2]c`, which becomes the empty text (`BrokenListChanged`). A descending
  range is passed on as one argument with its dash, so that a list has only numerals looked up
  exactly when none of its ranges descends (`NumeralsIffNoneDescends`).
- `Filters` and `QueryKeys`: the grammar of filter queries over tokens, with evaluation, and
  the matching of query keys against column headings.
- `XNames`, `XNameOrder`, `ParentNodes`, `Systems`: component names as tokens, their order and
  containment, and the links between nodes, chassis and node components. `get_ancestor(0)`
  returns the empty name where the docstring leads one to expect the name itself, so that
  ancestors compose exactly under the condition in `AncestorsCompose`. Names compare without
  regard to case, but the pattern for a parent node is matched against the name as it is
  spelt, so the exact condition for having a parent is about the spelling (`ParentNodeIs`),
  and all names equal to a given one agree on it exactly when its tokens do not begin with the
  fields of a node (`SpellingMattersIff`).

Poll answers and failures of `begin` are parameters: functions of the member and the round,
or of the member and the number of the call. The clock is an object that never runs
backwards, that a sleep advances by at least the time asked for, and that records what it is
asked. Sets are visited in an arbitrary order.

## Model

| member | source | states |
|---|---|---|
| DependencyGraph.FullDepsPath | sat/waiting.py:463-480 | every transitive dependency is at the end of a chain of one or more direct ones; with PathWithinFullDeps this makes the closure exactly the reachable members |
| DependencyGraph.PathWithinFullDeps | sat/waiting.py:463-480 | whatever a chain reaches after its start is a transitive dependency of the start |
| DependencyGraph.AddEdgeAcyclic | sat/waiting.py:407-432 | a new edge keeps the graph acyclic exactly when its target does not reach its source |
| DependencyGraph.CyclicHasCycle | sat/waiting.py:367-380 | a graph that is not acyclic has a closed chain |
| DependencyGraph.CycleRefutesAcyclic | sat/waiting.py:367-380 | a closed chain makes a graph not acyclic |
| DependencyGraph.RankDecreases | sat/waiting.py:451-458 | why `depends_on` ends without a visited set: transitive dependencies shrink along every edge of an acyclic graph |
| DependencyGraph.LongestChainIsLongest | sat/waiting.py:522-548 | the bound on rounds is stated with the length of a chain that exists and that no chain exceeds |
| Members.DependencyGroupMember.constructor | sat/waiting.py:385-389 | a new member has no dependencies and no dependents |
| Members.DependencyGroupMember.DependsOn | sat/waiting.py:434-461 | the chain is non-empty exactly when the other member is this one or a transitive dependency, and is then a chain of direct dependencies from this one to the other, after the one passed in |
| Members.DependencyGroupMember.FullDependencies | sat/waiting.py:463-480 | returns exactly the transitive closure, on any finite graph, cyclic or not |
| Members.DependencyGroupMember.AddDependency | sat/waiting.py:407-432 | keeps the graph acyclic and the two relations inverse; raises exactly when the edge would close a cycle, changes nothing then and reports a real cycle; otherwise adds that edge and no other |
| Scheduler.UnblockedIsReady | sat/waiting.py:542 | where siblings agree, a dependent that passes the release test has all its direct dependencies completed |
| Scheduler.ReadyIsUnblocked | sat/waiting.py:542 | a member whose direct dependencies have completed passes the release test |
| Scheduler.VisitKeepsInv | sat/waiting.py:536-544 | the visit of a dependent keeps the scheduling invariant, whether it is released or not and whether its `begin` raises or not |
| Scheduler.StepKeepsInv | sat/waiting.py:498-548 | so does every step |
| Scheduler.RunKeepsInv | sat/waiting.py:498-548 | and so every run |
| Scheduler.InvOrderSafe | sat/waiting.py:498-548 | under the invariant, whatever has been begun has all its transitive dependencies completed and none failed |
| SchedulerResults.RunKeepsOnce | sat/waiting.py:498-548 | with at most one dependency per member, members still to be visited in a round have not been begun and are to be visited once |
| SchedulerResults.RunBeginsOnce | sat/waiting.py:498-548 | with at most one dependency per member, no run calls `begin` twice on one member, even where `begin` raises |
| SchedulerResults.BegunTwiceOnlyAfterFailure | sat/waiting.py:498-515 | on any graph, a run in which no `begin` raises calls `begin` at most once per member |
| SchedulerResults.FinishedIsSettled | sat/waiting.py:522-548 | at a loop head with nothing pending, each member is in exactly one of: succeeded; failed; never begun because a transitive dependency failed |
| SchedulerResults.RunSettles | sat/waiting.py:517-548 | every run that ends with nothing pending settles every member that way; none failed exactly when all succeeded |
| SchedulerResults.NothingBegunAboveFailure | sat/waiting.py:536-544 | nothing that depends on a failed member is begun in any run |
| SchedulerResults.RunOnTime | sat/waiting.py:522-548 | when each member answers within k polls, a member at height h is waited for no later than round k·h |
| SchedulerResults.RoundsBelow | sat/waiting.py:522-548 | a round is started only if fewer than k times the longest chain have been made, on any acyclic graph |
| SchedulerResults.RoundsBounded | sat/waiting.py:522-548 | no run has more rounds than k times the longest chain |
| SchedulerLimits.Complete | sat/waiting.py:522-548 | any down-closed set of members can be brought to completion first, unless on the way something is begun before a member below it is visited |
| SchedulerLimits.EarlyBegin | sat/waiting.py:536-544 | if something below one direct dependency is not below another, some run begins a member too early, with one below it still to be visited in that round |
| SchedulerLimits.OrderSafeIffSiblingsAgree | sat/waiting.py:536-544 | all runs keep the order if and only if the direct dependencies of each member have the same transitive dependencies |
| SchedulerLimits.FailLate | sat/waiting.py:510-515 | the `begin` of that one can then fail, after the member above it has been begun |
| SchedulerLimits.EndRun | sat/waiting.py:522-548 | any round can be brought to its end and the run ended in the next, keeping all calls and failures |
| SchedulerLimits.BegunAboveFailure | sat/waiting.py:536-544 | wherever siblings do not agree, some run ends with a member begun above a failed one |
| SchedulerLimits.NoneBegunAboveFailureIffSiblingsAgree | sat/waiting.py:536-544 | in all runs nothing is begun above a failed member, if and only if the direct dependencies of each member have the same transitive dependencies |
| SchedulerLimits.SettlesIffSiblingsAgree | sat/waiting.py:517-548 | all runs that end leave each member succeeded, failed, or never begun because of a failure below it, under the same condition and no other |
| SchedulerLimits.CompleteOne | sat/waiting.py:522-548 | below a member all of whose dependencies form chains, any ready member can complete in a round of its own, and if it was the last one pending there its dependent is begun, with failure |
| SchedulerLimits.TwiceOnChain | sat/waiting.py:536-544 | if one direct dependency lies below another, some run calls `begin` of their dependent after the lower one and again after the last one |
| SchedulerLimits.TwiceInOneRound | sat/waiting.py:536-544 | if neither does, some run calls it twice in the round in which both complete |
| SchedulerLimits.BegunTwice | sat/waiting.py:510-515 | whenever some member has two direct dependencies, some run calls `begin` twice on one member |
| SchedulerLimits.OnceIffAtMostOneDependency | sat/waiting.py:498-548 | all runs begin each member at most once if and only if no member has two direct dependencies |
| SchedulerLimits.CorrectIffAtMostOneDependency | sat/waiting.py:498-548 | all runs keep the order and begin at most once if and only if no member has two direct dependencies |
| SchedulerLimits.TriangleBeginsEarly | sat/waiting.py:536-544 | the smallest graph on which the order is violated |
| SchedulerLimits.DiamondAgrees | sat/waiting.py:536-544 | on a diamond siblings agree, and every run keeps the order |
| SchedulerLimits.DiamondBeginsTwice | sat/waiting.py:510-515 | but it can call `begin` twice |
| DependencyWaiter.DependencyGroupWaiter.constructor | sat/waiting.py:486-496 | the members without dependencies are pending, nothing has been begun or has failed, and the run is empty |
| DrivenRuns.StepExplained | sat/waiting.py:498-548 | a step taken as polls answer and `begin` raises keeps the account of why each member succeeded or failed |
| DrivenRuns.RunExplained | sat/waiting.py:498-548 | in every run so driven, what succeeded was polled complete, what failed was polled with WaitingFailure or raised it when begun, a call of `begin` that raised put its member in `failed`, and one that did not put it in `begun` |
| DependencyWaiter.DependencyGroupWaiter.BeginMember | sat/waiting.py:498-515 | nothing for a member begun already; otherwise one call, after which the member has failed exactly if that call raised, and has begun otherwise |
| DependencyWaiter.DependencyGroupWaiter.PreWaitAction | sat/waiting.py:517-520 | `begin` of each pending member is called once, and those that failed are no longer pending; as steps of the run, with no poll made |
| DependencyWaiter.DependencyGroupWaiter.PollMembers | sat/waiting.py:525-535 | polls every pending member once, drops those that completed or failed, and returns those that completed |
| DependencyWaiter.DependencyGroupWaiter.ReleaseDependent | sat/waiting.py:542-544 | the release test and its effect on the fields, with `begin` failing exactly if the call made raises |
| DependencyWaiter.DependencyGroupWaiter.ReleaseDependents | sat/waiting.py:536-544 | extends the run by visits of each dependent of each completed member once, in some order |
| DependencyWaiter.DependencyGroupWaiter.WaitPollingLoop | sat/waiting.py:522-548 | extends the run and ends; there was time left before each round and a sleep after it, and it ends incomplete exactly if no time was left at the last reading of the clock; completed exactly when nothing is pending, which without a timeout is always |
| DependencyWaiter.DependencyGroupWaiter.WaitForCompletion | sat/waiting.py:155-190 | over all attempts, one more than retries used: returns what is pending; successes and failures are those that polls and `begin` calls reported; where siblings agree the order is kept and a completed run settles every member; with single dependencies nothing is begun twice; incomplete only if all retries are used, each attempt until it was out of time; at most k times the longest chain rounds |
| Images.CountTwice | sat/cli/bootprep/image.py:46-63 | a name is counted twice exactly when two images have it |
| Images.ValidateUniqueImageNames | sat/cli/bootprep/image.py:46-63 | accepts exactly the inputs in which no two images have the same name |
| Images.ByNameFinds | sat/cli/bootprep/image.py:198-199 | the name table finds an image of that name for each name in the input |
| Images.ReferencesShape | sat/cli/bootprep/image.py:201-213 | the graph of base image names has at most one edge per image |
| Images.ByNameIsLast | sat/cli/bootprep/image.py:198-199 | of images with the same name the table holds the last one |
| Images.ReferencesAre | sat/cli/bootprep/image.py:201-213 | for uniquely named images, one refers to another exactly if it is not built from a recipe and names the other as its base |
| Images.ReferencesIgnoreOrder | sat/cli/bootprep/image.py:198-213 | for uniquely named images it does not depend on their order |
| Images.AddBase | sat/cli/bootprep/image.py:201-216 | one image's named base is recorded, or refused with the graph of references cyclic; an image built from a recipe or by id, or whose base is not among the images, gets no dependency |
| Images.FindImageDependencies | sat/cli/bootprep/image.py:157-220 | raises exactly when the graph of references has a cycle; otherwise each image depends on exactly the image named as its base, if there is one; acyclic in both cases |
| Images.ToCreateKeeps | sat/cli/bootprep/image.py:151-154 | skipping keeps every other image as often as it was given |
| Images.RunFinishes | sat/cli/bootprep/image.py:405-411 | an ended run on such a graph has every guarantee at once: order, at most once, outcome, rounds |
| Images.RunWaiter | sat/cli/bootprep/image.py:404-408 | on an acyclic graph of single dependencies the waiter comes to its end with every guarantee, as polls answer and `begin` raises; `failed` is empty exactly when all succeeded; each round is followed by a sleep of 10 |
| Images.CreateImages | sat/cli/bootprep/image.py:371-411 | refuses non-unique names, else circular references, and then begins nothing; otherwise runs to the end with all those guarantees, succeeds exactly when every image does and else reports how many failed, as polls answered and `begin` raised |
| GroupWaiters.GroupWaiter.PollMembers | sat/waiting.py:346-360 | a round polls the pending members that have not failed; after it each member is pending with every poll so far answered False, was reported complete in this attempt, or is in `failed` |
| GroupWaiters.GroupWaiter.OneMoreWithin | sat/waiting.py:345-362 | while a member is pending and there is time, the rounds of an attempt are below timeout / poll interval, rounded up, and below k if members answer within k polls |
| GroupWaiters.GroupWaiter.WaitPollingLoop | sat/waiting.py:334-364 | that classification holds at the end of an attempt; there was time left before each round and a sleep after it, and the attempt ends incomplete exactly if no time was left at the last reading of the clock; without a timeout it completes |
| GroupWaiters.GroupWaiter.WaitForCompletion | sat/waiting.py:155-190 | one attempt more than retries used, each but the last out of time, and incomplete only if all retries are used; at most (retries + 1) times as many rounds; each failed member raised at some poll; returns what is pending in the last attempt |
| SimultaneousWaiters.FlagsAreMonotone | sat/waiting.py:148-190 | once set, a `completed` flag stays set through any interleaving |
| SimultaneousWaiters.ReturnIsSound | sat/waiting.py:238-278 | under every interleaving, on return all threads have ended, and True means that every subwaiter has completed |
| SimultaneousWaiters.ResultIffNotExpired | sat/waiting.py:148-190 | under every interleaving, the answer is True exactly if the parent has not run out of time |
| SimultaneousWaiters.CompletedButReturnsFalse | sat/waiting.py:265-278 | for any number of subwaiters, an interleaving that runs out of time and returns False though all have completed |
| SimultaneousWaiters.CompletedCanReturnTrue | sat/waiting.py:268-278 | whenever all subwaiters have completed and the parent looks in time, it can return True |
| SimultaneousWaiters.ExactIffNoTimeout | sat/waiting.py:148-190 | for any number of subwaiters, the answer says in every run whether all have completed, if and only if there is no timeout |
| Text.OccurrencesAscend | sat/cli/nid2xname/main.py:115-125 | the indices found are of the character, in ascending order |
| Text.OccurrencesComplete | sat/cli/nid2xname/main.py:115-125 | every index of the character is found |
| Text.LowerIs | sat/util.py:629 | the 26 capital letters of ASCII are lowered and nothing else changes |
| Text.SplitPartsLack | sat/cli/nid2xname/main.py:252 | the parts of a split have no separator |
| Text.JoinSplit | sat/cli/nid2xname/main.py:252 | joining with commas undoes splitting at commas |
| Text.SplitJoin | sat/cli/nid2xname/main.py:145 | splitting at commas undoes joining with commas |
| Nids.ConvertPdshNidList | sat/cli/nid2xname/main.py:128-156 | the loop computes the specification that ConvertOneIs gives the meaning of |
| Nids.PieceIs | sat/cli/nid2xname/main.py:145-152 | the prefix goes before an element, and before its second half too exactly if it has one dash |
| Nids.ConvertBlock | sat/cli/nid2xname/main.py:190-201 | one block contributes the text before its prefix, if there is any, and its converted bracketed list |
| Nids.ConvertPdshListsToStandardLists | sat/cli/nid2xname/main.py:159-213 | for every input, broken ones included, the index loop computes what a left-to-right scan of blocks does |
| Nids.ScanBreaksIffBroken | sat/cli/nid2xname/main.py:181-187 | the error occurs exactly if a right bracket other than the last is not followed by a comma |
| Nids.UnbalancedUnchanged | sat/cli/nid2xname/main.py:178 | without right brackets, or with more brackets of one kind, the original is returned |
| Nids.BrokenConverts | sat/cli/nid2xname/main.py:183-213 | what is then returned is the text past the last right bracket and one character more, or the original if nothing follows that bracket |
| Nids.BrokenListUnchangedIff | sat/cli/nid2xname/main.py:183-187 | so in the error case the original is returned exactly if the text ends in a bracket |
| Nids.BrokenListChanged | sat/cli/nid2xname/main.py:172 | an input in the error case that becomes the empty text |
| NidItems.AccumulatedIsJoin | sat/cli/nid2xname/main.py:145-152 | the loop joins the pieces with commas, dropping empty ones at the front only |
| NidItems.ConvertOneIs | sat/cli/nid2xname/main.py:128-156 | a printed bracketed item becomes its elements, each with the prefix, both halves of a range included; what would become empty, or has no brackets, stays as it was |
| NidItems.ConvertedIs | sat/cli/nid2xname/main.py:175-206 | the scan commutes with the printer for every non-empty list of well-formed items |
| NidItems.ConvertPrinted | sat/cli/nid2xname/main.py:159-213 | converting the text of any well-formed list gives the text of its expansion, in order |
| Decimals.CanonicalIsDecimal | sat/cli/nid2xname/main.py:84 | stripping leading zeros from a numeral gives the decimal form of its value, zero included |
| Decimals.ValueOfDecimal | sat/cli/nid2xname/main.py:104 | the decimal form of a number reads as that number |
| Decimals.ValueIsPlaced | sat/cli/nid2xname/main.py:104 | a numeral is read place by place, in tens |
| Decimals.NoLeadingZero | sat/cli/nid2xname/main.py:104 | the decimal form of a number has no leading zero |
| NidLists.FixupNidIs | sat/cli/nid2xname/main.py:71-84 | a nid, with or without its `nid`, becomes the decimal form of its number |
| NidLists.FixupNidSpelt | sat/cli/nid2xname/main.py:71-84 | of any text, a leading `nid` is dropped, then all leading zeros, and '0' put for what would be empty |
| NidLists.ParseSingle | sat/cli/nid2xname/main.py:87-112 | a single nid yields its number |
| NidLists.ParseRange | sat/cli/nid2xname/main.py:87-112 | an ascending range yields all numbers from one end to the other, one by one |
| NidLists.IntervalIs | sat/cli/nid2xname/main.py:104 | the numbers of a range are hi - lo + 1 many, and the i-th of them is lo + i |
| NidLists.ParseNidArgIs | sat/cli/nid2xname/main.py:87-112 | every argument: a range of numerals that does not descend yields its numbers, anything else is passed on as one nid |
| NidLists.EmptyPartsSkipped | sat/cli/nid2xname/main.py:252 | empty parts of a list yield nothing |
| NidLists.Example | sat/cli/nid2xname/main.py:239-253 | `nid00[1-3,7],12` yields 1, 2, 3, 7 and 12 |
| NidLists.RangeYieldsNumeralsIff | sat/cli/nid2xname/main.py:98-112 | a range yields numerals exactly when it does not descend |
| NidLists.NidsOfWritten | sat/cli/nid2xname/main.py:239-253 | conversion, splitting and parsing of any valid list yield the decimal forms of exactly the numbers it denotes, in order and with repetitions |
| NidLists.NidsOfNumeric | sat/cli/nid2xname/main.py:239-253 | also where ranges descend, what is parsed is the parts of the expanded list |
| NidLists.NumeralsIffNoneDescends | sat/cli/nid2xname/main.py:98-112 | a list of numerals and ranges of them has only numerals looked up exactly when no range in it descends, in brackets or not |
| Filters.AndRun | sat/filtering.py:366-376 | the first run of `and` of an alternating query is parsed to its end and evaluates as the conjunction from left to right |
| Filters.AlternatingIs | sat/filtering.py:366-394 | a query alternates exactly if its length is odd and comparisons stand at even places |
| Filters.RunsSpell | sat/filtering.py:366-390 | writing the runs out with `and` within and `or` between them gives the query back |
| Filters.ExprUsed | sat/filtering.py:366-396 | whatever the parser accepts is a sequence of comparisons with an operator between each two |
| Filters.ExprMeans | sat/filtering.py:378-394 | every such sequence is parsed to its end and evaluates as the disjunction of its runs |
| Filters.ParseMeans | sat/filtering.py:366-396 | a query is accepted exactly when it alternates, and then evaluates as the `or` of its runs of `and`, errors raised by comparisons included |
| Filters.AllOfIsConjunction | sat/filtering.py:144-145 | without errors, `all` is True exactly when all comparisons are |
| Filters.AllOfStops | sat/filtering.py:144-145 | the outcome of `all` is that of the first comparison that is not True, error or not |
| Filters.AnyOfStops | sat/filtering.py:144-145 | the outcome of a query is that of its first run that is not False, error or not |
| Filters.AnyOfIsDisjunction | sat/filtering.py:144-145 | without errors, a query is True exactly when some run is True throughout |
| Filters.AndIsMaximal | sat/filtering.py:366-376 | an `and` is left over only if no comparison follows it |
| Filters.AndBranchNeverSucceeds | sat/filtering.py:386-390 | the `and` branch of `bool_expr` never succeeds |
| QueryKeys.GreedyFinds | sat/util.py:595-607 | where the greedy search succeeds there is an increasing embedding |
| QueryKeys.GreedySuffices | sat/util.py:595-607 | where there is any embedding the greedy search succeeds |
| QueryKeys.IsSubsequenceIff | sat/util.py:575-607 | true exactly when a strictly increasing embedding exists |
| QueryKeys.ExactIsSpelt | sat/util.py:627-637 | an exact match is a subsequence match too |
| QueryKeys.MatchQueryKeyIs | sat/util.py:610-645 | the first exact match; else the first heading that embeds the key; else None, and then no heading does either |
| XNames.GetTokens | sat/xname.py:57-79 | rewriting the split list in place gives the tokens of the specification |
| XNames.TokenizeIsSplit | sat/xname.py:71-79 | the tokens are the split parts but the last, numbers at odd places and lower-case text at even ones |
| XNames.SplitDigitsIs | sat/xname.py:71 | the parts make up the name, runs of digits at odd places and text without digits at even ones |
| XNames.TokenizeWellFormed | sat/xname.py:62-77 | tokens alternate, and only the first text may be empty |
| XNames.RoundTrip | sat/xname.py:81-102 | tokenizing the text of well-formed tokens gives them back |
| XNames.PrintParts | sat/xname.py:81-102 | the text made from tokens consists of their texts and their numbers in decimal |
| XNames.RebuiltExample | sat/xname.py:89-96 | x0001c0 is rebuilt as x1c0 |
| XNames.PrefixRoundTrip | sat/xname.py:81-102 | so does tokenizing the text of any even prefix of a name's tokens |
| XNames.AncestorTokens | sat/xname.py:116-132 | an ancestor's tokens are the name's without the last 2·levels |
| XNames.AncestorZero | sat/xname.py:127-132 | zero levels up is the empty name |
| XNames.AncestorBelow | sat/xname.py:127-132 | a negative number of levels keeps as many pairs of tokens from the front |
| XNames.AncestorsCompose | sat/xname.py:116-132 | a levels and then b levels is a + b levels, exactly when both are positive or there are not that many; ValueError included |
| XNameOrder.XNameOrderIsTotal | sat/xname.py:191-205 | comparing never raises TypeError, and is a total order whose equality is `==` |
| XNameOrder.CompareStringsIsLess | sat/xname.py:191-192 | one text is smaller exactly if, where they first differ, it ends or has the smaller character |
| XNameOrder.XNameLessIff | sat/xname.py:191-192 | one name is smaller exactly if, where their tokens first differ, it ends or has the smaller number or text |
| XNameOrder.ContainmentIsIntervalOrder | sat/xname.py:216-240 | containment is a partial order within that order, and what a name contains is an interval of it |
| XNameOrder.AncestorContains | sat/xname.py:127-132 | a proper ancestor contains the name and is not contained in it |
| XNameOrder.MatchElem | sat/xname.py:265-270 | one element against all filters moves exactly the containing filters, and the element if there is one |
| XNameOrder.GetMatches | sat/xname.py:243-272 | used filters are exactly those that contain an element, matches exactly the elements so contained, and each pair of results is a partition of its input |
| ParentNodes.MatchHasFields | sat/xname.py:36-37 | a match of the pattern ends where the tokens of its fields end |
| ParentNodes.FieldsAreMatched | sat/xname.py:36-37 | the pattern matches whenever the name's parts are the fields of a node |
| ParentNodes.ParentNodeIs | sat/xname.py:145-156 | a name has a parent node exactly when it begins with the fields of a node in lower case; the parent's tokens are then its first ten, and it contains the name |
| ParentNodes.ParentNodeSpelt | sat/xname.py:37 | written out: x, c, s, b and n in lower case with a number after each, and the parent is these ten parts as they stand |
| ParentNodes.EqualNameWithoutParent | sat/xname.py:145-156 | for each name with a parent there is an equal XName, spelt otherwise, that has none |
| ParentNodes.FieldsPrintRaw | sat/xname.py:81-102 | text rebuilt from tokens that begin with the fields of a node is spelt as the pattern asks |
| ParentNodes.SpellingMattersIff | sat/xname.py:145-156 | all equal XNames agree with a name on having a parent node exactly when its tokens do not begin with the fields of a node |
| Systems.ChassisKeyIs | sat/system/system.py:149 | the chassis looked up has the first four tokens of the node |
| Systems.System.ParseNodes | sat/system/system.py:106-118 | exactly the nodes named, each under its own tokens, the last one of equal names |
| Systems.LastNamedIs | sat/system/system.py:118 | the name kept is that of the last node of its tokens |
| Systems.System.ParseComponents | sat/system/system.py:106-118 | the same for components, while the key stays the name that was given first |
| Systems.System.StoreComponent | sat/system/system.py:116-118 | one component replaces the value of an equal name but not the key |
| Systems.LastComponentNamedIs | sat/system/system.py:118 | the component kept is the last one of its tokens |
| Systems.FirstComponentNamedIs | sat/system/system.py:118 | the key kept is the first one of its tokens |
| Systems.System.LinkChild | sat/system/system.py:129-144 | links one component both ways with the node it names, if that is known, and changes nothing else |
| Systems.System.RelateNodeChildren | sat/system/system.py:120-144 | links every component so, and no other |
| Systems.System.LinkParent | sat/system/system.py:148-158 | links one node both ways with its chassis, if that is known, and changes nothing else |
| Systems.System.RelateNodeParents | sat/system/system.py:146-158 | links every node so, and no other |
| Systems.System.ParseAll | sat/system/system.py:100-104 | from empty dictionaries, everything named is stored and linked |
| Systems.System.ChildLinksAreInverse | sat/system/system.py:143-144 | a component points to a node exactly when the node lists it, and then the node is named by its first ten tokens and contains it |
| Systems.System.LinkedIffNodeKnown | sat/system/system.py:129-144 | a component is linked exactly when the name it is listed under begins with the fields of a node and its first ten tokens name a known one |
| Systems.System.ChassisLinksAreInverse | sat/system/system.py:148-158 | a node points to a chassis exactly when the chassis lists it, to the one with its first four tokens if that is known, and to a four-token chassis exactly when that contains it |

## Left out

- DependencyWaiter.DependencyGroupWaiter.WaitForCompletion: called once per waiter, right after its construction; asks for the same as WaitPollingLoop, since without a timeout the original polls forever if a member never answers.
- DependencyWaiter.DependencyGroupWaiter.constructor: takes members closed under dependencies and dependents, as image creation passes them; other member sets would have the original wait for members nobody polls.
- Members.DependencyGroupMember.DependsOn: asks for an acyclic graph, on which `add_dependency` alone calls it; on a cyclic one the original may recurse without end.
- DependencyWaiter.DependencyGroupWaiter.WaitPollingLoop: asks that members answer within k polls, or for a timeout and a positive poll interval; otherwise nothing in the model makes the loop end, as the clock need not advance between two readings.
- GroupWaiters.GroupWaiter.WaitPollingLoop: asks for the same.
- GroupWaiters.GroupWaiter.WaitForCompletion: asks for the same, and is called once per waiter.
- Images.CreateImages: what happens to images that exist already is reduced to the set of names skipped; checks of configurations and base images, the public key, dry runs and the deletion of jobs are not modelled.
- NidLists.ParseInt: accepts ASCII digits only, where `int` also takes a sign, underscores, surrounding blanks and other digits.
- Negative retry counts, which the constructor of Waiter rejects: retries are a `nat`.
- Exceptions other than WaitingFailure that escape from a waiter, except that they may end the thread of a subwaiter.
- `on_check_action` and `on_retry_action`, which no modelled class overrides, and `pre_wait_action` hooks that complete a wait before it begins.
- Times are integers in some unit; how long polls and `begin` calls take shows only as the clock moving on.
- Stripping of blanks around an argument of `nid2xname`, and the lookup of the xname for a nid.
- Lexing of filter queries, wildcards, numbers, how a comparison evaluates, `get_filtered_fields`, `parse_multiple_query_strings` and `remove_constant_values`: comparisons are abstract, with three outcomes.
- Letters and digits outside ASCII in xnames and headings.
- `get_type`, `get_cabinet`, `relative_node_positions_match` and `__eq__` against objects of other classes.
- Grouping of the raw inventory by type and status, and fields of components other than their names and links; the dictionaries per component type are one dictionary keyed by type and name.
- `format_as_dense_list`, reports, logging, configuration and argument parsing: plumbing.
- API clients, SSH, S3, Kubernetes and session handling: calls into other systems.
- `BOSSessionThread` and the cache of `IMSClient`: their natural properties need an atomicity, or names, that the code does not have.
