/** How the mock framework creates expectations and lets calls consume them, and what holds in every
    state that it can reach. */
module MockFramework {
  import opened Expectations
  import opened CallHistories

  ghost function TallyOf(all: set<ExpectationBase>): Tally
    reads all
  {
    Tally(map e | e in all :: e.callCount, RetiredSet(all))
  }

  /** The invariant of all creations and calls. */
  ghost predicate SystemOk(all: set<ExpectationBase>)
    reads all
  {
    Ok(GraphOf(all), TallyOf(all))
  }

  /** What the invariant says about the expectations themselves: prerequisites are older; whatever is
      retired has its prerequisites retired; and what has been called has prerequisites that were called
      often enough and, unless every call to it is excessive, are retired and satisfied. */
  lemma WhatHolds(all: set<ExpectationBase>)
    requires SystemOk(all)
    ensures Acyclic(GraphOf(all)) && RetiredClosed(all)
    ensures forall e :: e in all ==> e.minCalls <= e.maxCalls
    ensures forall e, x :: e in all && x in all && e.callCount > 0 && Needs(GraphOf(all), e, x) ==>
              && x.minCalls <= x.callCount
              && (e.maxCalls > 0 ==> x.retired && x.IsSatisfied())
  {
    var g, t := GraphOf(all), TallyOf(all);
    forall e, x | e in all && x in all && e.callCount > 0 && Needs(g, e, x)
      ensures x.minCalls <= x.callCount && (e.maxCalls > 0 ==> x.retired && x.IsSatisfied())
    {
      assert CalledOk(g, t, e);
      assert x in Prerequisites(g, e);
    }
    forall e | e in all ensures e.minCalls <= e.maxCalls {
      assert LimitsOk(t, e);
    }
  }

  ghost predicate PrerequisitesSatisfied(all: set<ExpectationBase>, e: ExpectationBase)
    requires Acyclic(GraphOf(all)) && e in all
    reads all
  {
    forall x :: x in all && Needs(GraphOf(all), e, x) ==> x.IsSatisfied()
  }

  lemma TakesTheCall(all: set<ExpectationBase>, e: ExpectationBase)
    requires SystemOk(all) && e in all && !e.retired && PrerequisitesSatisfied(all, e)
    ensures Covers(GraphOf(all), TallyOf(all)) && Takes(GraphOf(all), TallyOf(all), e)
  {
  }

  /** A called expectation can have an unsatisfied prerequisite only if the pair is exposed. */
  lemma CalledTooEarlyOnlyIfExposed(all: set<ExpectationBase>, b: ExpectationBase, x: ExpectationBase)
    requires SystemOk(all) && b in all && x in all && Needs(GraphOf(all), b, x)
    requires b.callCount > 0 && !x.IsSatisfied()
    ensures Exposed(GraphOf(all), b, x)
  {
    OnlyExposed(GraphOf(all), TallyOf(all), b, x);
  }

  /** The comment in FindUnsatisfiedPrerequisites, as a theorem about every reachable state: not
      looking behind satisfied expectations that have been called hides nothing. */
  lemma NothingHidden(all: set<ExpectationBase>, e: ExpectationBase)
    requires SystemOk(all) && e in all
    ensures PrerequisitesSatisfied(all, e) <==>
            forall x :: x in all ==> !Blocks(GraphOf(all), UnsatisfiedSet(all), SkippedSet(all), e, x)
  {
    hide Ok;
    WhatHolds(all);
    var g, open, skipped := GraphOf(all), UnsatisfiedSet(all), SkippedSet(all);
    forall x | x in all && Blocks(g, open, skipped, e, x) ensures Needs(g, e, x) && !x.IsSatisfied() {
      BlocksIsNeeded(g, open, skipped, e, x);
    }
    if !PrerequisitesSatisfied(all, e) {
      var x :| x in all && Needs(g, e, x) && !x.IsSatisfied();
      var y := SomethingBlocks(g, open, skipped, e, x);
      BlocksIsNeeded(g, open, skipped, e, y);
    }
  }

  /** The report on an expectation that cannot be matched yet. */
  method ExplainPrerequisites(e: ExpectationBase, ghost all: set<ExpectationBase>)
    returns (satisfied: bool, unsatisfied: set<ExpectationBase>)
    requires SystemOk(all) && e in all
    ensures satisfied <==> PrerequisitesSatisfied(all, e)
    ensures unsatisfied == {} <==> satisfied
    ensures forall x :: x in unsatisfied ==> x in all && Needs(GraphOf(all), e, x) && !x.IsSatisfied()
  {
    hide Ok, Needs, Blocks;
    WhatHolds(all);
    satisfied := e.AllPrerequisitesAreSatisfied(all);
    unsatisfied := {};
    NothingHidden(all, e);
    if !satisfied {
      unsatisfied := e.FindUnsatisfiedPrerequisites(unsatisfied, all);
      forall x | x in unsatisfied ensures x in all && Needs(GraphOf(all), e, x) && !x.IsSatisfied() {
        BlocksIsNeeded(GraphOf(all), UnsatisfiedSet(all), SkippedSet(all), e, x);
      }
    }
  }

  // ----- calls

  /** The fields are now those that a call leaves behind. */
  lemma CallTallied(all: set<ExpectationBase>, t: Tally, e: ExpectationBase)
    requires Covers(GraphOf(all), t) && e in all
    requires forall x :: x in all ==> x.callCount == t.counts[x] + (if x == e then 1 else 0)
    requires forall x :: x in all ==> (x.retired <==>
               || x in t.retired
               || (t.counts[e] < e.maxCalls
                   && (Needs(GraphOf(all), e, x) || (x == e && e.retiresOnSaturation && e.callCount >= e.maxCalls))))
    ensures TallyOf(all) == AfterCall(GraphOf(all), t, e)
  {
    hide Needs, Acyclic, AfterCall;
    assert TallyOf(all).counts == t.counts[e := t.counts[e] + 1];
    IsAfterCall(GraphOf(all), t, e, TallyOf(all));
  }

  /** The expectation takes the call. An excessive call is only counted. */
  method GetActionForArguments(e: ExpectationBase, ghost all: set<ExpectationBase>) returns (excessive: bool)
    requires SystemOk(all) && e in all && !e.retired && PrerequisitesSatisfied(all, e)
    modifies e`callCount, all`retired
    ensures TallyOf(all) == AfterCall(GraphOf(all), old(TallyOf(all)), e) && SystemOk(all)
    ensures e.callCount == old(e.callCount) + 1 && excessive == old(e.IsSaturated())
    ensures excessive ==> forall x :: x in all ==> x.retired == old(x.retired)
    ensures !excessive ==> forall x :: x in all && x != e ==>
              (x.retired <==> old(x.retired) || Needs(GraphOf(all), e, x))
    ensures !excessive ==> (e.retired <==> e.retiresOnSaturation && e.IsSaturated())
  {
    hide Ok, Needs, Acyclic, PrerequisitesIn, AfterCall, Takes, GraphOf;
    WhatHolds(all);
    ghost var g, t := GraphOf(all), TallyOf(all);
    TakesTheCall(all, e);
    CallKeepsOk(g, t, e);
    NotOwnPrerequisite(g, e);
    if e.IsSaturated() {
      e.callCount := e.callCount + 1;
      CallTallied(all, t, e);
      return true;
    }
    e.callCount := e.callCount + 1;
    e.RetireAllPreRequisites(all);
    if e.retiresOnSaturation && e.IsSaturated() {
      e.retired := true;
    }
    CallTallied(all, t, e);
    return false;
  }

  /** A history of calls, carried out by the expectations themselves. */
  method Replay(calls: seq<ExpectationBase>, ghost all: set<ExpectationBase>, ghost end: Tally)
    requires SystemOk(all) && History(GraphOf(all), TallyOf(all), calls, end)
    modifies all`callCount, all`retired
    ensures SystemOk(all) && TallyOf(all) == end
    decreases |calls|
  {
    if calls != [] {
      hide Ok, Needs, AfterCall;
      TakerIsReady(all, calls[0]);
      var excessive := GetActionForArguments(calls[0], all);
      Replay(calls[1..], all, end);
    }
  }

  lemma TakerIsReady(all: set<ExpectationBase>, e: ExpectationBase)
    requires SystemOk(all) && Takes(GraphOf(all), TallyOf(all), e)
    ensures Acyclic(GraphOf(all)) && e in all && !e.retired && PrerequisitesSatisfied(all, e)
  {
    forall x | x in all && Needs(GraphOf(all), e, x) ensures x.IsSatisfied() {
      assert x in Prerequisites(GraphOf(all), e);
    }
  }

  class FunctionMocker {
    var untypedExpectations: seq<ExpectationBase>

    constructor ()
      ensures untypedExpectations == []
    {
      untypedExpectations := [];
    }

    /** No expectation from index i on handles the call. */
    ghost predicate NoneFrom(i: nat, matching: set<ExpectationBase>, all: set<ExpectationBase>)
      requires SystemOk(all) && forall k :: 0 <= k < |untypedExpectations| ==> untypedExpectations[k] in all
      reads this, all
    {
      forall k :: i <= k < |untypedExpectations| ==>
        || untypedExpectations[k] !in matching || untypedExpectations[k].retired
        || !PrerequisitesSatisfied(all, untypedExpectations[k])
    }

    /** The newest expectation whose matchers accept the arguments (those in `matching`), that is not
        retired, and whose prerequisites are satisfied. */
    method FindMatchingExpectation(matching: set<ExpectationBase>, ghost all: set<ExpectationBase>)
      returns (found: ExpectationBase?)
      requires SystemOk(all) && forall i :: 0 <= i < |untypedExpectations| ==> untypedExpectations[i] in all
      ensures found == null ==> NoneFrom(0, matching, all)
      ensures found != null ==>
                && found in all && found in matching && !found.retired
                && forall x :: x in all && Needs(GraphOf(all), found, x) ==> x.minCalls <= x.callCount <= x.maxCalls
      ensures found != null ==>
                exists i :: 0 <= i < |untypedExpectations| && untypedExpectations[i] == found &&
                            NoneFrom(i + 1, matching, all)
    {
      hide Ok, Needs;
      WhatHolds(all);
      var i := |untypedExpectations|;
      while i > 0
        invariant 0 <= i <= |untypedExpectations|
        invariant NoneFrom(i, matching, all)
      {
        i := i - 1;
        var exp := untypedExpectations[i];
        var handles := !exp.retired;
        if handles {
          handles := exp.AllPrerequisitesAreSatisfied(all);
        }
        if handles && exp in matching {
          return exp;
        }
      }
      return null;
    }

    /** One call of the mock function: the newest expectation that handles it takes it, and retires its
        prerequisites unless the call is excessive. */
    method Invoke(matching: set<ExpectationBase>, ghost all: set<ExpectationBase>)
      returns (taken: ExpectationBase?, excessive: bool)
      requires SystemOk(all) && forall i :: 0 <= i < |untypedExpectations| ==> untypedExpectations[i] in all
      modifies all`callCount, all`retired
      ensures SystemOk(all)
      ensures taken == null ==> old(NoneFrom(0, matching, all)) && unchanged(all)
      ensures taken != null ==>
                && taken in all && taken in matching && !old(taken.retired)
                && forall x :: x in all && Needs(GraphOf(all), taken, x) ==>
                     x.minCalls <= old(x.callCount) <= x.maxCalls
      ensures taken != null ==>
                exists i :: 0 <= i < |untypedExpectations| && untypedExpectations[i] == taken &&
                            old(NoneFrom(i + 1, matching, all))
      ensures taken != null ==> forall x :: x in all ==> x.callCount == old(x.callCount) + (if x == taken then 1 else 0)
      ensures taken != null ==> excessive == old(taken.IsSaturated())
      ensures taken != null && excessive ==> forall x :: x in all ==> x.retired == old(x.retired)
      ensures taken != null && !excessive ==> forall x :: x in all && x != taken ==>
                (x.retired <==> old(x.retired) || Needs(GraphOf(all), taken, x))
      ensures taken != null && !excessive ==> (taken.retired <==> taken.retiresOnSaturation && taken.IsSaturated())
    {
      hide Ok, Needs, Acyclic, TallyOf, RetiredSet, GraphOf, AfterCall;
      WhatHolds(all);
      excessive := false;
      taken := FindMatchingExpectation(matching, all);
      if taken != null {
        excessive := GetActionForArguments(taken, all);
      }
    }
  }

  // ----- new expectations

  /** A named sequence of expectations. */
  class Sequence {
    var lastExpectation: ExpectationBase?

    constructor ()
      ensures lastExpectation == null
    {
      lastExpectation := null;
    }

    method AddExpectation(expectation: ExpectationBase)
      modifies this, expectation`immediatePrerequisites
      ensures lastExpectation == expectation
      ensures expectation.immediatePrerequisites ==
              Inserted(old(expectation.immediatePrerequisites),
                       if old(lastExpectation) == expectation then null else old(lastExpectation))
    {
      if lastExpectation != expectation {
        if lastExpectation != null {
          expectation.immediatePrerequisites := Inserted(expectation.immediatePrerequisites, lastExpectation);
        }
        lastExpectation := expectation;
      }
    }
  }

  /** Insertion into a set of expectations; null stands for "nothing to insert". */
  function Inserted(s: seq<ExpectationBase>, e: ExpectationBase?): (r: seq<ExpectationBase>)
    ensures e != null ==> e in r
    ensures forall i :: 0 <= i < |r| ==> r[i] in s || r[i] == e
    ensures s <= r
  {
    if e == null || e in s then s else s + [e]
  }

  ghost function Lasts(sequences: seq<Sequence>): (r: seq<ExpectationBase?>)
    reads sequences
  {
    seq(|sequences|, i requires 0 <= i < |sequences| reads sequences => sequences[i].lastExpectation)
  }

  /** The .InSequence clause: the new expectation follows the last one of each sequence. */
  method InSequence(e: ExpectationBase, sequences: seq<Sequence>)
    requires e.immediatePrerequisites == [] && e !in Lasts(sequences)
    modifies e`immediatePrerequisites, sequences
    ensures forall i :: 0 <= i < |sequences| ==> sequences[i].lastExpectation == e
    ensures forall x: ExpectationBase :: x in old(Lasts(sequences)) <==> x in e.immediatePrerequisites
  {
    hide Inserted;
    ghost var lasts := Lasts(sequences);
    var i := 0;
    while i < |sequences|
      invariant 0 <= i <= |sequences|
      invariant forall k :: 0 <= k < |sequences| ==>
                  (if sequences[k] in sequences[..i] then sequences[k].lastExpectation == e
                   else sequences[k].lastExpectation == lasts[k])
      invariant forall k :: 0 <= k < i ==> lasts[k] == null || lasts[k] in e.immediatePrerequisites
      invariant forall k :: 0 <= k < |e.immediatePrerequisites| ==> e.immediatePrerequisites[k] in lasts
    {
      var s := sequences[i];
      if s in sequences[..i] {
        var k :| 0 <= k < i && sequences[k] == s;
        assert lasts[k] == lasts[i];
      } else {
        assert s.lastExpectation == lasts[i] != e;
      }
      s.AddExpectation(e);
      assert sequences[..i + 1] == sequences[..i] + [s];
      i := i + 1;
    }
  }

  /** The .After clause. */
  method After(e: ExpectationBase, others: seq<ExpectationBase>)
    modifies e`immediatePrerequisites
    ensures forall x: ExpectationBase ::
              x in e.immediatePrerequisites <==> x in old(e.immediatePrerequisites) || x in others
  {
    var i := 0;
    while i < |others|
      invariant 0 <= i <= |others| && old(e.immediatePrerequisites) <= e.immediatePrerequisites
      invariant forall k :: 0 <= k < i ==> others[k] in e.immediatePrerequisites
      invariant forall k :: 0 <= k < |e.immediatePrerequisites| ==>
                  e.immediatePrerequisites[k] in old(e.immediatePrerequisites) || e.immediatePrerequisites[k] in others
    {
      e.immediatePrerequisites := Inserted(e.immediatePrerequisites, others[i]);
      i := i + 1;
    }
  }

  /** EXPECT_CALL with .InSequence and .After clauses: everything that the new expectation waits for is
      older than itself. */
  method ExpectCall(minCalls: nat, maxCalls: nat, retiresOnSaturation: bool,
                    mocker: FunctionMocker, sequences: seq<Sequence>, others: seq<ExpectationBase>,
                    ghost all: set<ExpectationBase>, ghost count: nat)
    returns (e: ExpectationBase)
    requires minCalls <= maxCalls && SystemOk(all)
    requires forall x :: x in all ==> x.id < count
    requires forall i :: 0 <= i < |others| ==> others[i] in all
    requires forall i :: 0 <= i < |sequences| ==>
               sequences[i].lastExpectation == null || sequences[i].lastExpectation in all
    modifies mocker, sequences
    ensures fresh(e) && e.id == count && SystemOk(all + {e})
    ensures mocker.untypedExpectations == old(mocker.untypedExpectations) + [e]
    ensures forall i :: 0 <= i < |sequences| ==> sequences[i].lastExpectation == e
    ensures e.minCalls == minCalls && e.maxCalls == maxCalls && e.retiresOnSaturation == retiresOnSaturation
    ensures e.callCount == 0 && !e.retired
    ensures forall x: ExpectationBase :: x in e.immediatePrerequisites <==> x in others || x in old(Lasts(sequences))
  {
    hide Ok, TallyOf, GraphOf, RetiredSet;
    ghost var lasts := Lasts(sequences);
    e := new ExpectationBase(count, minCalls, maxCalls, retiresOnSaturation);
    mocker.untypedExpectations := mocker.untypedExpectations + [e];
    InSequence(e, sequences);
    After(e, others);
    forall k | 0 <= k < |e.immediatePrerequisites| ensures e.immediatePrerequisites[k] in all {
      assert e.immediatePrerequisites[k] in lasts || e.immediatePrerequisites[k] in others;
    }
    NewestKeepsSystem(all, e);
  }

  /** Having been called is not enough: an expectation without calls left takes excessive calls without
      retiring its prerequisite, which then takes one call too many itself. */
  method CalledIsNotEnough() returns (a: ExpectationBase, b: ExpectationBase)
    ensures SystemOk({a, b}) && b.callCount > 0 && Needs(GraphOf({a, b}), b, a) && !a.IsSatisfied()
  {
    hide Ok, Needs, Acyclic, TallyOf, RetiredSet;
    NothingOk();
    var mocker := new FunctionMocker();
    ghost var none := Lasts([]);
    a := ExpectCall(1, 1, false, mocker, [], [], {}, 0);
    assert |none| == 0;
    assert {} + {a} == {a};
    b := ExpectCall(0, 0, false, mocker, [], [a], {a}, 1);
    ghost var all := {a, b};
    assert {a} + {b} == all;
    assert a in [a] && a in b.immediatePrerequisites;
    WhatHolds(all);
    OneNeed(all, a, b);
    CallThrice(a, b, all);
    OneNeed(all, a, b);
  }

  lemma NothingOk()
    ensures SystemOk({})
  {
  }

  /** The calls: a, then b in excess, then a in excess. */
  method CallThrice(a: ExpectationBase, b: ExpectationBase, ghost all: set<ExpectationBase>)
    requires SystemOk(all) && all == {a, b} && a != b
    requires forall x :: x in all ==> x.callCount == 0 && !x.retired && !x.retiresOnSaturation
    requires a.minCalls == a.maxCalls == 1 && b.minCalls == b.maxCalls == 0
    requires (forall x :: x in all ==> !Needs(GraphOf(all), a, x) && (Needs(GraphOf(all), b, x) <==> x == a))
    modifies all`callCount, all`retired
    ensures SystemOk(all) && a.callCount == 2 && b.callCount == 1
  {
    hide Ok, Needs, Acyclic, TallyOf, RetiredSet, GraphOf, AfterCall;
    WhatHolds(all);
    assert PrerequisitesSatisfied(all, a);
    var excessive := GetActionForArguments(a, all);
    assert PrerequisitesSatisfied(all, b);
    excessive := GetActionForArguments(b, all);
    assert excessive && PrerequisitesSatisfied(all, a);
    excessive := GetActionForArguments(a, all);
    assert excessive;
  }

  lemma OneNeed(all: set<ExpectationBase>, a: ExpectationBase, b: ExpectationBase)
    requires Acyclic(GraphOf(all)) && all == {a, b} && a.id < b.id
    requires (forall x: ExpectationBase :: x !in a.immediatePrerequisites) && a in b.immediatePrerequisites
    ensures Needs(GraphOf(all), b, a)
    ensures forall x :: !Needs(GraphOf(all), a, x)
    ensures forall x :: Needs(GraphOf(all), b, x) ==> x == a
  {
    var g := GraphOf(all);
    assert forall k :: 0 <= k < |g[a]| ==> g[a][k] in a.immediatePrerequisites;
    forall x | Needs(g, b, x) ensures x == a {
      NeedsOlder(g, b, x);
    }
  }

  lemma NewestKeepsSystem(all: set<ExpectationBase>, e: ExpectationBase)
    requires SystemOk(all) && e !in all && e.callCount == 0 && !e.retired && e.minCalls <= e.maxCalls
    requires forall k :: 0 <= k < |e.immediatePrerequisites| ==>
               e.immediatePrerequisites[k] in all && e.immediatePrerequisites[k].id < e.id
    ensures SystemOk(all + {e})
  {
    var g, t := GraphOf(all), TallyOf(all);
    NewestKeepsOk(g, t, e, e.immediatePrerequisites);
    assert GraphOf(all + {e}) == g[e := e.immediatePrerequisites];
    assert TallyOf(all + {e}) == Tally(t.counts[e := 0], t.retired);
  }
}
