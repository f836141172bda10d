/** Expectations of a mock object, the prerequisites between them, and the worklist traversals of the
    prerequisite graph. */
module Expectations {

  /** The graph: each expectation with its immediate prerequisites, in the order of the set's
      iterator. */
  type Graph = map<ExpectationBase, seq<ExpectationBase>>

  /** Prerequisites are older than the expectations that wait for them. */
  ghost predicate Acyclic(g: Graph) {
    forall e, i :: e in g && 0 <= i < |g[e]| ==> g[e][i] in g && g[e][i].id < e.id
  }

  /** x is a prerequisite of e, immediately or through others. */
  ghost predicate Needs(g: Graph, e: ExpectationBase, x: ExpectationBase)
    requires Acyclic(g) && e in g
    decreases e.id
  {
    exists i :: 0 <= i < |g[e]| && (g[e][i] == x || Needs(g, g[e][i], x))
  }

  lemma {:induction false} NeedsOlder(g: Graph, e: ExpectationBase, x: ExpectationBase)
    requires Acyclic(g) && e in g && Needs(g, e, x)
    ensures x in g && x.id < e.id
    decreases e.id
  {
    var i :| 0 <= i < |g[e]| && (g[e][i] == x || Needs(g, g[e][i], x));
    if g[e][i] != x {
      NeedsOlder(g, g[e][i], x);
    }
  }

  lemma {:induction false} NeedsTrans(g: Graph, e: ExpectationBase, x: ExpectationBase, y: ExpectationBase)
    requires Acyclic(g) && e in g && x in g && Needs(g, e, x) && Needs(g, x, y)
    ensures Needs(g, e, y)
    decreases e.id
  {
    var i :| 0 <= i < |g[e]| && (g[e][i] == x || Needs(g, g[e][i], x));
    if g[e][i] != x {
      NeedsTrans(g, g[e][i], x, y);
    }
  }

  ghost predicate PrerequisitesIn(g: Graph, e: ExpectationBase, s: set<ExpectationBase>)
    requires e in g
  {
    forall i :: 0 <= i < |g[e]| ==> g[e][i] in s
  }

  /** A set that holds the immediate prerequisites of all its members, and those of e, holds
      everything that e needs. */
  lemma {:induction false} ClosedHoldsNeeds(g: Graph, e: ExpectationBase, s: set<ExpectationBase>, x: ExpectationBase)
    requires Acyclic(g) && e in g && PrerequisitesIn(g, e, s)
    requires forall y :: y in s && y in g ==> PrerequisitesIn(g, y, s)
    requires Needs(g, e, x)
    ensures x in s
    decreases e.id
  {
    var i :| 0 <= i < |g[e]| && (g[e][i] == x || Needs(g, g[e][i], x));
    if g[e][i] != x {
      ClosedHoldsNeeds(g, g[e][i], s, x);
    }
  }

  // ----- the size of the unfolded graph

  ghost predicate Within(g: Graph, s: seq<ExpectationBase>, bound: nat) {
    forall i :: 0 <= i < |s| ==> s[i] in g && s[i].id < bound
  }

  /** The number of nodes of the tree that e unfolds to when shared prerequisites are not shared. */
  ghost function Unfolded(g: Graph, e: ExpectationBase): nat
    requires Acyclic(g) && e in g
    decreases e.id + 1, 0
  {
    1 + UnfoldedAll(g, g[e], e.id)
  }

  ghost function UnfoldedAll(g: Graph, s: seq<ExpectationBase>, bound: nat): nat
    requires Acyclic(g) && Within(g, s, bound)
    decreases bound, |s| + 1
  {
    if s == [] then 0 else Unfolded(g, s[0]) + UnfoldedAll(g, s[1..], bound)
  }

  lemma {:induction false} UnfoldedBound(g: Graph, s: seq<ExpectationBase>, bound: nat, bound': nat)
    requires Acyclic(g) && Within(g, s, bound) && Within(g, s, bound')
    ensures UnfoldedAll(g, s, bound) == UnfoldedAll(g, s, bound')
    decreases |s|
  {
    if s != [] {
      UnfoldedBound(g, s[1..], bound, bound');
    }
  }

  lemma {:induction false} UnfoldedConcat(g: Graph, s: seq<ExpectationBase>, t: seq<ExpectationBase>, bound: nat)
    requires Acyclic(g) && Within(g, s, bound) && Within(g, t, bound)
    ensures UnfoldedAll(g, s + t, bound) == UnfoldedAll(g, s, bound) + UnfoldedAll(g, t, bound)
    decreases |s|
  {
    if s == [] {
      assert s + t == t;
    } else {
      UnfoldedConcat(g, s[1..], t, bound);
      assert (s + t)[1..] == s[1..] + t;
    }
  }

  lemma {:induction false} UnfoldedAppend(g: Graph, s: seq<ExpectationBase>, e: ExpectationBase, bound: nat)
    requires Acyclic(g) && Within(g, s, bound) && e in g && e.id < bound
    ensures UnfoldedAll(g, s + [e], bound) == UnfoldedAll(g, s, bound) + Unfolded(g, e)
    decreases |s|
  {
    if s == [] {
      assert s + [e] == [e];
    } else {
      UnfoldedAppend(g, s[1..], e, bound);
      assert (s + [e])[1..] == s[1..] + [e];
    }
  }

  // ----- satisfaction and retirement as sets

  /** What FindUnsatisfiedPrerequisites looks for: an unsatisfied prerequisite that is reached through
      expectations that are satisfied and were never called (`skipped`). */
  ghost predicate Blocks(g: Graph, unsatisfied: set<ExpectationBase>, skipped: set<ExpectationBase>,
                         e: ExpectationBase, x: ExpectationBase)
    requires Acyclic(g) && e in g
    decreases e.id
  {
    exists i :: 0 <= i < |g[e]| &&
                (if g[e][i] in unsatisfied then g[e][i] == x
                 else g[e][i] in skipped && Blocks(g, unsatisfied, skipped, g[e][i], x))
  }

  lemma {:induction false} BlocksIsNeeded(g: Graph, unsatisfied: set<ExpectationBase>, skipped: set<ExpectationBase>,
                                          e: ExpectationBase, x: ExpectationBase)
    requires Acyclic(g) && e in g && Blocks(g, unsatisfied, skipped, e, x)
    ensures x in unsatisfied && Needs(g, e, x)
    decreases e.id
  {
    var i :| 0 <= i < |g[e]| && (if g[e][i] in unsatisfied then g[e][i] == x
                                 else g[e][i] in skipped && Blocks(g, unsatisfied, skipped, g[e][i], x));
    if g[e][i] !in unsatisfied {
      BlocksIsNeeded(g, unsatisfied, skipped, g[e][i], x);
    }
  }

  /** If everything that is satisfied and has been called has only satisfied prerequisites, an
      unsatisfied prerequisite is never hidden behind it. */
  lemma {:induction false} SomethingBlocks(g: Graph, unsatisfied: set<ExpectationBase>, skipped: set<ExpectationBase>,
                                           e: ExpectationBase, x: ExpectationBase) returns (y: ExpectationBase)
    requires Acyclic(g) && e in g && Needs(g, e, x) && x in unsatisfied
    requires forall c, z :: c in g && c !in unsatisfied && c !in skipped && Needs(g, c, z) ==> z !in unsatisfied
    ensures Blocks(g, unsatisfied, skipped, e, y)
    decreases e.id
  {
    var i :| 0 <= i < |g[e]| && (g[e][i] == x || Needs(g, g[e][i], x));
    var p := g[e][i];
    if p in unsatisfied {
      y := p;
    } else {
      y := SomethingBlocks(g, unsatisfied, skipped, p, x);
    }
  }

  class ExpectationBase {
    ghost const id: nat  // order of creation
    const minCalls: nat
    const maxCalls: nat
    const retiresOnSaturation: bool
    var callCount: nat
    var retired: bool
    var immediatePrerequisites: seq<ExpectationBase>

    constructor (ghost id: nat, minCalls: nat, maxCalls: nat, retiresOnSaturation: bool)
      requires minCalls <= maxCalls
      ensures this.id == id && this.minCalls == minCalls && this.maxCalls == maxCalls
      ensures this.retiresOnSaturation == retiresOnSaturation
      ensures callCount == 0 && !retired && immediatePrerequisites == []
    {
      this.id, this.minCalls, this.maxCalls := id, minCalls, maxCalls;
      this.retiresOnSaturation := retiresOnSaturation;
      callCount, retired, immediatePrerequisites := 0, false, [];
    }

    predicate IsSatisfied()
      reads this`callCount
    {
      minCalls <= callCount <= maxCalls
    }

    predicate IsSaturated()
      reads this`callCount
    {
      callCount >= maxCalls
    }

    /** Retires all prerequisites of this expectation. The early return is right because a retired
        expectation never has a prerequisite that is not retired. */
    method RetireAllPreRequisites(ghost all: set<ExpectationBase>)
      requires this in all && Acyclic(GraphOf(all)) && RetiredClosed(all)
      modifies all`retired
      ensures forall e :: e in all ==> (e.retired <==> old(e.retired) || Needs(GraphOf(all), this, e))
      ensures RetiredClosed(all)
    {
      hide Needs, PrerequisitesIn, Sweep, Sweeping;
      ghost var g := GraphOf(all);
      if retired {
        forall e | e in all && Needs(g, this, e) ensures e.retired {
          ClosedHoldsNeeds(g, this, RetiredSet(all), e);
        }
        return;
      }
      var expectations := [this];
      SweepStart(g, all, RetiredSet(all), this);
      while expectations != []
        invariant GraphOf(all) == g
        invariant Sweep(g, all, old(RetiredSet(all)), RetiredSet(all), this, expectations)
        decreases all - RetiredSet(all), |expectations|
      {
        var exp := expectations[|expectations| - 1];
        SweepPop(g, all, old(RetiredSet(all)), RetiredSet(all), this, expectations);
        expectations := expectations[..|expectations| - 1];
        ghost var retired0, rest0 := RetiredSet(all), expectations;
        var i := 0;
        while i < |exp.immediatePrerequisites|
          invariant 0 <= i <= |exp.immediatePrerequisites| && GraphOf(all) == g
          invariant exp in all
          invariant Sweeping(g, all, old(RetiredSet(all)), RetiredSet(all), this, expectations, exp, i)
          invariant retired0 <= RetiredSet(all) && (retired0 == RetiredSet(all) ==> expectations == rest0)
        {
          var next := exp.immediatePrerequisites[i];
          ghost var now := RetiredSet(all);
          SweepStep(g, all, old(RetiredSet(all)), now, this, expectations, exp, i);
          if !next.retired {
            next.retired := true;
            expectations := expectations + [next];
            assert RetiredSet(all) == now + {next};
          }
          i := i + 1;
        }
        SweepDone(g, all, old(RetiredSet(all)), RetiredSet(all), this, expectations, exp);
      }
      SweepEnd(g, all, old(RetiredSet(all)), RetiredSet(all), this);
    }

    /** True iff all prerequisites are satisfied. There is no set of visited expectations: the loop
        ends because the graph has no cycle. */
    method AllPrerequisitesAreSatisfied(ghost all: set<ExpectationBase>) returns (satisfied: bool)
      requires this in all && Acyclic(GraphOf(all))
      ensures satisfied <==> forall x :: x in all && Needs(GraphOf(all), this, x) ==> x.IsSatisfied()
    {
      hide Needs, UnfoldedAll;
      ghost var g, open := GraphOf(all), UnsatisfiedSet(all);
      var expectations := [this];
      SearchStart(g, open, this);
      while expectations != []
        invariant Searching(g, open, this, expectations)
        decreases UnfoldedAll(g, expectations, this.id + 1)
      {
        ghost var waiting := expectations;
        var exp := expectations[|expectations| - 1];
        expectations := expectations[..|expectations| - 1];
        UnfoldedAppend(g, expectations, exp, this.id + 1);
        assert expectations + [exp] == waiting;
        ghost var rest := expectations;
        var i := 0;
        while i < |exp.immediatePrerequisites|
          invariant 0 <= i <= |exp.immediatePrerequisites| && exp in all && (exp == this || Needs(g, this, exp))
          invariant expectations == rest + exp.immediatePrerequisites[..i]
          invariant forall k :: 0 <= k < i ==> g[exp][k] !in open
        {
          var next := exp.immediatePrerequisites[i];
          if !next.IsSatisfied() {
            NeedsNext(g, this, exp, i);
            return false;
          }
          expectations := expectations + [next];
          i := i + 1;
        }
        assert expectations == rest + g[exp];
        SearchNext(g, open, this, waiting, exp);
        UnfoldedConcat(g, rest, g[exp], this.id + 1);
        UnfoldedBound(g, g[exp], exp.id, this.id + 1);
      }
      return true;
    }

    /** Adds unsatisfied prerequisites to the result; it does not look behind an expectation that is
        unsatisfied, or that is satisfied and has been called. */
    method FindUnsatisfiedPrerequisites(result: set<ExpectationBase>, ghost all: set<ExpectationBase>)
      returns (result': set<ExpectationBase>)
      requires this in all && Acyclic(GraphOf(all))
      ensures result' == result +
                         set x | x in all && Blocks(GraphOf(all), UnsatisfiedSet(all), SkippedSet(all), this, x)
      ensures forall e :: e in all ==> (e in UnsatisfiedSet(all) <==> !(e.minCalls <= e.callCount <= e.maxCalls))
      ensures forall e :: e in all ==> (e in SkippedSet(all) <==> e.minCalls == e.callCount == 0)
    {
      ghost var g, open, skipped := GraphOf(all), UnsatisfiedSet(all), SkippedSet(all);
      ghost var found: set<ExpectationBase> := {};
      result' := result;
      var expectations := [this];
      while expectations != []
        invariant result' == result + found
        invariant Collecting(g, open, skipped, this, found, expectations) && Within(g, expectations, this.id + 1)
        decreases UnfoldedAll(g, expectations, this.id + 1)
      {
        ghost var waiting, found0 := expectations, found;
        var exp := expectations[|expectations| - 1];
        expectations := expectations[..|expectations| - 1];
        ghost var more: set<ExpectationBase>, pushed: seq<ExpectationBase>;
        result', expectations, more, pushed := exp.SortPrerequisites(result', expectations, all);
        CollectNext(g, open, skipped, this, found0, more, waiting, exp, pushed);
        found := found0 + more;
      }
      CollectDone(g, open, skipped, this, found);
    }

    /** The inner loop: unsatisfied prerequisites of this expectation go to the result, satisfied ones
        that were never called go to the worklist. */
    method SortPrerequisites(result: set<ExpectationBase>, expectations: seq<ExpectationBase>,
                             ghost all: set<ExpectationBase>)
      returns (result': set<ExpectationBase>, expectations': seq<ExpectationBase>,
               ghost found: set<ExpectationBase>, ghost pushed: seq<ExpectationBase>)
      requires this in all && Acyclic(GraphOf(all))
      ensures result' == result + found && expectations' == expectations + pushed
      ensures Scanned(GraphOf(all), UnsatisfiedSet(all), SkippedSet(all), this, |immediatePrerequisites|, found, pushed)
    {
      hide Scanned, Acyclic;
      ghost var g, open, skipped := GraphOf(all), UnsatisfiedSet(all), SkippedSet(all);
      result', expectations', found, pushed := result, expectations, {}, [];
      ScanStart(g, open, skipped, this);
      var i := 0;
      while i < |immediatePrerequisites|
        invariant 0 <= i <= |immediatePrerequisites|
        invariant result' == result + found && expectations' == expectations + pushed
        invariant Scanned(g, open, skipped, this, i, found, pushed)
      {
        var next := immediatePrerequisites[i];
        InGraph(g, this, i);
        ScanOne(g, open, skipped, this, i, found, pushed);
        if next.IsSatisfied() {
          assert next !in open && (next.callCount == 0 <==> next in skipped);
          if next.callCount == 0 {
            assert expectations + pushed + [next] == expectations + (pushed + [next]);
            expectations', pushed := expectations' + [next], pushed + [next];
          }
        } else {
          result', found := result' + {next}, found + {next};
        }
        i := i + 1;
      }
    }
  }

  ghost function GraphOf(all: set<ExpectationBase>): (g: Graph)
    reads all`immediatePrerequisites
    ensures g.Keys == all
  {
    map e | e in all :: e.immediatePrerequisites
  }

  ghost function RetiredSet(all: set<ExpectationBase>): (s: set<ExpectationBase>)
    reads all`retired
  {
    set e | e in all && e.retired
  }

  ghost predicate RetiredClosed(all: set<ExpectationBase>)
    reads all`retired, all`immediatePrerequisites
  {
    forall e :: e in all && e.retired ==> PrerequisitesIn(GraphOf(all), e, RetiredSet(all))
  }

  /** Invariant of the retiring loop: only what `root` needs has been retired in addition, and
      whatever is retired, or is the root, and is not waiting in the list has all its prerequisites
      retired. */
  ghost predicate Sweep(g: Graph, all: set<ExpectationBase>, before: set<ExpectationBase>, now: set<ExpectationBase>,
                        root: ExpectationBase, waiting: seq<ExpectationBase>)
  {
    // a match, so that proof obligations treat it as one fact
    match Acyclic(g) && root in g && g.Keys == all && before <= now <= all
    case false => false
    case true =>
      && (forall e :: e in now ==> e in before || Needs(g, root, e))
      && (forall i :: 0 <= i < |waiting| ==> waiting[i] == root || (waiting[i] in now && Needs(g, root, waiting[i])))
      && (forall e :: e in all && (e == root || e in now) && e !in waiting ==> PrerequisitesIn(g, e, now))
  }

  /** The same while the first i prerequisites of `exp` have been looked at. */
  ghost predicate Sweeping(g: Graph, all: set<ExpectationBase>, before: set<ExpectationBase>, now: set<ExpectationBase>,
                           root: ExpectationBase, waiting: seq<ExpectationBase>, exp: ExpectationBase, i: nat)
  {
    match Acyclic(g) && root in g && exp in g && g.Keys == all && before <= now <= all
    case false => false
    case true =>
      && (forall e :: e in now ==> e in before || Needs(g, root, e))
      && (forall k :: 0 <= k < |waiting| ==> waiting[k] == root || (waiting[k] in now && Needs(g, root, waiting[k])))
      && (forall e :: e in all && (e == root || e in now) && e !in waiting && e != exp ==> PrerequisitesIn(g, e, now))
      && (exp == root || Needs(g, root, exp))
      && (forall k :: 0 <= k < i && k < |g[exp]| ==> g[exp][k] in now)
  }

  lemma SweepStart(g: Graph, all: set<ExpectationBase>, now: set<ExpectationBase>, root: ExpectationBase)
    requires Acyclic(g) && root in g && g.Keys == all && now <= all
    requires forall e :: e in now ==> PrerequisitesIn(g, e, now)
    ensures Sweep(g, all, now, now, root, [root])
  {
  }

  lemma SweepEnd(g: Graph, all: set<ExpectationBase>, before: set<ExpectationBase>, now: set<ExpectationBase>,
                 root: ExpectationBase)
    requires Sweep(g, all, before, now, root, []) && g.Keys == all
    requires Acyclic(g)
    ensures forall e :: e in all ==> (e in now <==> e in before || Needs(g, root, e))
    ensures forall e :: e in now ==> PrerequisitesIn(g, e, now)
  {
    forall e | e in all && Needs(g, root, e) ensures e in now {
      ClosedHoldsNeeds(g, root, now, e);
    }
  }

  lemma SweepPop(g: Graph, all: set<ExpectationBase>, before: set<ExpectationBase>, now: set<ExpectationBase>,
                 root: ExpectationBase, waiting: seq<ExpectationBase>)
    requires Sweep(g, all, before, now, root, waiting) && waiting != []
    ensures waiting[|waiting| - 1] in all
    ensures Sweeping(g, all, before, now, root, waiting[..|waiting| - 1], waiting[|waiting| - 1], 0)
  {
  }

  lemma SweepStep(g: Graph, all: set<ExpectationBase>, before: set<ExpectationBase>, now: set<ExpectationBase>,
                  root: ExpectationBase, waiting: seq<ExpectationBase>, exp: ExpectationBase, i: nat)
    requires Sweeping(g, all, before, now, root, waiting, exp, i) && i < |g[exp]|
    ensures g[exp][i] in all
    ensures g[exp][i] in now ==> Sweeping(g, all, before, now, root, waiting, exp, i + 1)
    ensures Sweeping(g, all, before, now + {g[exp][i]}, root, waiting + [g[exp][i]], exp, i + 1)
  {
    var next := g[exp][i];
    assert Needs(g, exp, next);
    if exp != root {
      NeedsTrans(g, root, exp, next);
    }
    forall e | e in all && (e == root || e in now + {next}) && e !in waiting + [next] && e != exp
      ensures PrerequisitesIn(g, e, now + {next})
    {
      assert e !in waiting && e in all;
    }
  }

  lemma SweepDone(g: Graph, all: set<ExpectationBase>, before: set<ExpectationBase>, now: set<ExpectationBase>,
                  root: ExpectationBase, waiting: seq<ExpectationBase>, exp: ExpectationBase)
    requires exp in g && Sweeping(g, all, before, now, root, waiting, exp, |g[exp]|)
    ensures Sweep(g, all, before, now, root, waiting)
  {
  }

  ghost function UnsatisfiedSet(all: set<ExpectationBase>): (s: set<ExpectationBase>)
    reads all`callCount
  {
    set e | e in all && !e.IsSatisfied()
  }

  ghost function SkippedSet(all: set<ExpectationBase>): (s: set<ExpectationBase>)
    reads all`callCount
  {
    set e | e in all && e.IsSatisfied() && e.callCount == 0
  }

  lemma NeedsNext(g: Graph, root: ExpectationBase, exp: ExpectationBase, i: nat)
    requires Acyclic(g) && root in g && exp in g && (exp == root || Needs(g, root, exp)) && i < |g[exp]|
    ensures Needs(g, root, g[exp][i])
  {
    assert Needs(g, exp, g[exp][i]);
    if exp != root {
      NeedsTrans(g, root, exp, g[exp][i]);
    }
  }

  /** Every unsatisfied prerequisite of the root is a prerequisite of something that waits. */
  ghost predicate Searching(g: Graph, open: set<ExpectationBase>, root: ExpectationBase, waiting: seq<ExpectationBase>)
  {
    Acyclic(g) && root in g && Within(g, waiting, root.id + 1)
    && (forall i :: 0 <= i < |waiting| ==> waiting[i] == root || Needs(g, root, waiting[i]))
    && (forall x :: x in open && Needs(g, root, x) ==> exists i :: 0 <= i < |waiting| && Needs(g, waiting[i], x))
  }

  lemma SearchStart(g: Graph, open: set<ExpectationBase>, root: ExpectationBase)
    requires Acyclic(g) && root in g
    ensures Searching(g, open, root, [root])
  {
    assert [root][0] == root;
  }

  lemma SearchNext(g: Graph, open: set<ExpectationBase>, root: ExpectationBase, waiting: seq<ExpectationBase>,
                   exp: ExpectationBase)
    requires Searching(g, open, root, waiting) && waiting != [] && exp == waiting[|waiting| - 1]
    requires forall k :: 0 <= k < |g[exp]| ==> g[exp][k] !in open
    ensures Searching(g, open, root, waiting[..|waiting| - 1] + g[exp])
  {
    var rest := waiting[..|waiting| - 1];
    var now := rest + g[exp];
    forall i | 0 <= i < |now|
      ensures now[i] in g && now[i].id < root.id + 1 && (now[i] == root || Needs(g, root, now[i]))
    {
      if i >= |rest| {
        NeedsNext(g, root, exp, i - |rest|);
      }
    }
    forall x | x in open && Needs(g, root, x) ensures exists i :: 0 <= i < |now| && Needs(g, now[i], x) {
      var i :| 0 <= i < |waiting| && Needs(g, waiting[i], x);
      if i < |rest| {
        assert now[i] == waiting[i];
      } else {
        var k :| 0 <= k < |g[exp]| && (g[exp][k] == x || Needs(g, g[exp][k], x));
        assert now[|rest| + k] == g[exp][k];
      }
    }
  }

  /** What blocks the root has been found or blocks something that waits, and nothing else was found. */
  ghost predicate Collecting(g: Graph, open: set<ExpectationBase>, skipped: set<ExpectationBase>, root: ExpectationBase,
                             found: set<ExpectationBase>, waiting: seq<ExpectationBase>)
  {
    match Acyclic(g) && root in g && found <= g.Keys && Within(g, waiting, root.id + 1)
    case true =>
      forall x :: x in g ==>
        (Blocks(g, open, skipped, root, x) <==> x in found || BlocksAny(g, open, skipped, waiting, root.id + 1, x))
    case false => false
  }

  lemma CollectDone(g: Graph, open: set<ExpectationBase>, skipped: set<ExpectationBase>, root: ExpectationBase,
                    found: set<ExpectationBase>)
    requires Acyclic(g) && root in g && Collecting(g, open, skipped, root, found, [])
    ensures found == set x | x in g.Keys && Blocks(g, open, skipped, root, x)
  {
  }

  /** The effect of looking at the first i prerequisites of exp: which were found, which wait instead
      of exp, and that these unfold to no more than what was looked at. */
  ghost predicate Scanned(g: Graph, open: set<ExpectationBase>, skipped: set<ExpectationBase>,
                          exp: ExpectationBase, i: nat, found: set<ExpectationBase>, pushed: seq<ExpectationBase>)
  {
    match Acyclic(g) && exp in g && i <= |g[exp]| && Within(g, pushed, exp.id)
    case false => false
    case true =>
      && (forall k :: 0 <= k < i && g[exp][k] in open ==> g[exp][k] in found)
      && (forall x :: x in found ==> x in open && x in g[exp][..i])
      && (forall k :: 0 <= k < i && g[exp][k] !in open && g[exp][k] in skipped ==> g[exp][k] in pushed)
      && (forall k :: 0 <= k < |pushed| ==> pushed[k] in g[exp][..i] && pushed[k] !in open && pushed[k] in skipped)
      && UnfoldedAll(g, pushed, exp.id) <= UnfoldedAll(g, g[exp][..i], exp.id)
  }

  lemma InGraph(g: Graph, exp: ExpectationBase, i: nat)
    requires Acyclic(g) && exp in g && i < |g[exp]|
    ensures g[exp][i] in g
  {
  }

  lemma ScanStart(g: Graph, open: set<ExpectationBase>, skipped: set<ExpectationBase>, exp: ExpectationBase)
    requires Acyclic(g) && exp in g
    ensures Scanned(g, open, skipped, exp, 0, {}, [])
  {
  }

  lemma ScanOne(g: Graph, open: set<ExpectationBase>, skipped: set<ExpectationBase>, exp: ExpectationBase, i: nat,
                found: set<ExpectationBase>, pushed: seq<ExpectationBase>)
    requires Scanned(g, open, skipped, exp, i, found, pushed) && exp in g && i < |g[exp]|
    ensures var next := g[exp][i];
            Scanned(g, open, skipped, exp, i + 1,
                    if next in open then found + {next} else found,
                    if next !in open && next in skipped then pushed + [next] else pushed)
  {
    var next := g[exp][i];
    assert g[exp][..i + 1] == g[exp][..i] + [next];
    UnfoldedAppend(g, g[exp][..i], next, exp.id);
    UnfoldedAppend(g, pushed, next, exp.id);
  }

  lemma CollectNext(g: Graph, open: set<ExpectationBase>, skipped: set<ExpectationBase>, root: ExpectationBase,
                    found: set<ExpectationBase>, more: set<ExpectationBase>, waiting: seq<ExpectationBase>,
                    exp: ExpectationBase, pushed: seq<ExpectationBase>)
    requires Collecting(g, open, skipped, root, found, waiting)
    requires waiting != [] && exp == waiting[|waiting| - 1] && exp in g
    requires Scanned(g, open, skipped, exp, |g[exp]|, more, pushed)
    ensures Acyclic(g) && Within(g, waiting, root.id + 1) && Within(g, waiting[..|waiting| - 1] + pushed, root.id + 1)
    ensures Collecting(g, open, skipped, root, found + more, waiting[..|waiting| - 1] + pushed)
    ensures UnfoldedAll(g, waiting[..|waiting| - 1] + pushed, root.id + 1) < UnfoldedAll(g, waiting, root.id + 1)
  {
    assert Acyclic(g) && root in g;
    var rest := waiting[..|waiting| - 1];
    assert g[exp][..|g[exp]|] == g[exp];
    assert waiting == rest + [exp];
    UnfoldedAppend(g, rest, exp, root.id + 1);
    UnfoldedConcat(g, rest, pushed, root.id + 1);
    UnfoldedBound(g, pushed, exp.id, root.id + 1);
    forall x | x in g
      ensures Blocks(g, open, skipped, root, x) <==>
              x in found + more || BlocksAny(g, open, skipped, rest + pushed, root.id + 1, x)
    {
      CollectOne(g, open, skipped, more, rest, exp, pushed, root.id + 1, x);
    }
  }

  /** What blocked through exp is found in exp or still blocks through what was pushed instead. */
  lemma CollectOne(g: Graph, open: set<ExpectationBase>, skipped: set<ExpectationBase>, more: set<ExpectationBase>,
                   rest: seq<ExpectationBase>, exp: ExpectationBase, pushed: seq<ExpectationBase>, bound: nat,
                   x: ExpectationBase)
    requires Acyclic(g) && exp in g && Within(g, rest, bound) && Within(g, pushed, bound) && Within(g, [exp], bound)
    requires Scanned(g, open, skipped, exp, |g[exp]|, more, pushed)
    ensures BlocksAny(g, open, skipped, rest + [exp], bound, x) || x in more <==>
            BlocksAny(g, open, skipped, rest + pushed, bound, x) || x in more
  {
    assert g[exp][..|g[exp]|] == g[exp];
    BlocksThrough(g, open, skipped, exp, x, pushed);
    BlocksAnySplit(g, open, skipped, rest, pushed, bound, x);
    BlocksAnySplit(g, open, skipped, rest, [exp], bound, x);
    assert BlocksAny(g, open, skipped, [exp], bound, x) <==> Blocks(g, open, skipped, exp, x) by {
      if Blocks(g, open, skipped, exp, x) { assert [exp][0] == exp; }
    }
  }

  ghost predicate BlocksAny(g: Graph, open: set<ExpectationBase>, skipped: set<ExpectationBase>,
                            s: seq<ExpectationBase>, bound: nat, x: ExpectationBase)
    requires Acyclic(g) && Within(g, s, bound)
  {
    exists i :: 0 <= i < |s| && Blocks(g, open, skipped, s[i], x)
  }

  lemma BlocksAnySplit(g: Graph, open: set<ExpectationBase>, skipped: set<ExpectationBase>,
                       s: seq<ExpectationBase>, t: seq<ExpectationBase>, bound: nat, x: ExpectationBase)
    requires Acyclic(g) && Within(g, s, bound) && Within(g, t, bound)
    ensures BlocksAny(g, open, skipped, s + t, bound, x) <==>
            BlocksAny(g, open, skipped, s, bound, x) || BlocksAny(g, open, skipped, t, bound, x)
  {
    var both := s + t;
    if BlocksAny(g, open, skipped, s, bound, x) {
      var i :| 0 <= i < |s| && Blocks(g, open, skipped, s[i], x);
      assert both[i] == s[i];
    }
    if BlocksAny(g, open, skipped, t, bound, x) {
      var i :| 0 <= i < |t| && Blocks(g, open, skipped, t[i], x);
      assert both[|s| + i] == t[i];
    }
  }

  lemma BlocksThrough(g: Graph, open: set<ExpectationBase>, skipped: set<ExpectationBase>, exp: ExpectationBase,
                      x: ExpectationBase, pushed: seq<ExpectationBase>)
    requires Acyclic(g) && exp in g && Within(g, pushed, exp.id)
    requires forall k :: 0 <= k < |g[exp]| ==> (g[exp][k] !in open && g[exp][k] in skipped ==> g[exp][k] in pushed)
    requires forall k :: 0 <= k < |pushed| ==> pushed[k] in g[exp] && pushed[k] !in open && pushed[k] in skipped
    ensures Blocks(g, open, skipped, exp, x) <==>
            (x in open && x in g[exp]) || BlocksAny(g, open, skipped, pushed, exp.id, x)
  {
  }
}
