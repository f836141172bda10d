/** Histories of calls as values: how the call counts and the retired expectations develop from call to
    call, what holds after every history, and exactly which expectations can have been called while one
    of their prerequisites is not satisfied. */
module CallHistories {
  import opened Expectations

  /** What changes in the life of a set of expectations. */
  datatype Tally = Tally(counts: map<ExpectationBase, nat>, retired: set<ExpectationBase>)

  ghost predicate Covers(g: Graph, t: Tally) {
    Acyclic(g) && t.counts.Keys == g.Keys && t.retired <= g.Keys
  }

  ghost predicate Satisfied(t: Tally, e: ExpectationBase)
    requires e in t.counts
  {
    e.minCalls <= t.counts[e] <= e.maxCalls
  }

  ghost function Prerequisites(g: Graph, e: ExpectationBase): (s: set<ExpectationBase>)
    requires Acyclic(g) && e in g
    ensures s <= g.Keys && forall x :: x in g ==> (x in s <==> Needs(g, e, x))
  {
    set x | x in g.Keys && Needs(g, e, x)
  }

  /** The expectation takes a call: it is active and all its prerequisites are satisfied. */
  ghost predicate Takes(g: Graph, t: Tally, e: ExpectationBase) {
    && Covers(g, t) && e in g && e !in t.retired
    && (forall x :: x in Prerequisites(g, e) ==> Satisfied(t, x))
  }

  /** After a call; an excessive one is only counted. */
  ghost function AfterCall(g: Graph, t: Tally, e: ExpectationBase): (t': Tally)
    requires Covers(g, t) && e in g
    ensures Covers(g, t')
  {
    var counts := t.counts[e := t.counts[e] + 1];
    if t.counts[e] >= e.maxCalls then Tally(counts, t.retired)
    else Tally(counts, t.retired + Prerequisites(g, e) +
                       if e.retiresOnSaturation && counts[e] >= e.maxCalls then {e} else {})
  }

  lemma IsAfterCall(g: Graph, t: Tally, e: ExpectationBase, t': Tally)
    requires Covers(g, t) && e in g && t'.counts == t.counts[e := t.counts[e] + 1] && t'.retired <= g.Keys
    requires forall x :: x in g ==> (x in t'.retired <==>
               || x in t.retired
               || (t.counts[e] < e.maxCalls
                   && (Needs(g, e, x) || (x == e && e.retiresOnSaturation && t'.counts[e] >= e.maxCalls))))
    ensures t' == AfterCall(g, t, e)
  {
    hide Needs, Acyclic;
    assert t'.retired == AfterCall(g, t, e).retired;
  }

  /** The calls, each taken by the expectation named, lead from t to t'. */
  ghost predicate History(g: Graph, t: Tally, calls: seq<ExpectationBase>, t': Tally)
    decreases |calls|
  {
    if calls == [] then t' == t
    else Takes(g, t, calls[0]) && History(g, AfterCall(g, t, calls[0]), calls[1..], t')
  }

  lemma {:induction false} Joined(g: Graph, t: Tally, calls: seq<ExpectationBase>, t': Tally,
                                  more: seq<ExpectationBase>, t'': Tally)
    requires History(g, t, calls, t') && History(g, t', more, t'')
    ensures History(g, t, calls + more, t'')
    decreases |calls|
  {
    hide AfterCall, Needs, Satisfied, Prerequisites, Acyclic;
    if calls == [] {
      assert calls + more == more;
    } else {
      Joined(g, AfterCall(g, t, calls[0]), calls[1..], t', more, t'');
      assert (calls + more)[1..] == calls[1..] + more;
    }
  }

  // ----- what holds after every history

  ghost predicate LimitsOk(t: Tally, e: ExpectationBase)
    requires e in t.counts
  {
    && e.minCalls <= e.maxCalls
    && (e.retiresOnSaturation && 0 < e.maxCalls <= t.counts[e] ==> t.counts[e] == e.maxCalls && e in t.retired)
  }

  /** What was called has prerequisites that were called often enough; if it may be called at all, they
      are retired and satisfied. */
  ghost predicate CalledOk(g: Graph, t: Tally, e: ExpectationBase)
    requires Covers(g, t) && e in g
  {
    t.counts[e] > 0 ==> forall x :: x in Prerequisites(g, e) ==>
      && x.minCalls <= t.counts[x]
      && (e.maxCalls > 0 ==> x in t.retired && Satisfied(t, x))
  }

  ghost predicate Ok(g: Graph, t: Tally) {
    && Covers(g, t)
    && (forall e :: e in t.retired ==> PrerequisitesIn(g, e, t.retired))
    && (forall e :: e in g ==> LimitsOk(t, e))
    && (forall e :: e in g ==> CalledOk(g, t, e))
  }

  lemma CallKeepsOk(g: Graph, t: Tally, e: ExpectationBase)
    requires Ok(g, t) && Takes(g, t, e)
    ensures Ok(g, AfterCall(g, t, e))
  {
    hide Needs, Prerequisites, PrerequisitesIn;
    var t' := AfterCall(g, t, e);
    NotOwnPrerequisite(g, e);
    forall f | f in g ensures CalledOk(g, t', f) {
      assert CalledOk(g, t, f);
      assert LimitsOk(t, e);
    }
    forall f | f in t'.retired ensures PrerequisitesIn(g, f, t'.retired) {
      RetiredStaysClosed(g, t, e, f);
    }
    forall f | f in g ensures LimitsOk(t', f) {
      assert LimitsOk(t, f);
    }
  }

  lemma RetiredStaysClosed(g: Graph, t: Tally, e: ExpectationBase, f: ExpectationBase)
    requires Ok(g, t) && Takes(g, t, e) && f in AfterCall(g, t, e).retired
    ensures PrerequisitesIn(g, f, AfterCall(g, t, e).retired)
  {
    var retired := AfterCall(g, t, e).retired;
    if f in t.retired {
      assert PrerequisitesIn(g, f, t.retired);
    } else {
      forall i | 0 <= i < |g[f]| ensures g[f][i] in retired {
        assert Needs(g, f, g[f][i]);
        if f != e {
          NeedsTrans(g, e, f, g[f][i]);
        }
      }
    }
  }

  lemma NotOwnPrerequisite(g: Graph, e: ExpectationBase)
    requires Acyclic(g) && e in g
    ensures !Needs(g, e, e)
  {
    if Needs(g, e, e) {
      NeedsOlder(g, e, e);
    }
  }

  lemma {:induction false} HistoryKeepsOk(g: Graph, t: Tally, calls: seq<ExpectationBase>, t': Tally)
    requires Ok(g, t) && History(g, t, calls, t')
    ensures Ok(g, t')
    decreases |calls|
  {
    hide Needs, Prerequisites, AfterCall, Ok;
    if calls != [] {
      CallKeepsOk(g, t, calls[0]);
      HistoryKeepsOk(g, AfterCall(g, t, calls[0]), calls[1..], t');
    }
  }

  // ----- new expectations

  lemma {:induction false} NeedsKept(g: Graph, g': Graph, f: ExpectationBase, x: ExpectationBase)
    requires Acyclic(g) && Acyclic(g') && f in g && forall y :: y in g ==> y in g' && g'[y] == g[y]
    ensures Needs(g', f, x) <==> Needs(g, f, x)
    decreases f.id
  {
    forall i | 0 <= i < |g[f]| ensures Needs(g', g[f][i], x) <==> Needs(g, g[f][i], x) {
      NeedsKept(g, g', g[f][i], x);
    }
  }

  lemma PrerequisitesKept(g: Graph, g': Graph, f: ExpectationBase)
    requires Acyclic(g) && Acyclic(g') && f in g && forall y :: y in g ==> y in g' && g'[y] == g[y]
    ensures Prerequisites(g', f) == Prerequisites(g, f)
  {
    forall x | x in g' ensures x in Prerequisites(g', f) <==> x in Prerequisites(g, f) {
      NeedsKept(g, g', f, x);
      if Needs(g, f, x) {
        NeedsOlder(g, f, x);
      }
    }
  }

  /** A new expectation that only waits for existing ones changes nothing for the others. */
  lemma NewestKeepsOk(g: Graph, t: Tally, e: ExpectationBase, waitsFor: seq<ExpectationBase>)
    requires Ok(g, t) && e !in g && e.minCalls <= e.maxCalls
    requires forall k :: 0 <= k < |waitsFor| ==> waitsFor[k] in g && waitsFor[k].id < e.id
    ensures Ok(g[e := waitsFor], Tally(t.counts[e := 0], t.retired))
  {
    var g', t' := g[e := waitsFor], Tally(t.counts[e := 0], t.retired);
    assert Acyclic(g');
    forall f | f in g' ensures LimitsOk(t', f) && CalledOk(g', t', f) {
      if f in g {
        PrerequisitesKept(g, g', f);
        assert LimitsOk(t, f) && CalledOk(g, t, f);
      }
    }
    forall f | f in t'.retired ensures PrerequisitesIn(g', f, t'.retired) {
      assert PrerequisitesIn(g, f, t.retired);
    }
  }

  // ----- called in spite of an unsatisfied prerequisite

  /** The expectations as they are created: b takes no calls but excessive ones, nothing between b and its
      prerequisite x has to be called, and x does not retire by itself. */
  ghost predicate Exposed(g: Graph, b: ExpectationBase, x: ExpectationBase)
    requires Acyclic(g) && b in g
  {
    && x in Prerequisites(g, b) && b.maxCalls == 0
    && (x.retiresOnSaturation ==> x.maxCalls == 0)
    && (forall c :: c in Prerequisites(g, b) && x in Prerequisites(g, c) ==> c.minCalls == 0)
  }

  ghost predicate CalledTooEarly(t: Tally, b: ExpectationBase, x: ExpectationBase)
    requires b in t.counts && x in t.counts
  {
    t.counts[b] > 0 && !Satisfied(t, x)
  }

  /** In every state that the invariant allows. */
  lemma OnlyExposed(g: Graph, t: Tally, b: ExpectationBase, x: ExpectationBase)
    requires Ok(g, t) && b in g && x in Prerequisites(g, b) && CalledTooEarly(t, b, x)
    ensures Exposed(g, b, x)
  {
    assert CalledOk(g, t, b) && LimitsOk(t, x);
    forall c | c in Prerequisites(g, b) && x in Prerequisites(g, c) ensures c.minCalls == 0 {
      assert CalledOk(g, t, c) && LimitsOk(t, c);
    }
  }

  ghost function Blank(g: Graph): (t: Tally)
    requires Acyclic(g)
    ensures Covers(g, t)
  {
    Tally(map e | e in g.Keys :: 0, {})
  }

  ghost predicate Sensible(g: Graph) {
    Acyclic(g) && forall e :: e in g ==> e.minCalls <= e.maxCalls
  }

  lemma BlankOk(g: Graph)
    requires Sensible(g)
    ensures Ok(g, Blank(g))
  {
  }

  /** Calls to one expectation: they count, and they retire only its prerequisites and perhaps itself. */
  ghost predicate CallsCounted(g: Graph, t: Tally, e: ExpectationBase, n: nat, t': Tally)
    requires Covers(g, t) && e in g
  {
    && t'.counts == t.counts[e := t.counts[e] + n] && t'.retired <= g.Keys
    && (forall x :: x in t'.retired && x !in t.retired ==>
          n > 0 && (x in Prerequisites(g, e) || (x == e && e.retiresOnSaturation && e.maxCalls > 0)))
  }

  /** An active expectation can be called again and again unless it retires by itself. */
  lemma {:induction false} CallTimes(g: Graph, t: Tally, e: ExpectationBase, n: nat)
    returns (calls: seq<ExpectationBase>, t': Tally)
    requires Covers(g, t) && e in g && (n > 0 ==> Takes(g, t, e))
    requires e.retiresOnSaturation && e.maxCalls > 0 ==> t.counts[e] + n <= e.maxCalls
    ensures History(g, t, calls, t') && CallsCounted(g, t, e, n, t')
    decreases n
  {
    hide Needs, Acyclic, Prerequisites, AfterCall, Takes, CallsCounted;
    if n == 0 {
      calls, t' := [], t;
      NoCall(g, t, e);
    } else {
      CallOnce(g, t, e, n);
      var u := AfterCall(g, t, e);
      var rest;
      rest, t' := CallTimes(g, u, e, n - 1);
      CountedMore(g, t, e, u, n, t');
      calls := [e] + rest;
      assert calls[1..] == rest;
    }
  }

  lemma NoCall(g: Graph, t: Tally, e: ExpectationBase)
    requires Covers(g, t) && e in g
    ensures CallsCounted(g, t, e, 0, t)
  {
    assert t.counts[e := t.counts[e]] == t.counts;
  }

  lemma CallOnce(g: Graph, t: Tally, e: ExpectationBase, n: nat)
    requires Covers(g, t) && Takes(g, t, e) && n > 0
    requires e.retiresOnSaturation && e.maxCalls > 0 ==> t.counts[e] + n <= e.maxCalls
    ensures var u := AfterCall(g, t, e);
            CallsCounted(g, t, e, 1, u) && u.counts[e] == t.counts[e] + 1 && (n > 1 ==> Takes(g, u, e))
  {
    hide Needs, Prerequisites;
    NotOwnPrerequisite(g, e);
  }

  lemma CountedMore(g: Graph, t: Tally, e: ExpectationBase, u: Tally, n: nat, t': Tally)
    requires Covers(g, t) && Covers(g, u) && e in g && n > 0
    requires CallsCounted(g, t, e, 1, u) && CallsCounted(g, u, e, n - 1, t')
    ensures CallsCounted(g, t, e, n, t')
  {
    hide Needs, Prerequisites, Acyclic;
  }

  /** Everything in s has been called as often as it must be, nothing else has been called or retired,
      and x is not retired. */
  ghost predicate Prepared(g: Graph, s: set<ExpectationBase>, x: ExpectationBase, t: Tally) {
    && Covers(g, t) && t.retired <= s && x !in t.retired
    && (forall e :: e in g ==> t.counts[e] == if e in s then e.minCalls else 0)
  }

  ghost predicate ClosedUnderNeeds(g: Graph, s: set<ExpectationBase>)
    requires Acyclic(g)
  {
    s <= g.Keys && forall e :: e in s ==> Prerequisites(g, e) <= s
  }

  lemma {:induction false} Newest(s: set<ExpectationBase>) returns (e: ExpectationBase)
    requires s != {}
    ensures e in s && forall f :: f in s ==> f.id <= e.id
    decreases |s|
  {
    e :| e in s;
    if s != {e} {
      var f := Newest(s - {e});
      if f.id > e.id {
        e := f;
      }
    }
  }

  lemma {:induction false} Prepare(g: Graph, s: set<ExpectationBase>, x: ExpectationBase)
    returns (calls: seq<ExpectationBase>, t: Tally)
    requires Sensible(g) && ClosedUnderNeeds(g, s) && (x.retiresOnSaturation ==> x.maxCalls == 0)
    requires forall c :: c in s && x in Prerequisites(g, c) ==> c.minCalls == 0
    ensures History(g, Blank(g), calls, t) && Prepared(g, s, x, t)
    decreases |s|
  {
    hide Needs, Prerequisites, AfterCall, Takes, Prepared, CallsCounted, History;
    if s == {} {
      calls, t := [], Blank(g);
      Nothing(g, x);
    } else {
      var e := Newest(s);
      var older := s - {e};
      WithoutNewest(g, s, e);
      var first, u := Prepare(g, older, x);
      MayPrepare(g, older, x, u, e);
      var again;
      again, t := CallTimes(g, u, e, e.minCalls);
      PreparedNext(g, older, x, u, e, t);
      assert older + {e} == s;
      Joined(g, Blank(g), first, u, again, t);
      calls := first + again;
    }
  }

  lemma Nothing(g: Graph, x: ExpectationBase)
    requires Acyclic(g)
    ensures History(g, Blank(g), [], Blank(g)) && Prepared(g, {}, x, Blank(g))
  {
  }

  lemma WithoutNewest(g: Graph, s: set<ExpectationBase>, e: ExpectationBase)
    requires Acyclic(g) && ClosedUnderNeeds(g, s) && e in s && forall f :: f in s ==> f.id <= e.id
    ensures ClosedUnderNeeds(g, s - {e}) && Prerequisites(g, e) <= s - {e}
  {
    forall f, y | f in s && y in Prerequisites(g, f) ensures y in s - {e} {
      NeedsOlder(g, f, y);
    }
  }

  lemma MayPrepare(g: Graph, s: set<ExpectationBase>, x: ExpectationBase, t: Tally, e: ExpectationBase)
    requires Sensible(g) && Prepared(g, s, x, t) && e in g && e !in s && Prerequisites(g, e) <= s
    ensures Covers(g, t) && Takes(g, t, e) && t.counts[e] == 0
  {
    hide Needs, Prerequisites;
  }

  lemma PreparedNext(g: Graph, s: set<ExpectationBase>, x: ExpectationBase, t: Tally, e: ExpectationBase, t': Tally)
    requires Sensible(g) && Prepared(g, s, x, t) && e in g && e !in s && Prerequisites(g, e) <= s
    requires CallsCounted(g, t, e, e.minCalls, t') && t.counts[e] == 0
    requires (x.retiresOnSaturation ==> x.maxCalls == 0) && (x in Prerequisites(g, e) ==> e.minCalls == 0)
    ensures Prepared(g, s + {e}, x, t')
  {
    hide Needs, Prerequisites;
  }

  /** First everything that b waits for, as often as it must be; then b, in excess; then x until it has
      had one call too many. */
  lemma ExposedFails(g: Graph, b: ExpectationBase, x: ExpectationBase)
    returns (calls: seq<ExpectationBase>, t: Tally)
    requires Sensible(g) && b in g && Exposed(g, b, x)
    ensures Covers(g, t) && History(g, Blank(g), calls, t) && CalledTooEarly(t, b, x)
  {
    hide Needs, Prerequisites;
    var s := Prerequisites(g, b);
    forall e, y | e in s && y in Prerequisites(g, e) ensures y in s {
      NeedsTrans(g, b, e, y);
    }
    NotOwnPrerequisite(g, b);
    NotOwnPrerequisite(g, x);
    var first, u := Prepare(g, s, x);
    var v := AfterCall(g, u, b);
    assert History(g, v, [], v) && [b][1..] == [];
    assert History(g, u, [b], v);
    Joined(g, Blank(g), first, u, [b], v);
    assert b !in Prerequisites(g, x);
    var again;
    again, t := CallTimes(g, v, x, x.maxCalls + 1 - x.minCalls);
    Joined(g, Blank(g), first + [b], v, again, t);
    calls := first + [b] + again;
  }

  /** Having been called does not mean that the prerequisites are satisfied; this is exactly when it may
      fail, for any expectations and any prerequisite x of b. */
  lemma CalledTooEarlyIffExposed(g: Graph, b: ExpectationBase, x: ExpectationBase)
    requires Sensible(g) && b in g && x in Prerequisites(g, b)
    ensures (exists calls, t :: Covers(g, t) && History(g, Blank(g), calls, t) && CalledTooEarly(t, b, x))
            <==> Exposed(g, b, x)
  {
    hide Needs, Prerequisites, Exposed, History, CalledTooEarly;
    if Exposed(g, b, x) {
      var calls, t := ExposedFails(g, b, x);
    }
    if calls, t :| Covers(g, t) && History(g, Blank(g), calls, t) && CalledTooEarly(t, b, x) {
      BlankOk(g);
      HistoryKeepsOk(g, Blank(g), calls, t);
      OnlyExposed(g, t, b, x);
    }
  }
}
