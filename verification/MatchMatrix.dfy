/** The connectivity matrix of (elements x matchers), stored as one flat vector in element-major
    order, and its use as a binary counter over all graphs of one size. */
module MatchMatrices {
  import opened BipartiteMatching

  class MatchMatrix {
    const numElements: nat
    const numMatchers: nat
    var matched: seq<bool>

    ghost predicate Valid()
      reads this
    {
      |matched| == numElements * numMatchers
    }

    constructor (numElements: nat, numMatchers: nat)
      ensures Valid() && this.numElements == numElements && this.numMatchers == numMatchers
      ensures forall p :: 0 <= p < |matched| ==> !matched[p]
      ensures ToGraph() == Graph(numElements, numMatchers, {})
    {
      this.numElements := numElements;
      this.numMatchers := numMatchers;
      matched := seq(numElements * numMatchers, _ => false);
      new;
      assert ToGraph().edges == {};
    }

    function SpaceIndex(ilhs: nat, irhs: nat): (p: nat)
      requires ilhs < numElements && irhs < numMatchers
      ensures p < numElements * numMatchers
    {
      SpaceIndexInRange(ilhs, irhs, numElements, numMatchers);
      ilhs * numMatchers + irhs
    }

    /** The edges that the vector stands for. */
    ghost function ToGraph(): (g: Graph)
      requires Valid()
      reads this
      ensures InRange(g) && g.lhs == numElements && g.rhs == numMatchers
    {
      Graph(numElements, numMatchers,
            set i: nat, j: nat | i < numElements && j < numMatchers && matched[SpaceIndex(i, j)] :: (i, j))
    }

    method HasEdge(ilhs: nat, irhs: nat) returns (b: bool)
      requires Valid() && ilhs < numElements && irhs < numMatchers
      ensures b <==> (ilhs, irhs) in ToGraph().edges
    {
      b := matched[SpaceIndex(ilhs, irhs)];
    }

    method SetEdge(ilhs: nat, irhs: nat, b: bool)
      requires Valid() && ilhs < numElements && irhs < numMatchers
      modifies this
      ensures Valid()
      ensures ToGraph().edges ==
              if b then old(ToGraph().edges) + {(ilhs, irhs)} else old(ToGraph().edges) - {(ilhs, irhs)}
    {
      matched := matched[SpaceIndex(ilhs, irhs) := b];
      forall i: nat, j: nat | i < numElements && j < numMatchers
        ensures matched[SpaceIndex(i, j)] ==
                if i == ilhs && j == irhs then b else old(matched[SpaceIndex(i, j)])
      {
        if SpaceIndex(i, j) == SpaceIndex(ilhs, irhs) {
          SpaceIndexInjective(i, j, ilhs, irhs, numMatchers);
        }
      }
    }

    /** Adds one to the matrix read as a number; returns false if that left it empty. */
    method NextGraph() returns (more: bool)
      requires Valid()
      modifies this
      ensures Valid()
      ensures more ==> Value(matched) == old(Value(matched)) + 1
      ensures !more ==> Value(matched) == 0 && old(Value(matched)) + 1 == Pow2(|matched|)
    {
      ghost var was := matched;
      ghost var p := 0;
      var ilhs := 0;
      while ilhs < numElements
        invariant 0 <= ilhs <= numElements && p == ilhs * numMatchers
        invariant Carried(was, matched, p)
      {
        var irhs := 0;
        while irhs < numMatchers
          invariant 0 <= irhs <= numMatchers && p == ilhs * numMatchers + irhs
          invariant Carried(was, matched, p)
        {
          assert p == SpaceIndex(ilhs, irhs);
          if !matched[SpaceIndex(ilhs, irhs)] {
            matched := matched[SpaceIndex(ilhs, irhs) := true];
            IncrementStops(was, matched, p);
            return true;
          }
          matched := matched[SpaceIndex(ilhs, irhs) := false];
          irhs, p := irhs + 1, p + 1;
        }
        assert (ilhs + 1) * numMatchers == ilhs * numMatchers + numMatchers;
        ilhs := ilhs + 1;
      }
      assert p == |was|;
      AllOnes(was);
      AllZeros(matched);
      return false;
    }
  }

  lemma SpaceIndexInRange(i: nat, j: nat, n: nat, m: nat)
    requires i < n && j < m
    ensures i * m + j < n * m
  {
    assert (i + 1) * m <= n * m;
    assert (i + 1) * m == i * m + m;
  }

  lemma SpaceIndexInjective(i: nat, j: nat, i': nat, j': nat, m: nat)
    requires j < m && j' < m && i * m + j == i' * m + j'
    ensures i == i' && j == j'
  {
    if i < i' {
      RowsApart(i, i', m);
    } else if i' < i {
      RowsApart(i', i, m);
    }
  }

  lemma RowsApart(i: nat, i': nat, m: nat)
    requires i < i'
    ensures i * m + m <= i' * m
  {
    assert (i + 1) * m <= i' * m;
  }

  // ----- the matrix as a binary number, least significant bit first

  function Value(s: seq<bool>): nat {
    if s == [] then 0 else (if s[0] then 1 else 0) + 2 * Value(s[1..])
  }

  function Pow2(n: nat): nat {
    if n == 0 then 1 else 2 * Pow2(n - 1)
  }

  /** The carry has run over the first p bits: they were all ones and are now zeros. */
  ghost predicate Carried(was: seq<bool>, now: seq<bool>, p: nat) {
    && |was| == |now| && p <= |was|
    && (forall k :: 0 <= k < p ==> was[k] && !now[k])
    && (forall k :: p <= k < |was| ==> was[k] == now[k])
  }

  lemma {:induction false} IncrementStops(was: seq<bool>, now: seq<bool>, p: nat)
    requires |was| == |now| && p < |was| && !was[p] && now[p]
    requires forall k :: 0 <= k < p ==> was[k] && !now[k]
    requires forall k :: p < k < |was| ==> was[k] == now[k]
    ensures Value(now) == Value(was) + 1
  {
    if p == 0 {
      assert was[1..] == now[1..];
    } else {
      IncrementStops(was[1..], now[1..], p - 1);
    }
  }

  lemma {:induction false} AllOnes(s: seq<bool>)
    requires forall k :: 0 <= k < |s| ==> s[k]
    ensures Value(s) + 1 == Pow2(|s|)
  {
    if s != [] {
      AllOnes(s[1..]);
    }
  }

  lemma {:induction false} AllZeros(s: seq<bool>)
    requires forall k :: 0 <= k < |s| ==> !s[k]
    ensures Value(s) == 0
  {
    if s != [] {
      AllZeros(s[1..]);
    }
  }

  lemma {:induction false} ValueBound(s: seq<bool>)
    ensures Value(s) < Pow2(|s|)
  {
    if s != [] {
      ValueBound(s[1..]);
    }
  }

  lemma {:induction false} ValueInjective(s: seq<bool>, t: seq<bool>)
    requires |s| == |t| && Value(s) == Value(t)
    ensures s == t
  {
    if s != [] {
      ValueInjective(s[1..], t[1..]);
      assert s == [s[0]] + s[1..] && t == [t[0]] + t[1..];
    }
  }
}
