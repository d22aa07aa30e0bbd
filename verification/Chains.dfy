/** Index-linked chains over a flat slot array: bucket heads in [0, heads), overflow slots
    after them, links stored as indices with 0 meaning "end of chain". */
module Chains {

  /** The slots visited by following links from slot `i`. */
  function Chain(next: seq<nat>, i: nat): (c: seq<nat>)
    requires i < |next|
    ensures |c| > 0 && c[0] == i
    ensures forall p :: 0 <= p < |c| ==> i <= c[p] < |next|
    decreases |next| - i
  {
    if i < next[i] < |next| then [i] + Chain(next, next[i]) else [i]
  }

  /** `p` links to `j`. */
  predicate LinksTo(next: seq<nat>, p: nat, j: nat) {
    p < |next| && next[p] == j
  }

  ghost predicate IsLinked(next: seq<nat>, j: nat) {
    exists p: nat :: LinksTo(next, p, j)
  }

  /** Links go upwards into the used overflow area, no slot is linked twice, every used
      overflow slot is linked, and slots beyond the used area are unlinked. */
  ghost predicate Linked(next: seq<nat>, heads: nat, used: nat) {
    && 0 < heads && heads + used <= |next|
    && (forall i :: 0 <= i < |next| && next[i] != 0 ==> i < next[i] && heads <= next[i] < heads + used)
    && (forall i, j :: 0 <= i < |next| && 0 <= j < |next| && next[i] == next[j] && next[i] != 0 ==> i == j)
    && (forall j: nat :: heads <= j < heads + used ==> IsLinked(next, j))
    && (forall i :: heads + used <= i < |next| ==> next[i] == 0)
  }

  lemma {:induction false} ChainShape(next: seq<nat>, heads: nat, used: nat, i: nat)
    requires Linked(next, heads, used) && i < |next|
    ensures forall p, q :: 0 <= p < q < |Chain(next, i)| ==> Chain(next, i)[p] < Chain(next, i)[q]
    ensures next[Chain(next, i)[|Chain(next, i)| - 1]] == 0
    decreases |next| - i
  {
    if next[i] != 0 {
      ChainShape(next, heads, used, next[i]);
    }
  }

  /** Following one more link stays on the chain. */
  lemma {:induction false} ChainClosed(next: seq<nat>, heads: nat, used: nat, i: nat, s: nat)
    requires Linked(next, heads, used) && i < |next|
    requires s in Chain(next, i) && next[s] != 0
    ensures next[s] in Chain(next, i)
    decreases |next| - i
  {
    if s != i {
      ChainClosed(next, heads, used, next[i], s);
    } else {
      assert Chain(next, next[s])[0] == next[s];
      assert Chain(next, i) == [i] + Chain(next, next[i]);
    }
  }

  /** A chain member other than its start is linked from a chain member. */
  lemma {:induction false} ChainPred(next: seq<nat>, heads: nat, used: nat, i: nat, s: nat) returns (p: nat)
    requires Linked(next, heads, used) && i < |next|
    requires s in Chain(next, i) && s != i
    ensures p in Chain(next, i) && p < s && LinksTo(next, p, s)
    decreases |next| - i
  {
    if next[i] == s {
      p := i;
    } else {
      p := ChainPred(next, heads, used, next[i], s);
    }
  }

  /** A slot lies on at most one bucket's chain. */
  lemma {:induction false} ChainsDisjoint(next: seq<nat>, heads: nat, used: nat, a: nat, b: nat, s: nat)
    requires Linked(next, heads, used) && a < heads && b < heads
    requires s in Chain(next, a) && s in Chain(next, b)
    ensures a == b
    decreases s
  {
    if s == a && s != b {
      var p := ChainPred(next, heads, used, b, s);
      assert false;
    } else if s == b && s != a {
      var p := ChainPred(next, heads, used, a, s);
      assert false;
    } else if s != a {
      var p := ChainPred(next, heads, used, a, s);
      var q := ChainPred(next, heads, used, b, s);
      ChainsDisjoint(next, heads, used, a, b, p);
    }
  }

  /** Every head and every used overflow slot lies on some bucket's chain. */
  lemma {:induction false} ChainsCover(next: seq<nat>, heads: nat, used: nat, s: nat) returns (b: nat)
    requires Linked(next, heads, used) && s < heads + used
    ensures b < heads && s in Chain(next, b)
    decreases s
  {
    if s < heads {
      b := s;
      assert Chain(next, s)[0] == s;
    } else {
      assert IsLinked(next, s);
      var p: nat :| LinksTo(next, p, s);
      b := ChainsCover(next, heads, used, p);
      ChainClosed(next, heads, used, b, p);
    }
  }

  /** Linking slot `heads + used` behind the end of bucket `b` extends that chain only. */
  lemma {:induction false} AppendLink(next: seq<nat>, heads: nat, used: nat, b: nat, last: nat)
    requires Linked(next, heads, used) && heads + used < |next| && b < heads
    requires last in Chain(next, b) && next[last] == 0
    ensures Linked(next[last := heads + used], heads, used + 1)
    ensures Chain(next[last := heads + used], b) == Chain(next, b) + [heads + used]
    ensures forall a :: 0 <= a < heads && a != b ==> Chain(next[last := heads + used], a) == Chain(next, a)
  {
    var j := heads + used;
    var next' := next[last := j];
    assert last < j by { InUsed(next, heads, used, b, last); }
    forall k: nat | heads <= k < j + 1 ensures IsLinked(next', k) {
      if k == j {
        assert LinksTo(next', last, j);
      } else {
        assert IsLinked(next, k);
        var p: nat :| LinksTo(next, p, k);
        assert LinksTo(next', p, k);
      }
    }
    ChainGrows(next, heads, used, b, last);
    forall a | 0 <= a < heads && a != b ensures Chain(next', a) == Chain(next, a) {
      if last in Chain(next, a) {
        ChainsDisjoint(next, heads, used, a, b, last);
      }
      ChainFrame(next, next', a, last);
    }
  }

  lemma {:induction false} InUsed(next: seq<nat>, heads: nat, used: nat, i: nat, s: nat)
    requires Linked(next, heads, used) && i < heads + used && s in Chain(next, i)
    ensures s < heads + used
    decreases |next| - i
  {
    if s != i {
      InUsed(next, heads, used, next[i], s);
    }
  }

  lemma {:induction false} ChainGrows(next: seq<nat>, heads: nat, used: nat, i: nat, last: nat)
    requires Linked(next, heads, used) && heads + used < |next| && i < |next|
    requires last in Chain(next, i) && next[last] == 0 && last < heads + used
    ensures Chain(next[last := heads + used], i) == Chain(next, i) + [heads + used]
    decreases |next| - i
  {
    if i != last {
      ChainGrows(next, heads, used, next[i], last);
    } else {
      assert Chain(next[last := heads + used], heads + used) == [heads + used];
    }
  }

  lemma {:induction false} ChainFrame(next: seq<nat>, next': seq<nat>, i: nat, s: nat)
    requires i < |next| == |next'| && s < |next| && next' == next[s := next'[s]]
    requires s !in Chain(next, i)
    ensures Chain(next', i) == Chain(next, i)
    decreases |next| - i
  {
    assert Chain(next, i)[0] == i;
    if i < next[i] < |next| {
      ChainFrame(next, next', next[i], s);
    }
  }
}
