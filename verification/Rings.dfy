/** The circular doubly linked lists of lib/list.h: each operation rewrites exactly the links it
    names and acts on the ring as an operation on the sequence of its entries. */
module Rings {
  import opened Common

  /** A list_head together with the record it is embedded in. */
  class Link<T(0)> {
    var next: Link<T>
    var prev: Link<T>
    var entry: T

    /** `INIT_LIST_HEAD` on a new node. */
    constructor (entry: T)
      ensures next == this && prev == this && this.entry == entry
    {
      next, prev := this, this;
      this.entry := entry;
    }
  }

  /** Following `next` from `head` passes `s` in order and returns to `head`, and `prev` is the
      inverse of `next`. */
  ghost predicate Ring<T(0)>(head: Link<T>, s: seq<Link<T>>)
    reads head, s
  {
    && Distinct(s) && head !in s
    && head.next == (if s == [] then head else s[0])
    && head.prev == (if s == [] then head else s[|s| - 1])
    && (forall i {:trigger s[i].next} :: 0 <= i < |s| ==> s[i].next == if i == |s| - 1 then head else s[i + 1])
    && (forall i {:trigger s[i].prev} :: 0 <= i < |s| ==> s[i].prev == if i == 0 then head else s[i - 1])
  }

  ghost function Without<T>(s: seq<T>, k: nat): (r: seq<T>)
    requires k < |s|
    ensures forall x :: x in r ==> x in s
  {
    s[..k] + s[k + 1..]
  }

  lemma WithoutDistinct<T>(s: seq<T>, k: nat)
    requires k < |s| && Distinct(s)
    ensures Distinct(Without(s, k)) && s[k] !in Without(s, k)
    ensures forall x :: x in s && x != s[k] ==> x in Without(s, k)
  {
    forall x | x in s && x != s[k] ensures x in Without(s, k) {
      var i :| 0 <= i < |s| && s[i] == x;
      assert Without(s, k)[if i < k then i else i - 1] == x;
    }
  }

  lemma ApartDistinct<T>(l: seq<T>, s: seq<T>)
    requires Distinct(l) && Distinct(s) && forall x :: x in l ==> x !in s
    ensures Distinct(l + s)
    ensures forall i, j :: 0 <= i < |l| && 0 <= j < |s| ==> l[i] != s[j]
  {
    forall i, j | 0 <= i < |l| && 0 <= j < |s| ensures l[i] != s[j] {
      assert l[i] in l && s[j] in s;
    }
  }

  /** `__list_add`. */
  method Insert<T(0)>(n: Link<T>, prev: Link<T>, next: Link<T>)
    modifies n`next, n`prev, prev`next, next`prev
    requires n != prev && n != next
    ensures next.prev == n && n.next == next && n.prev == prev && prev.next == n
  {
    next.prev := n;
    n.next := next;
    n.prev := prev;
    prev.next := n;
  }

  method ListAdd<T(0)>(n: Link<T>, head: Link<T>, ghost s: seq<Link<T>>)
    requires Ring(head, s) && n != head && n !in s
    modifies n`next, n`prev, head`next, head.next`prev
    ensures Ring(head, [n] + s)
  {
    Insert(n, head, head.next);
  }

  method ListAddTail<T(0)>(n: Link<T>, head: Link<T>, ghost s: seq<Link<T>>)
    requires Ring(head, s) && n != head && n !in s
    modifies n`next, n`prev, head`prev, head.prev`next
    ensures Ring(head, s + [n])
  {
    Insert(n, head.prev, head);
  }

  /** `__list_del` around entry `k`. */
  method Unlink<T(0)>(e: Link<T>, ghost head: Link<T>, ghost s: seq<Link<T>>, ghost k: nat)
    requires Ring(head, s) && k < |s| && s[k] == e
    modifies e.prev`next, e.next`prev
    ensures Ring(head, Without(s, k)) && e.next == old(e.next) && e.prev == old(e.prev)
  {
    WithoutDistinct(s, k);
    e.next.prev := e.prev;
    e.prev.next := e.next;
  }

  method ListDelInit<T(0)>(e: Link<T>, ghost head: Link<T>, ghost s: seq<Link<T>>, ghost k: nat)
    requires Ring(head, s) && k < |s| && s[k] == e
    modifies e`next, e`prev, e.prev`next, e.next`prev
    ensures Ring(head, Without(s, k)) && Ring(e, [])
  {
    WithoutDistinct(s, k);
    Unlink(e, head, s, k);
    e.next := e;
    e.prev := e;
  }

  predicate ListEmpty<T(0)>(head: Link<T>)
    reads head
  {
    head.next == head
  }

  lemma EmptyExactly<T(0)>(head: Link<T>, s: seq<Link<T>>)
    requires Ring(head, s)
    ensures ListEmpty(head) <==> s == []
  {
  }

  /** `list_move_tail` from one ring to another. */
  method ListMoveTail<T(0)>(e: Link<T>, head: Link<T>, ghost s: seq<Link<T>>,
                            ghost from: Link<T>, ghost f: seq<Link<T>>, ghost k: nat)
    requires Ring(from, f) && k < |f| && f[k] == e && Ring(head, s)
    requires head != from && head !in f && from !in s && forall x :: x in s ==> x !in f
    modifies e`next, e`prev, e.prev`next, e.next`prev, head`prev, head.prev`next
    ensures Ring(from, Without(f, k)) && Ring(head, s + [e])
  {
    WithoutDistinct(f, k);
    assert forall i :: 0 <= i < |s| ==> s[i] != e && s[i] != e.prev && s[i] != e.next by {
      assert (e.prev == from || e.prev in f) && (e.next == from || e.next in f);
      assert forall i :: 0 <= i < |s| ==> s[i] in s;
    }
    Unlink(e, from, f, k);
    ListAddTail(e, head, s);
  }

  /** `list_move` from one ring to another. */
  method ListMove<T(0)>(e: Link<T>, head: Link<T>, ghost s: seq<Link<T>>,
                        ghost from: Link<T>, ghost f: seq<Link<T>>, ghost k: nat)
    requires Ring(from, f) && k < |f| && f[k] == e && Ring(head, s)
    requires head != from && head !in f && from !in s && forall x :: x in s ==> x !in f
    modifies e`next, e`prev, e.prev`next, e.next`prev, head`next, head.next`prev
    ensures Ring(from, Without(f, k)) && Ring(head, [e] + s)
  {
    WithoutDistinct(f, k);
    assert forall i :: 0 <= i < |s| ==> s[i] != e && s[i] != e.prev && s[i] != e.next by {
      assert (e.prev == from || e.prev in f) && (e.next == from || e.next in f);
      assert forall i :: 0 <= i < |s| ==> s[i] in s;
    }
    Unlink(e, from, f, k);
    ListAdd(e, head, s);
  }

  /** `list_move` within a ring. */
  method ListMoveFront<T(0)>(e: Link<T>, head: Link<T>, ghost s: seq<Link<T>>, ghost k: nat)
    requires Ring(head, s) && k < |s| && s[k] == e
    modifies head, s
    ensures Ring(head, [e] + Without(s, k))
    ensures forall x :: x in s ==> x.entry == old(x.entry)
  {
    WithoutDistinct(s, k);
    Unlink(e, head, s, k);
    ListAdd(e, head, Without(s, k));
  }

  /** `list_move_tail` within a ring, as a connection that shows signs of life is requeued. */
  method ListRequeue<T(0)>(e: Link<T>, head: Link<T>, ghost s: seq<Link<T>>, ghost k: nat)
    requires Ring(head, s) && k < |s| && s[k] == e
    modifies head, s
    ensures Ring(head, Without(s, k) + [e])
    ensures forall x :: x in s ==> x.entry == old(x.entry)
  {
    WithoutDistinct(s, k);
    Unlink(e, head, s, k);
    ListAddTail(e, head, Without(s, k));
  }

  method ListSpliceInit<T(0)>(list: Link<T>, head: Link<T>, ghost l: seq<Link<T>>, ghost s: seq<Link<T>>)
    requires Ring(list, l) && Ring(head, s)
    requires list != head && list !in s && head !in l && forall x :: x in l ==> x !in s
    modifies list`next, list`prev, head`next, head.next`prev, list.next`prev, list.prev`next
    ensures Ring(head, l + s) && Ring(list, [])
  {
    if !ListEmpty(list) {
      ApartDistinct(l, s);
      var first, last, at := list.next, list.prev, head.next;
      first.prev := head;
      head.next := first;
      last.next := at;
      at.prev := last;
      list.next := list;
      list.prev := list;
      ghost var r := l + s;
      forall i | 0 <= i < |r| ensures r[i].next == if i == |r| - 1 then head else r[i + 1] {
        assert i < |l| || r[i] == s[i - |l|];
      }
      forall i | 0 <= i < |r| ensures r[i].prev == if i == 0 then head else r[i - 1] {
        assert i < |l| || r[i] == s[i - |l|];
      }
    }
  }

  // ----- list_for_each_entry_safe_l -----

  /** The entries of `s` that are not dropped, in order. */
  ghost function Kept<T(0)>(s: seq<Link<T>>, drop: set<Link<T>>): (r: seq<Link<T>>)
    ensures forall x :: x in r ==> x in s && x !in drop
    ensures forall x :: x in s && x !in drop ==> x in r
  {
    if s == [] then []
    else
      var n := |s| - 1;
      Kept(s[..n], drop) + (if s[n] in drop then [] else [s[n]])
  }

  /** The ring when the traversal stands at `s[i]`. */
  ghost function RingAt<T(0)>(s: seq<Link<T>>, drop: set<Link<T>>, i: nat): (r: seq<Link<T>>)
    requires i <= |s|
    ensures forall p :: 0 <= p < |r| ==> r[p] in s
  {
    var a := Kept(s[..i], drop);
    KeptInside(s, drop, i);
    a + s[i..]
  }

  lemma KeptInside<T(0)>(s: seq<Link<T>>, drop: set<Link<T>>, i: nat)
    requires i <= |s|
    ensures forall p :: 0 <= p < |Kept(s[..i], drop)| ==> Kept(s[..i], drop)[p] in s
  {
    var a := Kept(s[..i], drop);
    forall p | 0 <= p < |a|
      ensures a[p] in s
    {
      assert a[p] in a;
      assert a[p] in s[..i];
    }
  }

  ghost predicate Traversed<T(0)>(head: Link<T>, s: seq<Link<T>>, drop: set<Link<T>>, i: nat)
    requires i <= |s|
    reads head, s
  {
    && Ring(head, RingAt(s, drop, i))
    && forall j :: 0 <= j < i && s[j] in drop ==> Ring(s[j], [])
  }

  ghost function PosAt<T(0)>(head: Link<T>, s: seq<Link<T>>, i: nat): Link<T> {
    if i < |s| then s[i] else head
  }

  lemma RingAtShape<T(0)>(s: seq<Link<T>>, drop: set<Link<T>>, i: nat)
    requires i < |s| && Distinct(s)
    ensures var r := RingAt(s, drop, i); var k := |Kept(s[..i], drop)|;
            && k < |r| && r[k] == s[i] && |r| == k + |s| - i
            && (i + 1 < |s| ==> r[k + 1] == s[i + 1])
            && RingAt(s, drop, i + 1) == if s[i] in drop then Without(r, k) else r
    ensures forall j :: 0 <= j < i && s[j] in drop ==> s[j] !in RingAt(s, drop, i)
  {
    KeptStep(s, drop, i);
    DroppedGone(s, drop, i);
    hide Kept, Distinct;
    Pass(Kept(s[..i], drop), s, i);
  }

  lemma KeptStep<T(0)>(s: seq<Link<T>>, drop: set<Link<T>>, i: nat)
    requires i < |s|
    ensures Kept(s[..i + 1], drop) == Kept(s[..i], drop) + (if s[i] in drop then [] else [s[i]])
  {
    assert s[..i + 1][..i] == s[..i];
  }

  /** The entry at the front of what is to come, kept or taken out. */
  lemma Pass<T>(a: seq<T>, s: seq<T>, i: nat)
    requires i < |s|
    ensures (a + s[i..])[|a|] == s[i] && (i + 1 < |s| ==> (a + s[i..])[|a| + 1] == s[i + 1])
    ensures a + [s[i]] + s[i + 1..] == a + s[i..]
    ensures a + [] + s[i + 1..] == Without(a + s[i..], |a|)
  {
    assert s[i..] == [s[i]] + s[i + 1..];
  }

  lemma DroppedGone<T(0)>(s: seq<Link<T>>, drop: set<Link<T>>, i: nat)
    requires i <= |s| && Distinct(s)
    ensures forall j :: 0 <= j < i && s[j] in drop ==> s[j] !in RingAt(s, drop, i)
  {
    forall j | 0 <= j < i && s[j] in drop
      ensures s[j] !in RingAt(s, drop, i)
    {
      assert s[j] !in Kept(s[..i], drop);
      assert s[j] !in s[i..];
    }
  }

  /** The body run on entry `i`, which removes it if it is to be dropped. */
  method Body<T(0)>(pos: Link<T>, head: Link<T>, drop: set<Link<T>>, ghost s: seq<Link<T>>, ghost i: nat)
    requires Distinct(s) && head !in s && i < |s| && pos == s[i] && Traversed(head, s, drop, i)
    modifies head`next, head`prev, s`next, s`prev
    ensures Traversed(head, s, drop, i + 1)
  {
    hide RingAt, Kept, Without, Ring, Distinct;
    RingAtShape(s, drop, i);
    ghost var r, k := RingAt(s, drop, i), |Kept(s[..i], drop)|;
    if pos in drop {
      Neighbours(pos, head, r, k, s);
      Detach(pos, head, r, k, i, s, drop);
    }
  }

  lemma Neighbours<T(0)>(e: Link<T>, head: Link<T>, r: seq<Link<T>>, k: nat, s: seq<Link<T>>)
    requires Ring(head, r) && k < |r| && r[k] == e && forall p :: 0 <= p < |r| ==> r[p] in s
    ensures (e.prev == head || e.prev in s) && (e.next == head || e.next in s)
  {
    assert e.prev == head || e.prev == r[k - 1];
    assert e.next == head || e.next == r[k + 1];
  }

  method Detach<T(0)>(e: Link<T>, head: Link<T>, ghost r: seq<Link<T>>, ghost k: nat,
                      ghost i: nat, ghost s: seq<Link<T>>, ghost drop: set<Link<T>>)
    requires Ring(head, r) && k < |r| && r[k] == e
    requires i <= |s| && head !in s && forall j :: 0 <= j < i && s[j] in drop ==> s[j] !in r && Ring(s[j], [])
    modifies e`next, e`prev, e.prev`next, e.next`prev
    ensures Ring(head, Without(r, k)) && Ring(e, [])
    ensures forall j :: 0 <= j < i && s[j] in drop ==> Ring(s[j], [])
  {
    assert e.prev == head || e.prev in r;
    assert e.next == head || e.next in r;
    assert forall j :: 0 <= j < i ==> s[j] in s;
    ListDelInit(e, head, r, k);
  }

  /** The traversal keeps the successor before running the body, so that a body removing the
      current entry still lets every original entry be visited once, in order. */
  method TraverseSafe<T(0)>(head: Link<T>, drop: set<Link<T>>, ghost s: seq<Link<T>>)
    returns (visited: seq<Link<T>>)
    requires Ring(head, s)
    modifies head`next, head`prev, s`next, s`prev
    ensures visited == s && Ring(head, Kept(s, drop))
    ensures forall j :: 0 <= j < |s| && s[j] in drop ==> Ring(s[j], [])
  {
    hide Ring, RingAt, Traversed, Kept;
    visited := [];
    var pos := head.next;
    var n := pos.next;
    ghost var i := 0;
    TraverseStart(head, s, drop);
    while pos != head
      invariant 0 <= i <= |s| && visited == s[..i] && Traversed(head, s, drop, i)
      invariant pos == PosAt(head, s, i) && n == pos.next
      decreases |s| - i
    {
      visited := visited + [pos];
      TraverseNext(head, s, drop, i);
      Body(pos, head, drop, s, i);
      pos := n;
      n := n.next;
      i := i + 1;
    }
    TraverseEnd(head, s, drop);
  }

  lemma TraverseStart<T(0)>(head: Link<T>, s: seq<Link<T>>, drop: set<Link<T>>)
    requires Ring(head, s)
    ensures Traversed(head, s, drop, 0) && head.next == PosAt(head, s, 0) && Distinct(s) && head !in s
  {
    assert RingAt(s, drop, 0) == s;
  }

  lemma TraverseNext<T(0)>(head: Link<T>, s: seq<Link<T>>, drop: set<Link<T>>, i: nat)
    requires i < |s| && Distinct(s) && Traversed(head, s, drop, i)
    ensures s[i].next == PosAt(head, s, i + 1)
  {
    RingAtShape(s, drop, i);
  }

  lemma TraverseEnd<T(0)>(head: Link<T>, s: seq<Link<T>>, drop: set<Link<T>>)
    requires Traversed(head, s, drop, |s|)
    ensures Ring(head, Kept(s, drop)) && forall j :: 0 <= j < |s| && s[j] in drop ==> Ring(s[j], [])
  {
    assert s[..|s|] == s && RingAt(s, drop, |s|) == Kept(s, drop);
  }
}
