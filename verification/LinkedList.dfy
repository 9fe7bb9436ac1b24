/** The intrusive doubly linked list of src/include/a3/ll.h on the heap. A backward pointer of
    the library is the address of the next cell that points here; since that cell opens its
    link, it is modelled as a reference to the whole link. The list's own head cell and the
    always-null cell behind it form the front link. */
module LinkedList {
  import opened Sequences

  class Link {
    var next: Link?
    var prev: Link?

    constructor ()
      ensures next == null && prev == null
    {
      next, prev := null, null;
    }
  }

  function InsertAt<T>(s: seq<T>, k: nat, x: T): (r: seq<T>)
    requires k <= |s|
    ensures |r| == |s| + 1 && forall i | 0 <= i < |r| :: r[i] == if i < k then s[i] else if i == k then x else s[i - 1]
  {
    s[..k] + [x] + s[k..]
  }

  function RemoveAt<T>(s: seq<T>, k: nat): (r: seq<T>)
    requires k < |s|
    ensures |r| == |s| - 1 && forall i | 0 <= i < |r| :: r[i] == if i < k then s[i] else s[i + 1]
  {
    s[..k] + s[k + 1..]
  }

  function Inner<T>(s: seq<T>): (r: seq<T>)
    requires |s| >= 2
    ensures |r| == |s| - 2 && forall i | 0 <= i < |r| :: r[i] == s[i + 1]
  {
    s[1..|s| - 1]
  }

  lemma InnerDistinct<T>(s: seq<T>)
    requires |s| >= 2 && Distinct(s)
    ensures Distinct(Inner(s))
  {
  }

  lemma InnerInsert<T>(s: seq<T>, k: nat, x: T, all: set<T>)
    requires |s| >= 2 && 1 <= k < |s|
    ensures Inner(InsertAt(s, k, x)) == InsertAt(Inner(s), k - 1, x)
    ensures Distinct(s) && x !in s ==> Distinct(InsertAt(s, k, x))
    ensures Within(s, all) ==> Within(InsertAt(s, k, x), all + {x})
  {
  }

  predicate Within<T(==)>(s: seq<T>, all: set<T>) {
    forall i | 0 <= i < |s| :: s[i] in all
  }

  lemma InnerRemove<T>(s: seq<T>, k: nat)
    requires |s| >= 2 && 1 <= k < |s| - 1
    ensures Inner(RemoveAt(s, k)) == RemoveAt(Inner(s), k - 1)
    ensures Distinct(s) ==> Distinct(RemoveAt(s, k)) && s[k] !in RemoveAt(s, k)
    ensures forall all | Within(s, all) :: Within(RemoveAt(s, k), all)
  {
  }

  ghost function IndexOf<T>(s: seq<T>, x: T): (k: nat)
    requires x in s
    ensures k < |s| && s[k] == x
  {
    var k: nat :| k < |s| && s[k] == x;
    k
  }

  lemma IndexUnique<T>(s: seq<T>, k: nat)
    requires Distinct(s) && k < |s|
    ensures IndexOf(s, s[k]) == k
  {
  }

  /** Removing an element undoes its insertion, wherever it was inserted. */
  lemma RemoveUndoesInsert<T>(s: seq<T>, k: nat, x: T)
    requires Distinct(s) && x !in s && k <= |s|
    ensures Distinct(InsertAt(s, k, x))
    ensures RemoveAt(InsertAt(s, k, x), IndexOf(InsertAt(s, k, x), x)) == s
  {
    var t := InsertAt(s, k, x);
    assert Distinct(t);
    IndexUnique(t, k);
  }

  lemma ReverseStep<T>(s: seq<T>, n: nat)
    requires n < |s|
    ensures Reverse(s[n..]) == Reverse(s[n + 1..]) + [s[n]]
  {
  }

  /** The elements outside a set, in order. */
  function Keep<T(==)>(s: seq<T>, drop: set<T>): seq<T> {
    if s == [] then [] else Keep(s[..|s| - 1], drop) + if s[|s| - 1] in drop then [] else [s[|s| - 1]]
  }

  lemma KeepOneMore<T>(s: seq<T>, x: T, drop: set<T>)
    ensures Keep(s + [x], drop) == Keep(s, drop) + if x in drop then [] else [x]
  {
    assert (s + [x])[..|s|] == s;
  }

  /** What is kept of a list is what is kept of its parts, in the same order. */
  lemma {:induction false} KeepAppend<T>(s: seq<T>, t: seq<T>, drop: set<T>)
    ensures Keep(s + t, drop) == Keep(s, drop) + Keep(t, drop)
  {
    if t == [] {
      assert s + t == s;
    } else {
      var rest, last := t[..|t| - 1], t[|t| - 1];
      KeepAppend(s, rest, drop);
      KeepOneMore(s + rest, last, drop);
      KeepOneMore(rest, last, drop);
      assert t == rest + [last] && s + t == (s + rest) + [last];
    }
  }

  lemma {:induction false} KeepMembers<T>(s: seq<T>, drop: set<T>)
    ensures forall x :: x in Keep(s, drop) <==> x in s && x !in drop
  {
    if s == [] {
    } else {
      KeepMembers(s[..|s| - 1], drop);
      assert s == s[..|s| - 1] + [s[|s| - 1]];
    }
  }

  /** The list once the first n elements of all have been visited. */
  function Visiting<T(==)>(all: seq<T>, drop: set<T>, n: nat): seq<T>
    requires n <= |all|
  {
    Keep(all[..n], drop) + all[n..]
  }

  /** The list after the loop body has run on x. */
  ghost function AfterBody<T>(s: seq<T>, x: T, drop: set<T>): seq<T>
    requires x in s
  {
    if x in drop then RemoveAt(s, IndexOf(s, x)) else s
  }

  lemma VisitStep<T>(all: seq<T>, drop: set<T>, n: nat)
    requires n < |all| && Distinct(Visiting(all, drop, n))
    ensures var now := Visiting(all, drop, n);
            && all[n] in now
            && var k := IndexOf(now, all[n]);
               && (if n + 1 < |all| then k + 1 < |now| && now[k + 1] == all[n + 1] else k + 1 == |now|)
               && Visiting(all, drop, n + 1) == AfterBody(now, all[n], drop)
  {
    var kept, now := Keep(all[..n], drop), Visiting(all, drop, n);
    assert now == kept + ([all[n]] + all[n + 1..]);
    IndexUnique(now, |kept|);
    assert all[..n + 1] == all[..n] + [all[n]];
    KeepOneMore(all[..n], all[n], drop);
    if all[n] in drop {
      assert RemoveAt(now, |kept|) == kept + all[n + 1..];
    } else {
      assert now == (kept + [all[n]]) + all[n + 1..];
    }
  }

  lemma TakeOneMore<T>(all: seq<T>, n: nat)
    requires n < |all|
    ensures all[..n] + [all[n]] == all[..n + 1]
  {
  }

  lemma VisitEnds<T>(all: seq<T>, drop: set<T>)
    ensures all[..0] == [] && all[..|all|] == all
    ensures Visiting(all, drop, 0) == all && Visiting(all, drop, |all|) == Keep(all, drop)
  {
    assert all[..|all|] == all && all[..0] == [];
  }

  /** The link after slot i of the chain follows the one in slot i, and both say so. */
  ghost predicate Joined(chain: seq<Link>, i: nat)
    requires i + 1 < |chain|
    reads chain[i], chain[i + 1]
  {
    chain[i].next == chain[i + 1] && chain[i + 1].prev == chain[i]
  }

  /** The element after elem, or null after the last and for an orphan. */
  function Next(elem: Link): Link?
    reads elem, elem.next
  {
    if elem.next != null && elem.next.next != null then elem.next else null
  }

  function Prev(elem: Link): Link?
    requires elem.prev != null
    reads elem, elem.prev
  {
    if elem.prev.prev != null then elem.prev else null
  }

  class List {
    const front: Link
    const end: Link
    ghost var chain: seq<Link>  // the front link, the elements, the end link
    ghost var repr: set<Link>   // all links that have been in the chain

    ghost predicate Valid()
      reads this, repr
    {
      && Within(chain, repr)
      && |chain| >= 2 && chain[0] == front && chain[|chain| - 1] == end && Distinct(chain)
      && front.prev == null && end.next == null
      && (if |chain| == 2 && front.next == null then end.prev == front
          else forall i: nat | i < |chain| - 1 :: Joined(chain, i))
    }

    ghost function Nodes(): seq<Link>
      requires |chain| >= 2
      reads this
    {
      Inner(chain)
    }

    constructor ()
      ensures Valid() && Nodes() == [] && fresh(repr)
    {
      front := new Link();
      end := new Link();
      new;
      front.next := null;
      front.prev := null;
      end.next := null;
      end.prev := front;
      chain, repr := [front, end], {front, end};
    }

    lemma Ends()
      requires Valid()
      ensures |chain| > 2 || front.next != null ==> front.next == chain[1] && end.prev == chain[|chain| - 2]
      ensures end.prev == chain[|chain| - 2]
    {
      if |chain| > 2 || front.next != null {
        assert Joined(chain, 0) && Joined(chain, |chain| - 2);
      }
    }

    lemma ElementAt(elem: Link) returns (k: nat)
      requires Valid() && elem in Nodes()
      ensures 1 <= k < |chain| - 1 && chain[k] == elem && k == IndexOf(Nodes(), elem) + 1
      ensures Joined(chain, k - 1) && Joined(chain, k)
    {
      k := IndexOf(Nodes(), elem) + 1;
    }

    /** Both a null head and a head that is the end link mean empty. */
    predicate IsEmpty()
      reads front
    {
      front.next == null || front.next == end
    }

    function Head(): Link?
      reads front
    {
      if !IsEmpty() then front.next else null
    }

    function Last(): Link?
      reads front, end
    {
      if !IsEmpty() then end.prev else null
    }

    lemma EndsAre()
      requires Valid()
      ensures IsEmpty() <==> Nodes() == []
      ensures Head() == if Nodes() == [] then null else Nodes()[0]
      ensures Last() == if Nodes() == [] then null else Nodes()[|Nodes()| - 1]
    {
      Ends();
    }

    /** Neighbours of an element are read off its links, without the list. */
    lemma NeighboursAre(elem: Link)
      requires Valid() && elem in Nodes()
      ensures elem.prev != null
      ensures var k := IndexOf(Nodes(), elem);
              && Next(elem) == (if k + 1 < |Nodes()| then Nodes()[k + 1] else null)
              && Prev(elem) == (if k > 0 then Nodes()[k - 1] else null)
    {
      var k := ElementAt(elem);
      if k + 2 < |chain| {
        assert Joined(chain, k + 1);
      }
      if k > 1 {
        assert Joined(chain, k - 2);
      }
    }

    method InsertAfter(elem: Link, added: Link)
      requires Valid() && elem in Nodes() && added !in chain
      modifies this, elem, elem.next, added
      ensures repr == old(repr) + {added}
      ensures Valid()
      ensures Nodes() == InsertAt(old(Nodes()), IndexOf(old(Nodes()), elem) + 1, added)
    {
      ghost var k := ElementAt(elem);
      ghost var was := chain;
      added.next := elem.next;
      added.prev := elem;
      elem.next.prev := added;
      elem.next := added;
      ghost var at: nat := k + 1;
      InnerInsert(chain, at, added, repr);
      chain, repr := InsertAt(chain, at, added), repr + {added};
      forall i: nat | i < |chain| - 1 ensures Joined(chain, i) {
        var j := if i < at then i else i - 1;
        assert old(Joined(was, j));
      }
    }

    method InsertBefore(elem: Link, added: Link)
      requires Valid() && elem in Nodes() && added !in chain
      modifies this, elem, elem.prev, added
      ensures repr == old(repr) + {added}
      ensures Valid()
      ensures Nodes() == InsertAt(old(Nodes()), IndexOf(old(Nodes()), elem), added)
    {
      ghost var k := ElementAt(elem);
      ghost var was := chain;
      added.next := elem;
      added.prev := elem.prev;
      elem.prev.next := added;
      elem.prev := added;
      InnerInsert(chain, k, added, repr);
      chain, repr := InsertAt(chain, k, added), repr + {added};
      forall i: nat | i < |chain| - 1 ensures Joined(chain, i) {
        var j := if i < k then i else i - 1;
        assert old(Joined(was, j));
      }
    }

    method Remove(elem: Link)
      requires Valid() && elem in Nodes()
      modifies this`chain, elem.next, elem.prev
      ensures Valid() && elem !in chain
      ensures Nodes() == RemoveAt(old(Nodes()), IndexOf(old(Nodes()), elem))
    {
      ghost var k := ElementAt(elem);
      ghost var was := chain;
      elem.next.prev := elem.prev;
      elem.prev.next := elem.next;
      InnerRemove(chain, k);
      chain := RemoveAt(chain, k);
      forall i: nat | i < |chain| - 1 ensures Joined(chain, i) {
        var j := if i < k then i else i + 1;
        assert old(Joined(was, j));
      }
    }

    /** Inserting next to an element and removing again leaves the list as it was. */
    method InsertAndRemove(elem: Link, added: Link, before: bool)
      requires Valid() && elem in Nodes() && added !in chain
      modifies this, repr, added
      ensures Valid() && Nodes() == old(Nodes())
    {
      InnerDistinct(chain);
      ghost var k := ElementAt(elem);
      if before {
        RemoveUndoesInsert(Nodes(), k - 1, added);
        InsertBefore(elem, added);
      } else {
        RemoveUndoesInsert(Nodes(), k, added);
        InsertAfter(elem, added);
      }
      ghost var at := ElementAt(added);
      Remove(added);
    }

    method Push(elem: Link)
      requires Valid() && elem !in chain
      modifies this, front, front.next, end, elem
      ensures repr == old(repr) + {elem}
      ensures Valid() && Nodes() == [elem] + old(Nodes())
    {
      Ends();
      EndsAre();
      ghost var was := chain;
      var head := Head();
      if head != null {
        head.prev := elem;
        elem.next := head;
      } else {
        end.prev := elem;
        elem.next := end;
      }
      elem.prev := front;
      front.next := elem;
      InnerInsert(chain, 1, elem, repr);
      chain, repr := InsertAt(chain, 1, elem), repr + {elem};
      forall i: nat | i < |chain| - 1 ensures Joined(chain, i) {
        if i >= 2 {
          assert old(Joined(was, i - 1));
        }
      }
    }

    method Enqueue(elem: Link)
      requires Valid() && elem !in chain
      modifies this, end, end.prev, elem
      ensures repr == old(repr) + {elem}
      ensures Valid() && Nodes() == old(Nodes()) + [elem]
    {
      Ends();
      ghost var was, at: nat := chain, |chain| - 1;
      elem.next := end;
      elem.prev := end.prev;
      end.prev.next := elem;
      end.prev := elem;
      InnerInsert(was, at, elem, repr);
      chain, repr := InsertAt(was, at, elem), repr + {elem};
      forall i: nat | i < |chain| - 1 ensures Joined(chain, i) {
        if i + 1 < at {
          assert old(Joined(was, i));
        }
      }
      assert Inner(chain) == Inner(was) + [elem];
    }

    /** Remove the first element; the head cell becomes null if it was the only one. */
    method Pop()
      requires Valid() && Nodes() != []
      modifies this`chain, front, chain[2]
      ensures Valid() && Nodes() == old(Nodes())[1..]
      ensures Nodes() == [] ==> front.next == null
    {
      Ends();
      EndsAre();
      ghost var was := chain;
      var head: Link := Head();
      IndexUnique(chain, 1);
      NeighboursAre(head);
      front.next := Next(head);
      InnerRemove(chain, 1);
      chain := RemoveAt(chain, 1);
      if !(front.next == null || front.next == end) {
        front.next.prev := front;
      } else {
        end.prev := front;
      }
      forall i: nat | 1 <= i < |chain| - 1 ensures Joined(chain, i) {
        assert old(Joined(was, i + 1));
      }
    }

    /** The body of the loop below. */
    method RemoveIfIn(elem: Link, drop: set<Link>)
      requires Valid() && elem in Nodes()
      modifies this`chain, elem.next, elem.prev
      ensures Valid()
      ensures Nodes() == AfterBody(old(Nodes()), elem, drop)
    {
      if elem in drop {
        Remove(elem);
      }
    }

    /** The loop below is about to visit element n of all; the one after it is fetched. */
    ghost predicate Iterating(all: seq<Link>, drop: set<Link>, n: nat, item: Link?, itemNext: Link?)
      reads this, repr
    {
      && Valid() && n <= |all| && Nodes() == Visiting(all, drop, n)
      && item == (if n < |all| then all[n] else null)
      && itemNext == (if n + 1 < |all| then all[n + 1] else null)
    }

    method FirstTwo() returns (item: Link?, itemNext: Link?)
      requires Valid()
      ensures item == (if 0 < |Nodes()| then Nodes()[0] else null)
      ensures itemNext == (if 1 < |Nodes()| then Nodes()[1] else null)
    {
      EndsAre();
      item := Head();
      if item == null {
        return item, null;
      }
      InnerDistinct(chain);
      IndexUnique(Nodes(), 0);
      NeighboursAre(item);
      return item, Next(item);
    }

    method BeginVisits(drop: set<Link>) returns (item: Link?, itemNext: Link?)
      requires Valid()
      ensures Iterating(Nodes(), drop, 0, item, itemNext)
    {
      item, itemNext := FirstTwo();
      VisitEnds<Link>(Nodes(), drop);
    }

    /** One pass: run the body, then look past the element fetched before. */
    method Visit(item: Link, itemNext: Link?, drop: set<Link>, ghost all: seq<Link>, ghost n: nat)
      returns (after: Link?)
      requires Iterating(all, drop, n, item, itemNext)
      modifies this`chain, repr
      ensures repr == old(repr) && n < |all| && item == all[n] && Iterating(all, drop, n + 1, itemNext, after)
    {
      InnerDistinct(chain);
      VisitStep<Link>(all, drop, n);
      ghost var k := ElementAt(item);
      RemoveIfIn(item, drop);
      if itemNext != null {
        InnerDistinct(chain);
        VisitStep<Link>(all, drop, n + 1);
        NeighboursAre(itemNext);
      }
      after := if itemNext != null then Next(itemNext) else null;
    }

    /** A3_LL_FOR_EACH with a body that removes the current element if it is in drop. The next
        element is fetched before the body runs, so every element is visited once, in order. */
    method ForEach(drop: set<Link>) returns (visited: seq<Link>)
      requires Valid()
      modifies this`chain, repr
      ensures Valid()
      ensures visited == old(Nodes()) && Nodes() == Keep(old(Nodes()), drop)
      ensures forall x :: x in Nodes() <==> x in old(Nodes()) && x !in drop
    {
      ghost var all, n: nat := Nodes(), 0;
      visited := [];
      var item, itemNext := BeginVisits(drop);
      while item != null
        invariant repr == old(repr) && Iterating(all, drop, n, item, itemNext) && visited == all[..n]
        decreases |all| - n
      {
        var current: Link := item;
        var after := Visit(current, itemNext, drop, all, n);
        TakeOneMore<Link>(all, n);
        visited := visited + [current];
        item, itemNext := itemNext, after;
        n := n + 1;
      }
      VisitEnds<Link>(all, drop);
      KeepMembers<Link>(all, drop);
    }

    method ForEachReverse() returns (visited: seq<Link>)
      requires Valid()
      ensures visited == Reverse(Nodes())
    {
      ghost var all := Nodes();
      visited := [];
      EndsAre();
      InnerDistinct(chain);
      ghost var n: nat := |all|;
      var item := Last();
      if item != null {
        IndexUnique(all, n - 1);
        NeighboursAre(item);
      }
      var itemPrev := if item != null then Prev(item) else null;
      while item != null
        invariant n <= |all| && visited == Reverse(all[n..])
        invariant item == if n > 0 then all[n - 1] else null
        invariant itemPrev == if n > 1 then all[n - 2] else null
        decreases n
      {
        var current: Link := item;
        visited := visited + [current];
        n := n - 1;
        ReverseStep<Link>(all, n);
        item := itemPrev;
        if itemPrev != null {
          IndexUnique(all, n - 1);
          NeighboursAre(itemPrev);
        }
        itemPrev := if itemPrev != null then Prev(itemPrev) else null;
      }
      assert all[n..] == all;
    }
  }
}
