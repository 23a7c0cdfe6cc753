/**
 The scheduler's doubly linked list and the operations the scheduler makes on it, in place on the
 heap. The protocol model uses the same functions on sequences (`RemoveFirst` and so on) that
 specify the operations here.
 */
module LinkedList {
  import opened Sequences

  class Elem<T> {
    var prev: Elem?<T>
    var next: Elem?<T>
    var datum: T

    constructor (datum: T)
      ensures prev == null && next == null && this.datum == datum
    {
      prev, next := null, null;
      this.datum := datum;
    }
  }

  /** What calling `fn` on one item after the other makes of the items and of the caller's state. */
  function Visited<S, T>(fn: (S, T) -> (S, T), start: S, items: seq<T>): (r: (S, seq<T>))
    ensures |r.1| == |items|
  {
    if items == [] then (start, [])
    else
      var n := |items| - 1;
      var before := Visited(fn, start, items[..n]);
      var last := fn(before.0, items[n]);
      (last.0, before.1 + [last.1])
  }

  lemma VisitedMore<S, T>(fn: (S, T) -> (S, T), start: S, items: seq<T>, k: nat)
    requires k < |items|
    ensures var before := Visited(fn, start, items[..k]);
      var last := fn(before.0, items[k]);
      && |before.1| == k
      && Visited(fn, start, items[..k + 1]) == (last.0, before.1 + [last.1])
      && (before.1 + items[k..])[k := last.1] == before.1 + [last.1] + items[k + 1..]
  {
    assert items[..k + 1][..k] == items[..k];
  }

  /** Each item is visited once, in order. */
  lemma {:induction false} VisitedEach<T>(g: T -> T, items: seq<T>)
    ensures var r := Visited((seen: seq<T>, x: T) => (seen + [x], g(x)), [], items);
      r.0 == items && forall i :: 0 <= i < |items| ==> r.1[i] == g(items[i])
  {
    if items != [] {
      VisitedEach(g, items[..|items| - 1]);
      assert items == items[..|items| - 1] + [items[|items| - 1]];
    }
  }

  lemma VisitedNone<S, T>(fn: (S, T) -> (S, T), start: S, items: seq<T>)
    ensures Visited(fn, start, items[..0]) == (start, [])
    ensures Visited(fn, start, items[..0]).1 + items[0..] == items
  {
  }

  class List<T(==)> {
    var head: Elem?<T>
    var tail: Elem?<T>
    ghost var elems: seq<Elem<T>>   // the elements, from head to tail
    ghost var data: seq<T>          // what they hold

    /** Element `i` is linked to its neighbours in both directions. */
    ghost predicate LinkAt(i: nat)
      requires i < |elems|
      reads this, elems
    {
      && elems[i].prev == (if i > 0 then elems[i - 1] else null)
      && elems[i].next == (if i + 1 < |elems| then elems[i + 1] else null)
    }

    ghost predicate Valid()
      reads this, elems
    {
      && head == ElemOrNull(0)
      && tail == (if elems == [] then null else elems[|elems| - 1])
      && Distinct(elems)
      && |data| == |elems|
      && (forall i :: 0 <= i < |elems| ==> LinkAt(i))
      && (forall i :: 0 <= i < |elems| ==> elems[i].datum == data[i])
    }

    ghost function ElemOrNull(i: nat): Elem?<T>
      reads this
    {
      if i < |elems| then elems[i] else null
    }

    constructor ()
      ensures Valid() && elems == [] && data == []
    {
      head, tail := null, null;
      elems, data := [], [];
    }

    lemma Links(i: nat)
      requires Valid() && i < |elems|
      ensures elems[i].prev == (if i > 0 then elems[i - 1] else null)
      ensures elems[i].next == (if i + 1 < |elems| then elems[i + 1] else null)
    {
      assert LinkAt(i);
    }

    method Size() returns (count: nat)
      requires Valid()
      ensures count == |data|
    {
      count := 0;
      var elt := head;
      while elt != null
        invariant count <= |elems| && elt == ElemOrNull(count)
        decreases |elems| - count
      {
        Links(count);
        elt := elt.next;
        count := count + 1;
      }
    }

    /** `list_insert_head` for an element that is in no list. */
    method InsertHead(elt: Elem<T>)
      requires Valid() && elt !in elems
      modifies this, elems, elt
      ensures Valid() && elems == [elt] + old(elems) && data == [elt.datum] + old(data) && head == elt
      ensures elt.datum == old(elt.datum)
    {
      if head == null {
        elt.prev, elt.next := null, null;
        head, tail := elt, elt;
      } else {
        Links(0);
        elt.prev := null;
        elt.next := head;
        head.prev := elt;
        head := elt;
      }
      elems, data := [elt] + elems, [elt.datum] + data;
      forall i | 0 <= i < |elems| ensures LinkAt(i) {
        assert i > 0 ==> old(LinkAt(i - 1));
      }
    }

    /** `list_insert_tail` for an element that is in no list. */
    method InsertTail(elt: Elem<T>)
      requires Valid() && elt !in elems
      modifies this, elems, elt
      ensures Valid() && elems == old(elems) + [elt] && data == old(data) + [elt.datum] && tail == elt
      ensures elt.datum == old(elt.datum)
    {
      if tail == null {
        elt.prev, elt.next := null, null;
        head, tail := elt, elt;
      } else {
        Links(|elems| - 1);
        elt.prev := tail;
        tail.next := elt;
        elt.next := null;
        tail := elt;
      }
      elems, data := elems + [elt], data + [elt.datum];
      forall i | 0 <= i < |elems| ensures LinkAt(i) {
        assert i < |elems| - 1 ==> old(LinkAt(i));
      }
    }

    /** `list_remove_elem` for an element of this list: the others keep their order. */
    method RemoveElem(elt: Elem<T>, ghost at: nat)
      requires Valid() && at < |elems| && elt == elems[at]
      modifies this, elems
      ensures Valid() && elems == old(elems[..at] + elems[at + 1..]) && data == old(data[..at] + data[at + 1..])
      ensures elt.prev == null && elt.next == null && elt.datum == old(elt.datum)
    {
      hide Distinct;
      ghost var olds := elems;
      Links(at);
      Differ(olds, at);
      if at > 0 { Differ(olds, at - 1); }
      if at + 1 < |olds| { Differ(olds, at + 1); }
      if elt.prev != null {
        elt.prev.next := elt.next;
      } else if head == elt {
        head := elt.next;
      }
      if elt.next != null {
        elt.next.prev := elt.prev;
      } else if tail == elt {
        tail := elt.prev;
      }
      elt.next, elt.prev := null, null;
      elems, data := elems[..at] + elems[at + 1..], data[..at] + data[at + 1..];
      WithoutDistinct(olds, at);
      forall i | 0 <= i < |elems| ensures LinkAt(i) {
        assert i < at ==> old(LinkAt(i));
        assert i >= at ==> old(LinkAt(i + 1));
      }
    }

    static lemma Differ(es: seq<Elem<T>>, k: nat)
      requires Distinct(es) && k < |es|
      ensures forall i :: 0 <= i < |es| && i != k ==> es[i] != es[k]
    {
    }

    static lemma WithoutDistinct(es: seq<Elem<T>>, k: nat)
      requires Distinct(es) && k < |es|
      ensures Distinct(es[..k] + es[k + 1..])
    {
    }

    /** `list_foreach`: calls `fn` on every element in order. A call may change what the element holds
        and the caller's own state, here `acc`; the links stay. */
    method Foreach<S>(fn: (S, T) -> (S, T), start: S) returns (acc: S)
      requires Valid()
      modifies this`data, elems
      ensures Valid() && elems == old(elems)
      ensures acc == Visited(fn, start, old(data)).0 && data == Visited(fn, start, old(data)).1
    {
      hide Valid, Distinct, Visited, LinkAt;
      ghost var was := data;
      VisitedNone(fn, start, was);
      Begins();
      acc := start;
      var elt := head;
      ghost var k: nat := 0;
      while elt != null
        invariant Valid() && elems == old(elems) && |was| == |elems| && k <= |elems| && elt == ElemOrNull(k)
        invariant acc == Visited(fn, start, was[..k]).0
        invariant data == Visited(fn, start, was[..k]).1 + was[k..]
        decreases |elems| - k
      {
        VisitedMore(fn, start, was, k);
        acc := Visit(fn, acc, elt, k);
        elt, k := elt.next, k + 1;
      }
      assert was[..k] == was && was[k..] == [];
    }

    lemma Begins()
      requires Valid()
      ensures head == ElemOrNull(0) && |data| == |elems|
    {
    }

    /** One call: `datum` and the caller's state change as `fn` says. */
    method Visit<S>(fn: (S, T) -> (S, T), acc: S, elt: Elem<T>, ghost at: nat) returns (acc': S)
      requires Valid() && at < |elems| == |data| && elt == elems[at]
      modifies this`data, elt`datum
      ensures Valid() && elt.next == ElemOrNull(at + 1)
      ensures acc' == fn(acc, old(data)[at]).0 && data == old(data)[at := fn(acc, old(data)[at]).1]
    {
      hide Distinct, LinkAt;
      Differ(elems, at);
      var out := fn(acc, elt.datum);
      acc', elt.datum := out.0, out.1;
      data := data[at := out.1];
      LinksKept();
      Links(at);
    }

    /** Changes to what the elements hold leave the links alone. */
    twostate lemma LinksKept()
      requires elems == old(elems) && forall i :: 0 <= i < |elems| ==> old(LinkAt(i))
      requires forall i :: 0 <= i < |elems| ==> elems[i].prev == old(elems[i].prev) && elems[i].next == old(elems[i].next)
      ensures forall i :: 0 <= i < |elems| ==> LinkAt(i)
    {
    }

    // ---- the scheduler's operations ---------------------------------------------------------

    method InsertItemTail(datum: T)
      requires Valid()
      modifies this, elems
      ensures Valid() && data == old(data) + [datum]
      ensures forall e :: e in elems ==> e in old(elems) || fresh(e)
    {
      var elt := new Elem(datum);
      InsertTail(elt);
    }

    method InsertItemHead(datum: T)
      requires Valid()
      modifies this, elems
      ensures Valid() && data == [datum] + old(data)
      ensures forall e :: e in elems ==> e in old(elems) || fresh(e)
    {
      var elt := new Elem(datum);
      InsertHead(elt);
    }

    /** The first element that holds `datum`. */
    method FindInList(datum: T) returns (elt: Elem?<T>, ghost at: nat)
      requires Valid()
      ensures elt == ElemOrNull(IndexOf(data, datum)) && at == IndexOf(data, datum)
    {
      elt, at := head, 0;
      while elt != null
        invariant at <= |elems| && elt == ElemOrNull(at)
        invariant datum !in data[..at]
        decreases |elems| - at
      {
        Links(at);
        if elt.datum == datum { break; }
        elt, at := elt.next, at + 1;
      }
      if at < |data| { IndexOfIs(data, datum, at); } else { assert data[..at] == data; }
    }

    method EltInList(datum: T) returns (found: bool)
      requires Valid()
      ensures found <==> datum in data
    {
      var elt;
      ghost var at;
      elt, at := FindInList(datum);
      found := elt != null;
    }

    /** Takes out the first element that holds `datum`, if there is one. */
    method RemoveItem(datum: T)
      requires Valid()
      modifies this, elems
      ensures Valid() && data == RemoveFirst(old(data), datum)
      ensures forall e :: e in elems ==> e in old(elems)
    {
      var elt;
      ghost var at;
      elt, at := FindInList(datum);
      hide IndexOf, Distinct;
      if elt != null {
        RemoveElem(elt, at);
      }
    }
  }

  /** `next_worker` when nothing else moves: the first queued worker that is not running. */
  method NextWorker<T(==)>(queue: List<T>, running: List<T>) returns (next: Option<T>)
    requires queue.Valid() && running.Valid()
    ensures next == None <==> forall x :: x in queue.data ==> x in running.data
    ensures next.Some? ==> next.value in queue.data && next.value !in running.data
                           && forall x :: x in queue.data[..IndexOf(queue.data, next.value)] ==> x in running.data
  {
    var elt := queue.head;
    ghost var k: nat := 0;
    while elt != null
      invariant k <= |queue.elems| && elt == queue.ElemOrNull(k)
      invariant forall x :: x in queue.data[..k] ==> x in running.data
      decreases |queue.elems| - k
    {
      queue.Links(k);
      var busy := running.EltInList(elt.datum);
      if !busy {
        IndexOfIs(queue.data, elt.datum, k);
        return Some(elt.datum);
      }
      assert queue.data[..k + 1] == queue.data[..k] + [queue.data[k]];
      elt, k := elt.next, k + 1;
    }
    assert queue.data[..k] == queue.data;
    return None;
  }
}
