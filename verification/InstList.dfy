/** librxvm/stack.c, and the relinking loop of librxvm/vmcode.c: doubly linked lists whose
    `previous` links run from the tail, the oldest item, to the head. Joining two lists and moving
    items over from one to another only change links, never an item's place or data. */
module InstList {

  class Item<T> {
    const data: T
    var next: Item?<T>
    var previous: Item?<T>

    /** create_item. */
    constructor (data: T)
      ensures this.data == data && next == null && previous == null
    {
      this.data := data;
      next, previous := null, null;
    }
  }

  /** Neighbours point at each other. What the outer links of the two ends hold does not matter. */
  ghost predicate Linked<T(!new)>(items: seq<Item<T>>)
    reads items
  {
    && (forall j, k :: 0 <= j < k < |items| ==> items[j] != items[k])
    && (forall k :: 0 < k < |items| ==> items[k].next == items[k - 1])
    && (forall k :: 0 <= k < |items| - 1 ==> items[k].previous == items[k + 1])
  }

  ghost predicate Disjoint<T(!new)>(a: seq<Item<T>>, b: seq<Item<T>>) {
    forall j, k :: 0 <= j < |a| && 0 <= k < |b| ==> a[j] != b[k]
  }

  /** Two lists whose ends point at each other. */
  lemma LinkedTogether<T(!new)>(a: seq<Item<T>>, b: seq<Item<T>>)
    requires Linked(a) && Linked(b) && Disjoint(a, b) && a != [] && b != []
    requires a[|a| - 1].previous == b[0] && b[0].next == a[|a| - 1]
    ensures Linked(a + b)
  {
    var c := a + b;
    forall k | 0 < k < |c| ensures c[k].next == c[k - 1] && c[k - 1].previous == c[k] {
      if k < |a| { assert c[k] == a[k] && c[k - 1] == a[k - 1]; }
      if k > |a| { assert c[k] == b[k - |a|] && c[k - 1] == b[k - 1 - |a|]; }
    }
    forall k | 0 <= k < |c| - 1 ensures c[k].previous == c[k + 1] {
      var m := k + 1;
      assert c[m - 1].previous == c[m];
    }
  }

  /** A list of these items. */
  ghost predicate Holds<T(!new)>(items: seq<Item<T>>, head: Item?<T>, tail: Item?<T>, size: int)
    reads items
  {
    && Linked(items) && size == |items|
    && (if items == [] then head == null && tail == null
        else tail == items[0] && head == items[|items| - 1])
  }

  lemma HoldsBoth<T(!new)>(a: seq<Item<T>>, head: Item?<T>, tail: Item?<T>, size: int,
                           b: seq<Item<T>>, bHead: Item?<T>, bTail: Item?<T>, bSize: int)
    requires Holds(a, head, tail, size) && Holds(b, bHead, bTail, bSize) && Disjoint(a, b)
    requires a != [] && b != [] ==> a[|a| - 1].previous == b[0] && b[0].next == a[|a| - 1]
    ensures Holds(a + b, if b == [] then head else bHead, if a == [] then bTail else tail, size + bSize)
  {
    if a == [] {
      assert a + b == b;
    } else if b == [] {
      assert a + b == a;
    } else {
      LinkedTogether(a, b);
    }
  }

  class List<T(!new)> {
    var head: Item?<T>
    var tail: Item?<T>
    var size: int
    /** The items from the tail to the head. */
    ghost var items: seq<Item<T>>

    ghost predicate Valid()
      reads this, items
    {
      Holds(items, head, tail, size)
    }

    /** create_stack. */
    constructor ()
      ensures Valid() && items == []
    {
      head, tail, size, items := null, null, 0, [];
    }

    /** stack_point_new_head. */
    method PointNewHead(item: Item<T>)
      requires Valid() && item !in items
      modifies this, item`next, items
      ensures Valid() && items == old(items) + [item]
      ensures forall i :: i in old(items) ==> i.next == old(i.next)
      ensures forall i :: i in old(items) && i != old(head) ==> i.previous == old(i.previous)
    {
      if head == null {
        tail := item;
      } else {
        head.previous := item;
        item.next := head;
      }
      head := item;
      size := size + 1;
      items := items + [item];
    }

    /** stack_point_new_tail. */
    method PointNewTail(item: Item<T>)
      requires Valid() && item !in items
      modifies this, item`previous, items
      ensures Valid() && items == [item] + old(items)
    {
      if tail == null {
        head := item;
      } else {
        tail.next := item;
        item.previous := tail;
      }
      tail := item;
      size := size + 1;
      items := [item] + items;
    }

    /** stack_add_head. */
    method AddHead(data: T) returns (item: Item<T>)
      requires Valid()
      modifies this, items
      ensures Valid() && fresh(item) && item.data == data && items == old(items) + [item]
    {
      item := new Item(data);
      PointNewHead(item);
    }

    /** stack_cat: the other list's items follow, by four assignments. */
    method Cat(other: List<T>)
      requires Valid() && other.Valid() && other != this && Disjoint(items, other.items)
      modifies this, items, other.items
      ensures Valid() && items == old(items) + other.items
      ensures other.items == old(other.items) && other.Valid()
    {
      ghost var a, b := items, other.items;
      if head == null {
        HoldsBoth(a, head, tail, size, b, other.head, other.tail, other.size);
        head := other.head;
        tail := other.tail;
        size := other.size;
      } else if other.head != null {
        head.previous := other.tail;
        other.tail.next := head;
        HoldsBoth(a, head, tail, size, b, other.head, other.tail, other.size);
        head := other.head;
        size := size + other.size;
      } else {
        HoldsBoth(a, head, tail, size, b, other.head, other.tail, other.size);
      }
      items := a + b;
    }

    /** stack_reset: the list forgets its items, which may be in another list by now. */
    method Reset()
      modifies this
      ensures Valid() && items == []
    {
      size, head, tail, items := 0, null, null, [];
    }

    /** stack_cat_from_item: the items of `from`, from place k to its head, are moved over one by
        one, each found through the link of the one just moved. */
    method CatFromItem(from: List<T>, k: nat)
      requires Valid() && from.Valid() && from != this && Disjoint(items, from.items) && k < |from.items|
      modifies this, items, from.items
      ensures Valid() && items == old(items) + from.items[k..]
      ensures from.items == old(from.items)
    {
      ghost var others := from.items;
      var i := ItemAt(from, k);
      var stop := from.head;
      ghost var j := k;
      while true
        invariant k <= j < |others| && i == others[j] && stop == others[|others| - 1]
        invariant Valid() && items == old(items) + others[k..j]
        invariant from.items == others && from.head == stop
        invariant forall n :: j <= n < |others| ==> others[n] !in items
        invariant forall n :: j <= n < |others| - 1 ==> others[n].previous == others[n + 1]
        decreases |others| - j
      {
        PointNewHead(i);
        assert others[k..j] + [i] == others[k..j + 1];
        if i == stop {
          break;
        }
        assert j < |others| - 1;
        i := i.previous;
        j := j + 1;
      }
      assert others[k..j + 1] == others[k..];
    }

    /** The item at place k, found by following the links from the tail as stage 2 does. */
    static method ItemAt(list: List<T>, k: nat) returns (item: Item<T>)
      requires list.Valid() && k < |list.items|
      ensures item == list.items[k]
    {
      item := list.tail;
      var n := 0;
      while n < k
        invariant 0 <= n <= k && item == list.items[n]
      {
        assert item.previous == list.items[n + 1];
        item := item.previous;
        n := n + 1;
      }
    }
  }
}
