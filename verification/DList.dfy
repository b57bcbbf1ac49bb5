/**
 The object header and the intrusive circular doubly linked lists of
 src/sgc_dlist.c, over nodes whose links are rewired in place.
 */
module DList {
  import opened Seqs

  type Byte = b: nat | b < 256

  /** The header `sgc_mem_t` together with the payload that follows it. */
  class Mem {
    const addr: int   // where the header starts
    const size: nat   // the size class; written once, when the cell is carved
    var next: Mem?
    var prev: Mem?
    var color: nat
    var flags: nat
    var dummy: nat
    var typ: int
    var counter: int
    var bytesize: int
    var data: seq<Byte>

    constructor (addr: int, size: nat, data: seq<Byte>)
      ensures this.addr == addr && this.size == size && this.data == data
    {
      this.addr, this.size, this.data := addr, size, data;
    }
  }

  function NextIndex<T>(s: seq<T>, i: nat): (j: nat)
    requires i < |s|
    ensures j < |s|
  {
    if i + 1 == |s| then 0 else i + 1
  }

  /** Within `s`, neighbours are linked to each other in both directions. */
  ghost predicate Linked(s: seq<Mem>)
    reads s`next, s`prev
  {
    && (forall i {:trigger s[i].next} :: 0 <= i < |s| - 1 ==> s[i].next == s[i + 1])
    && (forall i {:trigger s[i].prev} :: 0 < i < |s| ==> s[i].prev == s[i - 1])
  }

  /** The links of the nodes of `s` form one ring, in the order of `s`. */
  ghost predicate Ring(s: seq<Mem>)
    reads s`next, s`prev
  {
    NoDup(s) && Linked(s) && (s != [] ==> s[|s| - 1].next == s[0] && s[0].prev == s[|s| - 1])
  }

  lemma LinkedConcat(s: seq<Mem>, t: seq<Mem>)
    requires Linked(s) && Linked(t)
    requires s != [] && t != [] ==> s[|s| - 1].next == t[0] && t[0].prev == s[|s| - 1]
    ensures Linked(s + t)
  {
  }

  /** `head` points to the ring `s`; NULL stands for the empty list. */
  ghost predicate IsList(head: Mem?, s: seq<Mem>)
    reads s`next, s`prev
  {
    Ring(s) && head == if s == [] then null else s[0]
  }

  /** Appends `node` to the ring that `list` points to.
      A list that holds nothing but `node` is left as it was. */
  method Append(list: Mem?, node: Mem, ghost s: seq<Mem>) returns (r: Mem?)
    requires IsList(list, s)
    requires node !in s || s == [node]
    modifies Elements(s)`next, Elements(s)`prev, node`next, node`prev
    ensures IsList(r, if s == [node] then s else s + [node])
  {
    if list == null {
      node.next := node;
      node.prev := node;
      return node;
    }
    node.next := list;
    node.prev := list.prev;
    list.prev.next := node;
    list.prev := node;
    r := list;
    if s != [node] {
      assert Linked(s) && Linked([node]);
      LinkedConcat(s, [node]);
    }
  }

  /** Unlinks `list`, the k-th node of the ring `s`; the result is its successor,
      or NULL for a ring of one node, whose links are then left alone. */
  method RemoveNode(list: Mem?, ghost s: seq<Mem>, ghost k: nat) returns (next: Mem?)
    requires Ring(s)
    requires list != null ==> k < |s| && list == s[k]
    modifies Elements(s)`next, Elements(s)`prev
    ensures list == null || |s| == 1 ==> next == null && forall m :: m in s ==> m.next == old(m.next) && m.prev == old(m.prev)
    ensures list != null && |s| > 1 ==> next == s[NextIndex(s, k)] && list.next == null == list.prev
    ensures list != null ==> Ring(Delete(s, k))
  {
    next := null;
    if list == null {
      return null;
    }
    if list.next == list {
      return null;
    }
    ghost var front, back := s[..k], s[k + 1..];
    assert Linked(front) && Linked(back);
    next := list.next;
    list.prev.next := list.next;
    list.next.prev := list.prev;
    list.next := null;
    list.prev := null;
    assert Linked(front) && Linked(back);
    LinkedConcat(front, back);
  }

  /** Unlinks the node that heads a list; the list then starts at its successor. */
  method RemoveHead(head: Mem, ghost s: seq<Mem>) returns (r: Mem?)
    requires IsList(head, s)
    modifies Elements(s)`next, Elements(s)`prev
    ensures IsList(r, Without(s, head))
  {
    hide Linked;
    WithoutIsDelete(s, 0);
    r := RemoveNode(head, s, 0);
  }

  /** Unlinks a node that does not head its list; a list of one node is left alone. */
  method RemoveInner(ghost head: Mem?, node: Mem, ghost s: seq<Mem>)
    requires IsList(head, s) && node in s && (node == head ==> s == [node])
    modifies Elements(s)`next, Elements(s)`prev
    ensures IsList(head, if s == [node] then s else Without(s, node))
  {
    ghost var k :| 0 <= k < |s| && s[k] == node;
    WithoutIsDelete(s, k);
    var _ := RemoveNode(node, s, k);
  }

  /** Unlinks a node of one of two lists.  It does not head its list, except that it may
      be the only node of the second one, which is then left alone. */
  method RemoveFromEither(node: Mem, ghost a: Mem?, ghost s: seq<Mem>, ghost b: Mem?, ghost t: seq<Mem>)
    requires IsList(a, s) && IsList(b, t) && Disjoint(s, t) && (node in s || node in t)
    requires node != a && (node == b ==> t == [node])
    modifies Elements(s + t)`next, Elements(s + t)`prev
    ensures IsList(a, Without(s, node))
    ensures IsList(b, if t == [node] then t else Without(t, node))
  {
    hide Linked;
    ghost var inFirst := node in s;
    if inFirst { WithoutAbsent(t, node); } else { WithoutAbsent(s, node); }
    RemoveInner(if inFirst then a else b, node, if inFirst then s else t);
  }

  /** Splices two rings into one. */
  method Join(list1: Mem?, list2: Mem?, ghost s: seq<Mem>, ghost t: seq<Mem>) returns (r: Mem?)
    requires IsList(list1, s) && IsList(list2, t) && Disjoint(s, t)
    modifies Elements(s)`next, Elements(s)`prev, Elements(t)`next, Elements(t)`prev
    ensures IsList(r, s + t)
  {
    NoDupConcat(s, t);
    if list2 == null {
      assert s + t == s;
      return list1;
    }
    if list1 == null {
      assert s + t == t;
      return list2;
    }
    var list2Prev := list2.prev;
    list2.prev := list1.prev;
    list2.prev.next := list2;
    list1.prev := list2Prev;
    list2Prev.next := list1;
    assert Linked(s) && Linked(t);
    LinkedConcat(s, t);
    r := list1;
  }

  /** A ring has no distinguished first node: every rotation of it is a ring too. */
  lemma Rotation(s: seq<Mem>, k: nat)
    requires Ring(s) && k <= |s|
    ensures Ring(s[k..] + s[..k])
  {
    assert Linked(s[k..]) && Linked(s[..k]);
    LinkedConcat(s[k..], s[..k]);
  }
}
