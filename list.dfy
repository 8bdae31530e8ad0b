/** The intrusive singly linked list of avsystem/commons/list.h. A list is a pointer to
    its first element (`NULL` is the empty list) and every element carries
    the pointer to the next one. The macros take "a pointer to a variable
    holding a pointer to an element": the list variable itself or the next
    field of some element, here a `Slot`. */
module AvsList {
  import opened Common

  /** A list element: the user data and the hidden next pointer in front
      of it. The list operations never change the data. */
  class Node<T> {
    const value: T
    var next: Node?<T>

    /** `AVS_LIST_NEW_ELEMENT`: the allocator hands out an element whose
        next pointer is `NULL` (`calloc` zero-fills it). */
    constructor (v: T)
      ensures value == v && next == null
    {
      value := v;
      next := null;
    }
  }

  /** A variable that holds an element pointer: the list variable, or the
      next field of an element. */
  datatype Slot<T> = HeadSlot | NextSlot(node: Node<T>)

  function SlotObjects<T>(s: Slot<T>): set<object>
  {
    if s.NextSlot? then {s.node} else {}
  }

  /** The `i`-th element of `ns`, or `NULL` past the end. */
  function At<T>(ns: seq<Node<T>>, i: nat): Node?<T>
  {
    if i < |ns| then ns[i] else null
  }

  ghost predicate Distinct<T>(ns: seq<Node<T>>)
  {
    forall i, j :: 0 <= i < j < |ns| ==> ns[i] != ns[j]
  }

  /** `e` starts a `NULL`-terminated chain through exactly the elements of `ns`. */
  ghost predicate IsChain<T>(e: Node?<T>, ns: seq<Node<T>>)
    reads ns
  {
    && Distinct(ns)
    && e == At(ns, 0)
    && forall i {:trigger ns[i].next} :: 0 <= i < |ns| ==> ns[i].next == At(ns, i + 1)
  }

  /** Inserting `e` at position `k` of a chain: only the link into
      position `k` (the list variable `h` or the next field of element
      `k - 1`) and `e`'s own link change. */
  lemma ChainAfterInsert<T>(ns: seq<Node<T>>, k: nat, e: Node<T>, h: Node?<T>)
    requires Distinct(ns) && e !in ns && k <= |ns|
    requires forall i {:trigger ns[i].next} :: 0 <= i < |ns| && i != k - 1 ==> ns[i].next == At(ns, i + 1)
    requires k > 0 ==> ns[k - 1].next == e
    requires e.next == At(ns, k)
    requires h == if k == 0 then e else ns[0]
    ensures IsChain(h, ns[..k] + [e] + ns[k..])
  {
    var r := ns[..k] + [e] + ns[k..];
    forall i | 0 <= i < |r| ensures r[i].next == At(r, i + 1) {
      if i < k - 1 {
        assert r[i] == ns[i] && r[i + 1] == ns[i + 1];
      } else if i == k - 1 {
        assert r[i] == ns[k - 1] && r[i + 1] == e;
      } else if i == k {
        assert At(r, i + 1) == At(ns, k);
      } else {
        assert r[i] == ns[i - 1] && At(r, i + 1) == At(ns, i);
      }
    }
  }

  /** Unlinking element `k` of a chain: the link into position `k` now
      skips it. */
  lemma ChainAfterRemove<T>(ns: seq<Node<T>>, k: nat, h: Node?<T>)
    requires Distinct(ns) && k < |ns|
    requires forall i {:trigger ns[i].next} :: 0 <= i < |ns| && i != k - 1 && i != k ==> ns[i].next == At(ns, i + 1)
    requires k > 0 ==> ns[k - 1].next == At(ns, k + 1)
    requires h == if k == 0 then At(ns, 1) else ns[0]
    ensures IsChain(h, ns[..k] + ns[k + 1..])
  {
    var r := ns[..k] + ns[k + 1..];
    forall i | 0 <= i < |r| ensures r[i].next == At(r, i + 1) {
      if i < k - 1 {
        assert r[i] == ns[i] && r[i + 1] == ns[i + 1];
      } else if i == k - 1 {
        assert r[i] == ns[k - 1] && At(r, i + 1) == At(ns, k + 1);
      } else {
        assert r[i] == ns[i + 1] && At(r, i + 1) == At(ns, i + 2);
      }
    }
  }

  /** Linking the chain `tail` after the last element of the chain `ns`. */
  lemma ChainAfterAppend<T>(ns: seq<Node<T>>, tail: seq<Node<T>>, h: Node?<T>)
    requires Distinct(ns) && Distinct(tail) && forall n :: n in tail ==> n !in ns
    requires forall i {:trigger ns[i].next} :: 0 <= i < |ns| - 1 ==> ns[i].next == At(ns, i + 1)
    requires |ns| > 0 ==> ns[|ns| - 1].next == At(tail, 0)
    requires forall i {:trigger tail[i].next} :: 0 <= i < |tail| ==> tail[i].next == At(tail, i + 1)
    requires h == if ns == [] then At(tail, 0) else ns[0]
    ensures IsChain(h, ns + tail)
  {
    var r := ns + tail;
    forall i, j | 0 <= i < j < |r| ensures r[i] != r[j] {
      if j >= |ns| && i < |ns| {
        assert r[j] in tail;
      }
    }
    forall i | 0 <= i < |r| ensures r[i].next == At(r, i + 1) {
      if i < |ns| - 1 {
        assert r[i + 1] == ns[i + 1];
      } else if i == |ns| - 1 {
        assert At(r, i + 1) == At(tail, 0);
      } else {
        assert r[i] == tail[i - |ns|] && At(r, i + 1) == At(tail, i - |ns| + 1);
      }
    }
  }

  /** A comparator in the sense of `avs_list_comparator_func_t` is
      negative, zero or positive as `a` is below, equal to or above `b`.
      Merging needs only that it orders every pair of elements of `all` at
      least one way (never calls each of two elements above the other), and
      a global order needs its non-positive results on them to be
      transitive. */
  ghost predicate OrdersEveryPair<T>(all: seq<Node<T>>, cmp: (T, T) -> int)
  {
    forall m, n :: m in all && n in all && cmp(m.value, n.value) > 0 ==> cmp(n.value, m.value) <= 0
  }

  ghost predicate Transitive<T>(all: seq<Node<T>>, cmp: (T, T) -> int)
  {
    forall m, n, o :: m in all && n in all && o in all && cmp(m.value, n.value) <= 0 && cmp(n.value, o.value) <= 0
                      ==> cmp(m.value, o.value) <= 0
  }

  /** Each element's data is not above its successor's. */
  ghost predicate SortedBy<T>(ns: seq<Node<T>>, cmp: (T, T) -> int)
  {
    forall i :: 0 <= i < |ns| - 1 ==> cmp(ns[i].value, ns[i + 1].value) <= 0
  }

  /** Merging two element sequences by their data, taking from the left
      one while its head is not above the right one's. */
  function Merge<T>(a: seq<Node<T>>, b: seq<Node<T>>, cmp: (T, T) -> int): (r: seq<Node<T>>)
    ensures multiset(r) == multiset(a) + multiset(b)
    ensures r != [] ==> (a != [] && r[0] == a[0]) || (b != [] && r[0] == b[0])
    decreases |a| + |b|
  {
    if a == [] then b
    else if b == [] then a
    else if cmp(a[0].value, b[0].value) <= 0 then
      assert a == [a[0]] + a[1..];
      [a[0]] + Merge(a[1..], b, cmp)
    else
      assert b == [b[0]] + b[1..];
      [b[0]] + Merge(a, b[1..], cmp)
  }

  /** The recursive merge sort of `avs_list_sort__`. */
  function MergeSort<T>(ns: seq<Node<T>>, cmp: (T, T) -> int): (r: seq<Node<T>>)
    ensures multiset(r) == multiset(ns)
    decreases |ns|
  {
    if |ns| <= 1 then ns
    else
      var m := |ns| / 2;
      assert ns == ns[..m] + ns[m..];
      Merge(MergeSort(ns[..m], cmp), MergeSort(ns[m..], cmp), cmp)
  }

  /** Merging two sorted sequences gives a sorted one. */
  lemma {:induction false} MergeSorted<T>(a: seq<Node<T>>, b: seq<Node<T>>, cmp: (T, T) -> int, all: seq<Node<T>>)
    requires OrdersEveryPair(all, cmp) && Within(a, all) && Within(b, all)
    requires SortedBy(a, cmp) && SortedBy(b, cmp)
    ensures SortedBy(Merge(a, b, cmp), cmp)
    decreases |a| + |b|, 1
  {
    if a != [] && b != [] {
      if cmp(a[0].value, b[0].value) <= 0 {
        MergeSortedLeft(a, b, cmp, all);
      } else {
        MergeSortedRight(a, b, cmp, all);
      }
    }
  }

  /** The step of `MergeSorted` that takes the left head. */
  lemma {:induction false} MergeSortedLeft<T>(a: seq<Node<T>>, b: seq<Node<T>>, cmp: (T, T) -> int, all: seq<Node<T>>)
    requires OrdersEveryPair(all, cmp) && Within(a, all) && Within(b, all)
    requires SortedBy(a, cmp) && SortedBy(b, cmp)
    requires a != [] && b != [] && cmp(a[0].value, b[0].value) <= 0
    ensures SortedBy(Merge(a, b, cmp), cmp)
    decreases |a| + |b|, 0
  {
    var r := Merge(a[1..], b, cmp);
    WithinTail(a, all);
    MergeSorted(a[1..], b, cmp, all);
    if r != [] && r[0] != b[0] {
      assert r[0] == a[1];
    }
    SortedCons(a[0], r, cmp);
  }

  /** The step of `MergeSorted` that takes the right head: the left head is
      then not below it, since the comparator does not order them both ways. */
  lemma {:induction false} MergeSortedRight<T>(a: seq<Node<T>>, b: seq<Node<T>>, cmp: (T, T) -> int, all: seq<Node<T>>)
    requires OrdersEveryPair(all, cmp) && Within(a, all) && Within(b, all)
    requires SortedBy(a, cmp) && SortedBy(b, cmp)
    requires a != [] && b != [] && cmp(a[0].value, b[0].value) > 0
    ensures SortedBy(Merge(a, b, cmp), cmp)
    decreases |a| + |b|, 0
  {
    var r := Merge(a, b[1..], cmp);
    WithinTail(b, all);
    MergeSorted(a, b[1..], cmp, all);
    assert a[0] in all && b[0] in all;
    if r != [] && r[0] != a[0] {
      assert r[0] == b[1];
    }
    SortedCons(b[0], r, cmp);
  }

  ghost predicate Within<T>(ns: seq<Node<T>>, all: seq<Node<T>>)
  {
    forall n :: n in ns ==> n in all
  }

  lemma WithinTail<T>(ns: seq<Node<T>>, all: seq<Node<T>>)
    requires Within(ns, all) && ns != []
    ensures Within(ns[1..], all)
  {
    forall n | n in ns[1..] ensures n in all {
      assert n in ns;
    }
  }

  lemma SortedCons<T>(x: Node<T>, r: seq<Node<T>>, cmp: (T, T) -> int)
    requires SortedBy(r, cmp) && (r != [] ==> cmp(x.value, r[0].value) <= 0)
    ensures SortedBy([x] + r, cmp)
  {
    var xr := [x] + r;
    forall i | 0 <= i < |xr| - 1 ensures cmp(xr[i].value, xr[i + 1].value) <= 0 {
      if i > 0 {
        assert xr[i] == r[i - 1] && xr[i + 1] == r[i];
      }
    }
  }

  /** With a comparator that never orders two values both ways, merge sort
      leaves every element not above its successor. */
  lemma {:induction false} MergeSortSorted<T>(ns: seq<Node<T>>, cmp: (T, T) -> int, all: seq<Node<T>>)
    requires OrdersEveryPair(all, cmp) && Within(ns, all)
    ensures SortedBy(MergeSort(ns, cmp), cmp)
    decreases |ns|
  {
    if |ns| > 1 {
      var m := |ns| / 2;
      var l, r := MergeSort(ns[..m], cmp), MergeSort(ns[m..], cmp);
      MergeSortSorted(ns[..m], cmp, all);
      MergeSortSorted(ns[m..], cmp, all);
      assert Within(l, all) by {
        forall n | n in l ensures n in all {
          assert n in multiset(l);
        }
      }
      assert Within(r, all) by {
        forall n | n in r ensures n in all {
          assert n in multiset(r);
        }
      }
      MergeSorted(l, r, cmp, all);
    }
  }

  /** With a transitive comparator, a sequence sorted neighbour by
      neighbour is ascending between any two positions. */
  lemma {:induction false} SortedByAll<T>(ns: seq<Node<T>>, cmp: (T, T) -> int, i: nat, j: nat)
    requires Transitive(ns, cmp) && SortedBy(ns, cmp) && i < j < |ns|
    ensures cmp(ns[i].value, ns[j].value) <= 0
    decreases j - i
  {
    if i + 1 < j {
      SortedByAll(ns, cmp, i + 1, j);
      assert ns[i] in ns && ns[i + 1] in ns && ns[j] in ns;
    }
  }

  /** Each element of a sequence without repetitions occurs in it once. */
  lemma {:induction false} DistinctOnce<T>(ns: seq<Node<T>>, x: Node<T>)
    requires Distinct(ns)
    ensures multiset(ns)[x] <= 1
  {
    if ns != [] {
      assert ns == [ns[0]] + ns[1..];
      DistinctOnce(ns[1..], x);
      assert ns[0] !in ns[1..] by {
        forall j | 0 <= j < |ns[1..]| ensures ns[1..][j] != ns[0] {
          assert ns[1..][j] == ns[j + 1];
        }
      }
    }
  }

  /** Rearranging a sequence without repetitions creates none. */
  lemma DistinctPermutation<T>(ns: seq<Node<T>>, ms: seq<Node<T>>)
    requires Distinct(ns) && multiset(ms) == multiset(ns)
    ensures Distinct(ms)
  {
    forall i, j | 0 <= i < j < |ms| ensures ms[i] != ms[j] {
      if ms[i] == ms[j] {
        assert ms == ms[..j] + ms[j..];
        assert ms[i] in ms[..j] && ms[j] in ms[j..];
        assert multiset(ms)[ms[i]] >= 2;
        DistinctOnce(ns, ms[i]);
        assert false;
      }
    }
  }

  /** The elements among the first `n` of `ns` that survive deleting those
      whose data satisfies `del`, in their original order. */
  ghost function Kept<T>(ns: seq<Node<T>>, n: nat, del: T -> bool): seq<Node<T>>
    requires n <= |ns|
  {
    if n == 0 then []
    else Kept(ns, n - 1, del) + (if del(ns[n - 1].value) then [] else [ns[n - 1]])
  }

  /** The survivors are elements whose data does not satisfy `del`, and
      every such element among the first `n` survives. */
  lemma {:induction false} KeptMeaning<T>(ns: seq<Node<T>>, n: nat, del: T -> bool)
    requires n <= |ns|
    ensures forall x :: x in Kept(ns, n, del) ==> x in ns && !del(x.value)
    ensures forall j :: 0 <= j < n && !del(ns[j].value) ==> ns[j] in Kept(ns, n, del)
  {
    if n > 0 {
      KeptMeaning(ns, n - 1, del);
    }
  }

  lemma PrefixStep<T>(ns: seq<Node<T>>, i: nat)
    requires i < |ns|
    ensures ns[..i + 1] == ns[..i] + [ns[i]]
  {
  }

  /** One turn of the deletable loop, on sequences: with `kept` the
      survivors among the first `i` elements, the current list is
      `kept + ns[i..]`, so element `ns[i]` sits right after the survivors,
      which are elements of `ns`. Deleting it or stepping over it leaves the
      survivors among the first `i + 1`. */
  lemma DeleteWhereStep<T>(ns: seq<Node<T>>, i: nat, kept: seq<Node<T>>, del: T -> bool)
    requires i < |ns| && kept == Kept(ns, i, del)
    ensures (kept + ns[i..])[|kept|] == ns[i]
    ensures forall j :: 0 <= j < |kept| ==> kept[j] in ns
    ensures var t := kept + ns[i..]; t[..|kept|] + t[|kept| + 1..] == kept + ns[i + 1..]
    ensures kept + ns[i..] == (kept + [ns[i]]) + ns[i + 1..]
  {
    var t := kept + ns[i..];
    KeptMeaning(ns, i, del);
    forall j | 0 <= j < |kept| ensures kept[j] in ns {
      assert kept[j] in kept;
    }
    assert ns[i..] == [ns[i]] + ns[i + 1..];
    assert t[..|kept|] == kept && t[|kept| + 1..] == ns[i + 1..];
  }

  /** The deletable loop stops when the slot after the survivors is empty:
      then every element has been looked at. */
  lemma DeleteWhereDone<T>(ns: seq<Node<T>>, i: nat, kept: seq<Node<T>>, del: T -> bool)
    requires i <= |ns| && kept == Kept(ns, i, del) && At(kept + ns[i..], |kept|) == null
    ensures i == |ns| && kept + ns[i..] == Kept(ns, |ns|, del) && ns[..i] == ns
  {
    assert ns[i..] == [];
  }

  /** A list variable and the elements reachable from it. */
  class List<T> {
    var head: Node?<T>
    ghost var nodes: seq<Node<T>>

    ghost predicate Valid()
      reads this, nodes
    {
      IsChain(head, nodes)
    }

    /** The empty list, `NULL`. */
    constructor ()
      ensures Valid() && nodes == []
    {
      head := null;
      nodes := [];
    }

    /** The first slot is the list variable, slot `k` the next field of
        element `k - 1`. */
    ghost function SlotAt(k: nat): Slot<T>
      reads this
      requires k <= |nodes|
    {
      if k == 0 then HeadSlot else NextSlot(nodes[k - 1])
    }

    /** `*slot`. */
    function Deref(s: Slot<T>): Node?<T>
      reads this, SlotObjects(s)
    {
      match s
      case HeadSlot => head
      case NextSlot(n) => n.next
    }

    /** Slot `k` holds element `k`, or `NULL` after the last element. */
    lemma DerefAt(k: nat)
      requires Valid() && k <= |nodes|
      ensures Deref(SlotAt(k)) == At(nodes, k)
    {
    }

    /** `*slot = e`. */
    method Store(s: Slot<T>, e: Node?<T>)
      modifies this, SlotObjects(s)
      ensures Deref(s) == e && nodes == old(nodes)
      ensures s.NextSlot? ==> head == old(head)
    {
      match s
      case HeadSlot => head := e;
      case NextSlot(n) => n.next := e;
    }

    /** `AVS_LIST_INSERT(slot, e)`: `e` takes the place of the element held
        by slot `k`, which becomes its successor; `e`'s old next pointer is
        discarded. The list grows by `e` at position `k` and nothing else
        moves. */
    method Insert(s: Slot<T>, ghost k: nat, e: Node<T>)
      requires Valid() && k <= |nodes| && s == SlotAt(k) && e !in nodes
      modifies this, e, SlotObjects(s)
      ensures Valid() && nodes == old(nodes)[..k] + [e] + old(nodes)[k..]
      ensures Deref(s) == e && e.next == old(Deref(s))
    {
      ghost var ns := nodes;
      DerefAt(k);
      e.next := Deref(s);
      Store(s, e);
      nodes := ns[..k] + [e] + ns[k..];
      forall i | 0 <= i < |ns| && i != k - 1 ensures ns[i].next == At(ns, i + 1) {
        assert ns[i] != e && (k > 0 ==> ns[i] != ns[k - 1]);
      }
      ChainAfterInsert(ns, k, e, head);
    }

    /** `AVS_LIST_INSERT_NEW(type, slot)`: allocates a zero-filled element
        (here holding `zero`) and inserts it at slot `k`; when the allocation
        fails (`allocOk` false) the list is left as it was. */
    method InsertNew(s: Slot<T>, ghost k: nat, zero: T, allocOk: bool)
      requires Valid() && k <= |nodes| && s == SlotAt(k)
      modifies this, SlotObjects(s)
      ensures Valid()
      ensures !allocOk ==> nodes == old(nodes) && head == old(head)
      ensures allocOk ==> && |nodes| == |old(nodes)| + 1
                          && nodes == old(nodes)[..k] + [nodes[k]] + old(nodes)[k..]
                          && fresh(nodes[k]) && nodes[k].value == zero
    {
      if allocOk {
        var e := new Node(zero);
        Insert(s, k, e);
      }
    }

    /** `AVS_LIST_DETACH(slot)`: unlinks element `k` and returns it as a
        one-element list (next pointer `NULL`); the others keep their order. */
    method Detach(s: Slot<T>, ghost k: nat) returns (e: Node<T>)
      requires Valid() && k < |nodes| && s == SlotAt(k)
      modifies this, SlotObjects(s), nodes[k]
      ensures Valid() && nodes == old(nodes)[..k] + old(nodes)[k + 1..]
      ensures e == old(nodes[k]) && e.next == null
      ensures Deref(s) == At(old(nodes), k + 1)
    {
      ghost var ns := nodes;
      DerefAt(k);
      e := Deref(s);
      Store(s, e.next);
      e.next := null;
      nodes := ns[..k] + ns[k + 1..];
      forall i | 0 <= i < |ns| && i != k - 1 && i != k ensures ns[i].next == At(ns, i + 1) {
        assert ns[i] != ns[k] && (k > 0 ==> ns[i] != ns[k - 1]);
      }
      ChainAfterRemove(ns, k, head);
    }

    /** `AVS_LIST_DELETE(slot)`: detaches element `k` and releases it. */
    method Delete(s: Slot<T>, ghost k: nat)
      requires Valid() && k < |nodes| && s == SlotAt(k)
      modifies this, SlotObjects(s), nodes[k]
      ensures Valid() && nodes == old(nodes)[..k] + old(nodes)[k + 1..]
      ensures Deref(s) == At(old(nodes), k + 1)
    {
      var _ := Detach(s, k);
    }

    /** `AVS_LIST_CLEAR(&list)`: deletes the first element until the list is
        empty. */
    method Clear()
      requires Valid()
      modifies this, nodes
      ensures Valid() && nodes == [] && head == null
    {
      while head != null
        invariant Valid()
        invariant |nodes| <= |old(nodes)| && nodes == old(nodes)[|old(nodes)| - |nodes|..]
        decreases |nodes|
      {
        DerefAt(0);
        Delete(HeadSlot, 0);
      }
    }

    /** `AVS_LIST_FOREACH_PTR(slot, &list);` with an empty body: the slot
        after the last element, which holds `NULL`. */
    method EndSlot() returns (s: Slot<T>)
      requires Valid()
      ensures s == SlotAt(|nodes|) && Deref(s) == null
    {
      s := HeadSlot;
      ghost var k := 0;
      while Deref(s) != null
        invariant k <= |nodes| && s == SlotAt(k)
        decreases |nodes| - k
      {
        DerefAt(k);
        s := NextSlot(Deref(s));
        k := k + 1;
      }
      DerefAt(k);
    }

    /** `AVS_LIST_APPEND(&list, e)`: walks to the slot after the last
        element and stores `e` there, so `e` and every element after it
        follow the old list (two lists are concatenated). */
    method Append(e: Node?<T>, ghost tail: seq<Node<T>>)
      requires Valid() && IsChain(e, tail)
      requires forall n :: n in tail ==> n !in nodes
      modifies this, nodes
      ensures Valid() && nodes == old(nodes) + tail
    {
      ghost var ns := nodes;
      var s := EndSlot();
      Store(s, e);
      nodes := ns + tail;
      forall i | 0 <= i < |ns| - 1 ensures ns[i].next == At(ns, i + 1) {
        assert ns[i] != ns[|ns| - 1];
      }
      forall i | 0 <= i < |tail| ensures tail[i].next == At(tail, i + 1) {
        assert tail[i] !in ns;
      }
      ChainAfterAppend(ns, tail, head);
    }

    /** `AVS_LIST_NTH(list, n)`: element `n`, or `NULL` when the list is
        shorter. */
    method Nth(n: nat) returns (r: Node?<T>)
      requires Valid()
      ensures r == At(nodes, n)
      ensures r == null <==> n >= |nodes|
    {
      r := head;
      var i := 0;
      while r != null && i < n
        invariant i <= n && i <= |nodes| && r == At(nodes, i)
        decreases n - i
      {
        r := r.next;
        i := i + 1;
      }
    }

    /** `AVS_LIST_NTH_PTR(&list, n)`: the slot holding element `n`, or
        `NULL` (here `None`) when there is no element `n`. */
    method NthPtr(n: nat) returns (r: Option<Slot<T>>)
      requires Valid()
      ensures n < |nodes| ==> r == Some(SlotAt(n))
      ensures n >= |nodes| ==> r == None
    {
      var s: Slot<T> := HeadSlot;
      var i := 0;
      while Deref(s) != null
        invariant i <= n && i <= |nodes| && s == SlotAt(i)
        decreases |nodes| - i
      {
        DerefAt(i);
        if i == n {
          return Some(s);
        }
        s := NextSlot(Deref(s));
        i := i + 1;
      }
      DerefAt(i);
      r := None;
    }

    /** `AVS_LIST_FIND_PTR(&list, e)`: the slot holding `e`, or `None` when
        `e` is not on the list. */
    method FindPtr(e: Node<T>) returns (r: Option<Slot<T>>, ghost k: nat)
      requires Valid()
      ensures r.Some? <==> e in nodes
      ensures r.Some? ==> k < |nodes| && nodes[k] == e && r.value == SlotAt(k)
    {
      var s: Slot<T> := HeadSlot;
      k := 0;
      while Deref(s) != null
        invariant k <= |nodes| && s == SlotAt(k) && e !in nodes[..k]
        decreases |nodes| - k
      {
        DerefAt(k);
        if Deref(s) == e {
          return Some(s), k;
        }
        s := NextSlot(Deref(s));
        k := k + 1;
      }
      DerefAt(k);
      assert nodes[..k] == nodes;
      r := None;
    }

    /** `AVS_LIST_FIND_BY_VALUE_PTR(&list, &value, cmp)`: the slot of the
        first element whose data the comparator reports equal to `value`
        (`cmp(data, value) == 0`), or `None` when there is none. */
    method FindByValuePtr(value: T, cmp: (T, T) -> int) returns (r: Option<Slot<T>>, ghost k: nat)
      requires Valid()
      ensures r.Some? ==> k < |nodes| && r.value == SlotAt(k) && cmp(nodes[k].value, value) == 0
      ensures r.Some? ==> forall j :: 0 <= j < k ==> cmp(nodes[j].value, value) != 0
      ensures r.None? ==> forall j :: 0 <= j < |nodes| ==> cmp(nodes[j].value, value) != 0
    {
      var s: Slot<T> := HeadSlot;
      k := 0;
      while Deref(s) != null
        invariant k <= |nodes| && s == SlotAt(k)
        invariant forall j :: 0 <= j < k ==> cmp(nodes[j].value, value) != 0
        decreases |nodes| - k
      {
        DerefAt(k);
        if cmp(Deref(s).value, value) == 0 {
          return Some(s), k;
        }
        s := NextSlot(Deref(s));
        k := k + 1;
      }
      DerefAt(k);
      r := None;
    }

    /** `AVS_LIST_TAIL(list)`: the last element, `NULL` on the empty list. */
    method Tail() returns (r: Node?<T>)
      requires Valid()
      ensures nodes == [] ==> r == null
      ensures nodes != [] ==> r == nodes[|nodes| - 1]
    {
      r := head;
      if r == null {
        return;
      }
      ghost var i := 0;
      while r.next != null
        invariant i < |nodes| && r == nodes[i]
        decreases |nodes| - i
      {
        r := r.next;
        i := i + 1;
      }
    }

    /** `AVS_LIST_SIZE(list)`: the number of elements. */
    method Size() returns (n: nat)
      requires Valid()
      ensures n == |nodes|
    {
      n := 0;
      var cur := head;
      while cur != null
        invariant n <= |nodes| && cur == At(nodes, n)
        decreases |nodes| - n
      {
        cur := cur.next;
        n := n + 1;
      }
    }

    /** The elements of the list, collected by walking it. */
    method Collect() returns (all: seq<Node<T>>)
      requires Valid()
      ensures all == nodes
    {
      all := [];
      var cur := head;
      while cur != null
        invariant |all| <= |nodes| && all == nodes[..|all|] && cur == At(nodes, |all|)
        decreases |nodes| - |all|
      {
        all := all + [cur];
        cur := cur.next;
      }
    }

    /** Links the elements of the list in the order `order` (a permutation
        of them), making `order` the list. */
    method Relink(order: seq<Node<T>>)
      requires Valid() && multiset(order) == multiset(nodes)
      modifies this, nodes
      ensures Valid() && nodes == order
    {
      DistinctPermutation(nodes, order);
      var i := 0;
      while i < |order|
        invariant i <= |order| && nodes == old(nodes)
        invariant forall j {:trigger order[j].next} :: 0 <= j < i ==> order[j].next == At(order, j + 1)
      {
        assert order[i] in multiset(nodes);
        order[i].next := At(order, i + 1);
        i := i + 1;
      }
      head := At(order, 0);
      nodes := order;
    }

    /** `AVS_LIST_SORT(&list, cmp)`: the same elements relinked in merge
        sort order. They come out ascending whenever the comparator never
        orders two of their values both ways. */
    method Sort(cmp: (T, T) -> int)
      requires Valid()
      modifies this, nodes
      ensures Valid() && multiset(nodes) == multiset(old(nodes))
      ensures nodes == MergeSort(old(nodes), cmp)
      ensures OrdersEveryPair(old(nodes), cmp) ==> SortedBy(nodes, cmp)
    {
      var all := Collect();
      Relink(MergeSort(all, cmp));
      if OrdersEveryPair(all, cmp) {
        MergeSortSorted(all, cmp, all);
      }
    }

    /** The loop body `if (del(**slot)) AVS_LIST_DELETE(slot);` on the
        element held by slot `k`. */
    method DeleteIf(s: Slot<T>, ghost k: nat, del: T -> bool) returns (ghost deleted: bool)
      requires Valid() && k < |nodes| && s == SlotAt(k)
      modifies this, SlotObjects(s), nodes[k]
      ensures Valid() && deleted == del(old(nodes)[k].value)
      ensures deleted ==> nodes == old(nodes)[..k] + old(nodes)[k + 1..] && old(nodes)[k] !in nodes
      ensures !deleted ==> nodes == old(nodes)
    {
      DerefAt(k);
      deleted := del(nodes[k].value);
      if del(Deref(s).value) {
        ghost var e := nodes[k];
        Delete(s, k);
        assert e !in nodes by {
          forall j | 0 <= j < |nodes| ensures nodes[j] != e {
            if j < k {
              assert nodes[j] == old(nodes)[j];
            } else {
              assert nodes[j] == old(nodes)[j + 1];
            }
          }
        }
      }
    }

    /** One iteration of `AVS_LIST_DELETABLE_FOREACH_PTR(slot, helper,
        &list)` with `DeleteIf` as its body. After the body the slot
        advances only when `helper` still equals `*slot`, i.e. when the
        current element was not deleted; otherwise the same slot already
        holds the next element. Then `helper` is reloaded from the slot.
        With `kept` the survivors among the first `i` elements of `ns`, the
        next iteration sees the survivors among the first `i + 1`, and the
        element reached through the slot, `ns[i]`, is added to `visited`. */
    method DeletableTurn(s: Slot<T>, helper: Node?<T>, del: T -> bool,
                         ghost ns: seq<Node<T>>, ghost i: nat, ghost kept: seq<Node<T>>,
                         ghost visited: seq<Node<T>>)
      returns (s': Slot<T>, helper': Node?<T>, ghost kept': seq<Node<T>>, ghost visited': seq<Node<T>>)
      requires Valid() && i < |ns| && kept == Kept(ns, i, del) && visited == ns[..i]
      requires nodes == kept + ns[i..] && s == SlotAt(|kept|) && helper == Deref(s)
      modifies this, ns
      ensures Valid() && kept' == Kept(ns, i + 1, del)
      ensures nodes == kept' + ns[i + 1..] && s' == SlotAt(|kept'|) && helper' == Deref(s')
      ensures helper == ns[i] && visited' == visited + [helper] && visited' == ns[..i + 1]
    {
      DerefAt(|kept|);
      PrefixStep(ns, i);
      visited' := visited + [helper];
      DeleteWhereStep(ns, i, kept, del);
      ghost var deleted := DeleteIf(s, |kept|, del);
      var advance := helper == Deref(s);
      if deleted {
        DerefAt(|kept|);
        kept' := kept;
      } else {
        kept' := kept + [ns[i]];
      }
      assert advance == !deleted;
      s' := if advance then NextSlot(Deref(s)) else s;
      helper' := Deref(s');
    }

    /** `AVS_LIST_DELETABLE_FOREACH_PTR(slot, helper, &list)` running
        `DeleteIf`: every original element is visited exactly once, in
        order, and exactly those whose data satisfies `del` are gone. */
    method DeleteWhere(del: T -> bool) returns (ghost visited: seq<Node<T>>)
      requires Valid()
      modifies this, nodes
      ensures Valid() && nodes == Kept(old(nodes), |old(nodes)|, del)
      ensures visited == old(nodes)
    {
      ghost var ns := nodes;
      ghost var i := 0;
      ghost var kept := [];
      visited := [];
      var s: Slot<T> := HeadSlot;
      var helper := Deref(s);
      while Deref(s) != null
        invariant Valid() && i <= |ns| && kept == Kept(ns, i, del)
        invariant nodes == kept + ns[i..] && s == SlotAt(|kept|) && helper == Deref(s)
        invariant visited == ns[..i]
        decreases |ns| - i
      {
        DerefAt(|kept|);
        s, helper, kept, visited := DeletableTurn(s, helper, del, ns, i, kept, visited);
        i := i + 1;
      }
      DerefAt(|kept|);
      DeleteWhereDone(ns, i, kept, del);
    }
  }
}
