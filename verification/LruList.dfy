// LRUList (lesson2/PcapPlPl_snifer/lib/header/LRUList.h).
//
// `Recency` is the simple view: a duplicate-free sequence, newest first.
// `LruList` is the view the source keeps: a doubly linked list of nodes and a
// map from each key to its node, both updated in place.

module Recency {
  import opened Basics
  import opened Sequences

  // One call on the cache.
  datatype Op<+T> = Put(element: T) | Erase(element: T)

  // put: to the front, then drop the oldest if the cache has outgrown `max`.
  function Promote<T(==)>(s: seq<T>, x: T): seq<T> {
    [x] + Without(s, x)
  }

  function PutOn<T(==)>(s: seq<T>, max: nat, x: T): seq<T> {
    var t := Promote(s, x);
    if |t| > max then t[..|t| - 1] else t
  }

  function Apply<T(==)>(s: seq<T>, max: nat, op: Op<T>): seq<T> {
    match op
    case Put(x) => PutOn(s, max, x)
    case Erase(x) => Without(s, x)
  }

  function Run<T(==)>(ops: seq<Op<T>>, max: nat): seq<T> {
    if ops == [] then [] else Apply(Run(ops[..|ops| - 1], max), max, ops[|ops| - 1])
  }

  // ---------- what one call does to a duplicate-free sequence ----------

  lemma PromoteDistinct<T(!new)>(s: seq<T>, x: T)
    requires Distinct(s)
    ensures Distinct(Without(s, x)) && Distinct(Promote(s, x))
    ensures |Without(s, x)| == if x in s then |s| - 1 else |s|
  {
    WithoutDistinct(s, x);
    WithoutMembers(s, x);
    ConsDistinct(x, Without(s, x));
  }

  lemma {:induction false} WithoutAt<T(!new)>(s: seq<T>, k: nat)
    requires Distinct(s) && k < |s|
    ensures Without(s, s[k]) == s[..k] + s[k + 1..]
  {
    if k > 0 {
      WithoutAt(s[1..], k - 1);
      assert s[1..][..k - 1] == s[1..k] && s[1..][k..] == s[k + 1..];
      assert [s[0]] + s[1..k] == s[..k];
    } else {
      WithoutMembers(s[1..], s[0]);
    }
  }

  lemma {:induction false} WithoutPrefix<T>(p: seq<T>, s: seq<T>, x: T)
    requires p <= s
    ensures Without(p, x) <= Without(s, x)
  {
    if p != [] {
      WithoutPrefix(p[1..], s[1..], x);
    }
  }

  lemma ApplyBounded<T(!new)>(s: seq<T>, max: nat, op: Op<T>)
    requires Distinct(s) && |s| <= max
    ensures Distinct(Apply(s, max, op)) && |Apply(s, max, op)| <= max
  {
    PromoteDistinct(s, op.element);
  }

  // Every reachable state is duplicate-free and never above its capacity, 0 included.
  lemma {:induction false} RunBounded<T(!new)>(ops: seq<Op<T>>, max: nat)
    ensures Distinct(Run(ops, max)) && |Run(ops, max)| <= max
  {
    if ops != [] {
      RunBounded(ops[..|ops| - 1], max);
      ApplyBounded(Run(ops[..|ops| - 1], max), max, ops[|ops| - 1]);
    }
  }

  // ---------- the stack property ----------

  lemma StackStep<T(!new)>(p: seq<T>, s: seq<T>, k: nat, m: nat, op: Op<T>)
    requires k <= m && p <= s && |p| <= k
    requires Distinct(p) && Distinct(s) && |s| <= m
    ensures Apply(p, k, op) <= Apply(s, m, op)
  {
    var x := op.element;
    WithoutPrefix(p, s, x);
    PromoteDistinct(p, x);
    PromoteDistinct(s, x);
    assert Promote(p, x) <= Promote(s, x);
  }

  // A smaller cache driven by the same calls holds a prefix of the larger one.
  lemma {:induction false} StackProperty<T(!new)>(ops: seq<Op<T>>, k: nat, m: nat)
    requires k <= m
    ensures Run(ops, k) <= Run(ops, m)
  {
    if ops != [] {
      var before := ops[..|ops| - 1];
      StackProperty(before, k, m);
      RunBounded(before, k);
      RunBounded(before, m);
      StackStep(Run(before, k), Run(before, m), k, m, ops[|ops| - 1]);
    }
  }

  // ---------- recency: who is in the cache, and in what order ----------

  // 1 + the position of the last put of x, or 0 if it was never put.
  function LastPut<T(==)>(ops: seq<Op<T>>, x: T): (n: nat)
    ensures n <= |ops|
  {
    if ops == [] then 0
    else if ops[|ops| - 1] == Put(x) then |ops|
    else LastPut(ops[..|ops| - 1], x)
  }

  ghost predicate NewestFirst<T(!new)>(ops: seq<Op<T>>, s: seq<T>) {
    && (forall i :: 0 <= i < |s| ==> LastPut(ops, s[i]) > 0)
    && (forall i, j :: 0 <= i < j < |s| ==> LastPut(ops, s[i]) > LastPut(ops, s[j]))
  }

  ghost predicate OlderThanAll<T(!new)>(ops: seq<Op<T>>, y: T, s: seq<T>) {
    forall x :: x in s ==> LastPut(ops, y) < LastPut(ops, x)
  }

  lemma NewestCons<T(!new)>(ops: seq<Op<T>>, x: T, s: seq<T>)
    requires NewestFirst(ops, s) && LastPut(ops, x) > 0
    requires forall y :: y in s ==> LastPut(ops, x) > LastPut(ops, y)
    ensures NewestFirst(ops, [x] + s)
  {
    forall j | 0 <= j < |s| ensures LastPut(ops, x) > LastPut(ops, s[j]) {
      assert s[j] in s;
    }
  }

  lemma NewestTail<T(!new)>(ops: seq<Op<T>>, s: seq<T>)
    requires NewestFirst(ops, s) && s != []
    ensures NewestFirst(ops, s[1..])
    ensures forall y :: y in s[1..] ==> LastPut(ops, s[0]) > LastPut(ops, y)
  {
    forall i | 0 <= i < |s| - 1 ensures s[1..][i] == s[i + 1] {}
  }

  lemma {:induction false} WithoutOrdered<T(!new)>(ops: seq<Op<T>>, s: seq<T>, x: T)
    requires NewestFirst(ops, s)
    ensures NewestFirst(ops, Without(s, x))
  {
    if s != [] {
      NewestTail(ops, s);
      WithoutOrdered(ops, s[1..], x);
      WithoutMembers(s[1..], x);
      if s[0] != x {
        NewestCons(ops, s[0], Without(s[1..], x));
      }
    }
  }

  lemma LastPutStep<T>(ops: seq<Op<T>>, op: Op<T>, x: T)
    ensures LastPut(ops + [op], x) == if op == Put(x) then |ops| + 1 else LastPut(ops, x)
  {}

  // Adding one call keeps the order of elements it does not name, and puts the
  // element it does name ahead of them.
  lemma OrderedStep<T(!new)>(ops: seq<Op<T>>, op: Op<T>, w: seq<T>)
    requires NewestFirst(ops, w) && op.element !in w
    ensures NewestFirst(ops + [op], w)
    ensures op.Put? ==> NewestFirst(ops + [op], [op.element] + w)
  {
    forall i | 0 <= i < |w| ensures LastPut(ops + [op], w[i]) == LastPut(ops, w[i]) {
      LastPutStep(ops, op, w[i]);
      assert w[i] in w;
    }
    LastPutStep(ops, op, op.element);
  }

  lemma RunStep<T(!new)>(ops: seq<Op<T>>, op: Op<T>, max: nat)
    ensures Run(ops + [op], max) == Apply(Run(ops, max), max, op)
  {
    assert (ops + [op])[..|ops|] == ops;
  }

  // After any calls the cache is ordered by last put, newest first.
  lemma {:induction false} RunOrdered<T(!new)>(ops: seq<Op<T>>, max: nat)
    ensures NewestFirst(ops, Run(ops, max))
  {
    if ops != [] {
      var before, op := ops[..|ops| - 1], ops[|ops| - 1];
      assert ops == before + [op];
      RunOrdered(before, max);
      PutOrdered(before, max, op);
    }
  }

  lemma PutOrdered<T(!new)>(ops: seq<Op<T>>, max: nat, op: Op<T>)
    requires NewestFirst(ops, Run(ops, max))
    ensures NewestFirst(ops + [op], Run(ops + [op], max))
    ensures op.Put? ==> NewestFirst(ops + [op], Promote(Run(ops, max), op.element))
  {
    WithoutOrdered(ops, Run(ops, max), op.element);
    WithoutMembers(Run(ops, max), op.element);
    OrderedStep(ops, op, Without(Run(ops, max), op.element));
    RunStep(ops, op, max);
  }

  // A put evicts when the cache outgrows its capacity, and then exactly the
  // element whose last put is older than every survivor's.
  lemma PutEvictsOldest<T(!new)>(ops: seq<Op<T>>, max: nat, x: T)
    ensures var t, after := Promote(Run(ops, max), x), Run(ops + [Put(x)], max);
            if |t| > max
            then t == after + [t[max]] && OlderThanAll(ops + [Put(x)], t[max], after)
            else t == after
  {
    var t, after := Promote(Run(ops, max), x), Run(ops + [Put(x)], max);
    RunOrdered(ops, max);
    PutOrdered(ops, max, Put(x));
    RunStep(ops, Put(x), max);
    RunBounded(ops, max);
    WithoutMembers(Run(ops, max), x);
    if |t| > max {
      NewestLast(ops + [Put(x)], after, t[max]);
    }
  }

  lemma NewestLast<T(!new)>(ops: seq<Op<T>>, s: seq<T>, last: T)
    requires NewestFirst(ops, s + [last])
    ensures OlderThanAll(ops, last, s)
  {
    forall x | x in s ensures LastPut(ops, last) < LastPut(ops, x) {
      var i :| 0 <= i < |s| && s[i] == x;
      assert (s + [last])[i] == x && (s + [last])[|s|] == last;
    }
  }

  // With puts only, the cache is exactly the `max` most recently put elements:
  // an element that was put and is missing is older than all `max` that are held.
  lemma {:induction false} PutOnlyHoldsMostRecent<T(!new)>(ops: seq<Op<T>>, max: nat, y: T)
    requires forall i :: 0 <= i < |ops| ==> ops[i].Put?
    requires LastPut(ops, y) > 0 && y !in Run(ops, max)
    ensures |Run(ops, max)| == max && OlderThanAll(ops, y, Run(ops, max))
  {
    var before, x := ops[..|ops| - 1], ops[|ops| - 1].element;
    var s, after := Run(before, max), Run(ops, max);
    var t := Promote(s, x);
    assert ops == before + [Put(x)];
    PutEvictsOldest(before, max, x);
    RunBounded(before, max);
    PromoteDistinct(s, x);
    WithoutMembers(s, x);
    if y in t {
      assert y == t[max];
    } else {
      assert y != x && y !in s;
      PutOnlyHoldsMostRecent(before, max, y);
      forall z | z in after ensures LastPut(ops, y) < LastPut(ops, z) {
        LastPutStep(before, Put(x), y);
        LastPutStep(before, Put(x), z);
        assert z in t;
      }
    }
  }

  // ---------- erasing ----------

  // The last call that names x.
  function LastNaming<T(==)>(ops: seq<Op<T>>, x: T): Option<Op<T>> {
    if ops == [] then None
    else if ops[|ops| - 1].element == x then Some(ops[|ops| - 1])
    else LastNaming(ops[..|ops| - 1], x)
  }

  // Whatever the size, an element is listed only if the last call that names it put it.
  lemma {:induction false} ListedOnlyIfPut<T(!new)>(ops: seq<Op<T>>, max: nat, x: T)
    ensures x in Run(ops, max) ==> LastNaming(ops, x) == Some(Put(x))
  {
    if ops != [] {
      var s := Run(ops[..|ops| - 1], max);
      ListedOnlyIfPut(ops[..|ops| - 1], max, x);
      WithoutMembers(s, ops[|ops| - 1].element);
    }
  }

  // And if the list has room for everything ever put, exactly then.
  lemma {:induction false} ListedIffPutLast<T(!new)>(ops: seq<Op<T>>, max: nat, named: set<T>, x: T)
    requires |named| <= max && forall i :: 0 <= i < |ops| ==> ops[i].element in named
    ensures x in Run(ops, max) <==> LastNaming(ops, x) == Some(Put(x))
    ensures forall y :: y in Run(ops, max) ==> y in named
  {
    if ops != [] {
      var before, op := ops[..|ops| - 1], ops[|ops| - 1];
      var s := Run(before, max);
      ListedIffPutLast(before, max, named, x);
      RunBounded(before, max);
      PromoteDistinct(s, op.element);
      WithoutMembers(s, op.element);
      FitsInto(Promote(s, op.element), named);
    }
  }

  lemma FitsInto<T(!new)>(s: seq<T>, named: set<T>)
    requires Distinct(s) && forall y :: y in s ==> y in named
    ensures |s| <= |named|
  {
    var members := set y | y in named && y in s;
    DistinctSize(s, members);
    SubsetSize(members, named);
  }

  // ---------- std::move in the eviction branch ----------

  // The value is moved out of the list slot before that same slot is used as
  // the key to erase from the map; `hollow` is what a move leaves behind.
  function KeysAfterPut<T(==,!new)>(s: seq<T>, max: nat, x: T, wantDeleted: bool, hollow: T -> T): set<T> {
    var t := Promote(s, x);
    var keys := set e | e in t;
    if |t| <= max then keys
    else if wantDeleted then keys - {hollow(t[|t| - 1])} else keys - {t[|t| - 1]}
  }

  // List and map still hold the same elements after a put exactly when the
  // victim is not handed out, or moving it does not change it.
  lemma MoveKeepsAgreementIff<T(!new)>(s: seq<T>, max: nat, x: T, wantDeleted: bool, hollow: T -> T)
    requires Distinct(s) && |s| <= max
    ensures var t := Promote(s, x);
            (KeysAfterPut(s, max, x, wantDeleted, hollow) == set e | e in PutOn(s, max, x))
            <==> (|t| <= max || !wantDeleted || hollow(t[|t| - 1]) == t[|t| - 1])
  {
    PromoteDistinct(s, x);
    var t := Promote(s, x);
    if |t| > max {
      var v, kept := t[|t| - 1], PutOn(s, max, x);
      assert t == kept + [v];
      assert v !in kept;
      var keys := set e | e in t;
      assert keys - {v} == set e | e in kept;
      if wantDeleted && hollow(v) != v {
        assert v in KeysAfterPut(s, max, x, wantDeleted, hollow);
      }
    }
  }
}

module LruCache {
  import opened Basics
  import opened Recency
  import opened Sequences

  class Node<T> {
    const value: T
    var prev: Node?<T>
    var next: Node?<T>

    constructor (value: T)
      ensures this.value == value
    {
      this.value := value;
    }
  }

  // The doubly linked list; nodes stay where they are, so a reference to a node
  // is a stable iterator.
  class NodeList<T> {
    var head: Node?<T>
    var tail: Node?<T>
    ghost var nodes: seq<Node<T>>
    ghost var repr: set<Node<T>>

    ghost predicate Valid()
      reads this, nodes
    {
      && (forall i :: 0 <= i < |nodes| ==> nodes[i] in repr)
      && (forall i, j :: 0 <= i < j < |nodes| ==> nodes[i] != nodes[j])
      && head == At(nodes, 0) && tail == At(nodes, |nodes| - 1)
      && (forall i {:trigger nodes[i].prev} :: 0 <= i < |nodes| ==> nodes[i].prev == At(nodes, i - 1))
      && (forall i {:trigger nodes[i].next} :: 0 <= i < |nodes| ==> nodes[i].next == At(nodes, i + 1))
    }

    static function At(nodes: seq<Node<T>>, i: int): Node?<T> {
      if 0 <= i < |nodes| then nodes[i] else null
    }

    constructor ()
      ensures Valid() && nodes == [] && repr == {}
    {
      head, tail, nodes, repr := null, null, [], {};
    }

    method PushFront(value: T) returns (n: Node<T>)
      requires Valid()
      modifies this, repr
      ensures Valid() && fresh(n) && n.value == value
      ensures nodes == [n] + old(nodes) && repr == old(repr) + {n}
    {
      n := new Node(value);
      n.prev, n.next := null, head;
      if head == null { tail := n; } else { head.prev := n; }
      head := n;
      nodes, repr := [n] + nodes, repr + {n};
      assert forall i :: 1 <= i < |nodes| ==> nodes[i] == old(nodes)[i - 1];
    }

    method Remove(n: Node<T>, ghost k: nat)
      requires Valid() && k < |nodes| && nodes[k] == n
      modifies this, repr
      ensures Valid()
      ensures nodes == Cut(old(nodes), k) && repr == old(repr)
    {
      if n.prev == null { head := n.next; } else { n.prev.next := n.next; }
      if n.next == null { tail := n.prev; } else { n.next.prev := n.prev; }
      nodes := Cut(nodes, k);
      assert forall i :: 0 <= i < k ==> nodes[i] == old(nodes)[i];
      assert forall i :: k <= i < |nodes| ==> nodes[i] == old(nodes)[i + 1];
    }
  }

  ghost function Values<T>(nodes: seq<Node<T>>): (s: seq<T>)
    ensures |s| == |nodes|
  {
    seq(|nodes|, i requires 0 <= i < |nodes| => nodes[i].value)
  }

  // Every node is the one its own value maps to, and every key maps to a node
  // of the list that holds that key.
  ghost predicate Agree<T(!new)>(nodes: seq<Node<T>>, index: map<T, Node<T>>) {
    && (forall i :: 0 <= i < |nodes| ==> nodes[i].value in index && index[nodes[i].value] == nodes[i])
    && (forall x :: x in index ==> index[x] in nodes && index[x].value == x)
    && (forall i, j :: 0 <= i < j < |nodes| ==> nodes[i] != nodes[j])
  }

  // Agreement makes the list duplicate-free and as long as the map.
  lemma AgreeDistinct<T(!new)>(nodes: seq<Node<T>>, index: map<T, Node<T>>)
    requires Agree(nodes, index)
    ensures Distinct(Values(nodes)) && |index| == |nodes|
    ensures forall x :: x in index <==> x in Values(nodes)
  {
    var s := Values(nodes);
    forall x | x in index ensures x in s {
      var i :| 0 <= i < |nodes| && nodes[i] == index[x];
      assert s[i] == x;
    }
    assert |index| == |index.Keys|;
    DistinctSize(s, index.Keys);
  }

  lemma NodeOf<T(!new)>(nodes: seq<Node<T>>, index: map<T, Node<T>>, x: T) returns (k: nat)
    requires Agree(nodes, index) && x in index
    ensures k < |nodes| && nodes[k] == index[x] && nodes[k].value == x
  {
    k :| 0 <= k < |nodes| && nodes[k] == index[x];
  }

  lemma SizeOf<T(!new)>(nodes: seq<Node<T>>, index: map<T, Node<T>>)
    requires Agree(nodes, index)
    ensures |index| == |nodes|
  {
    AgreeDistinct(nodes, index);
  }

  lemma Absent<T(!new)>(nodes: seq<Node<T>>, index: map<T, Node<T>>, x: T)
    requires Agree(nodes, index) && x !in index
    ensures Without(Values(nodes), x) == Values(nodes)
  {
    AgreeDistinct(nodes, index);
    WithoutMembers(Values(nodes), x);
  }

  lemma CutValues<T(!new)>(nodes: seq<Node<T>>, index: map<T, Node<T>>, k: nat)
    requires Agree(nodes, index) && k < |nodes|
    ensures Values(Cut(nodes, k)) == Without(Values(nodes), nodes[k].value)
  {
    AgreeDistinct(nodes, index);
    WithoutAt(Values(nodes), k);
    assert Values(Cut(nodes, k)) == Cut(Values(nodes), k);
  }

  lemma CutAgrees<T(!new)>(nodes: seq<Node<T>>, index: map<T, Node<T>>, k: nat)
    requires Agree(nodes, index) && k < |nodes|
    ensures Agree(Cut(nodes, k), index - {nodes[k].value})
  {
    var rest, x := Cut(nodes, k), nodes[k].value;
    forall i | 0 <= i < |rest|
      ensures rest[i].value in index && index[rest[i].value] == rest[i] && rest[i].value != x
    {
      var j := if i < k then i else i + 1;
      assert rest[i] == nodes[j] && nodes[j] != nodes[k];
    }
    forall y | y in index && y != x ensures index[y] in rest {
      CutKeeps(nodes, k, index[y]);
    }
    forall i, j | 0 <= i < j < |rest| ensures rest[i] != rest[j] {
      assert rest[i] == nodes[if i < k then i else i + 1] && rest[j] == nodes[if j < k then j else j + 1];
    }
  }

  lemma PushAgrees<T(!new)>(nodes: seq<Node<T>>, index: map<T, Node<T>>, n: Node<T>)
    requires Agree(nodes, index) && n !in nodes && n.value !in index
    ensures Agree([n] + nodes, index[n.value := n])
    ensures Values([n] + nodes) == [n.value] + Values(nodes)
  {
    var all, index' := [n] + nodes, index[n.value := n];
    forall i | 0 <= i < |all| ensures all[i].value in index' && index'[all[i].value] == all[i] {
      if i > 0 { assert all[i] == nodes[i - 1]; }
    }
  }

  // The list after a put, before any eviction: `k` is where the element stood.
  lemma PromoteAgrees<T(!new)>(nodes: seq<Node<T>>, index: map<T, Node<T>>, n: Node<T>, k: nat)
    requires Agree(nodes, index) && n !in nodes
    requires if n.value in index then k < |nodes| && nodes[k] == index[n.value] else k == |nodes|
    ensures var rest := if k < |nodes| then Cut(nodes, k) else nodes;
            && Agree([n] + rest, index[n.value := n])
            && Values([n] + rest) == Promote(Values(nodes), n.value)
  {
    if k < |nodes| {
      CutAgrees(nodes, index, k);
      CutValues(nodes, index, k);
      PushAgrees(Cut(nodes, k), index - {n.value}, n);
      assert (index - {n.value})[n.value := n] == index[n.value := n];
    } else {
      Absent(nodes, index, n.value);
      PushAgrees(nodes, index, n);
    }
  }

  class LruList<T(==,!new)> {
    const items: NodeList<T>
    var index: map<T, Node<T>>
    const maxSize: nat

    ghost predicate Valid()
      reads this, items, items.nodes
    {
      items.Valid() && Agree(items.nodes, index) && |items.nodes| <= maxSize
    }

    // Newest first.
    ghost function Contents(): seq<T>
      reads this, items
    {
      Values(items.nodes)
    }

    constructor (maxSize: nat)
      ensures Valid() && fresh(items) && fresh(items.repr) && Contents() == [] && this.maxSize == maxSize
    {
      items := new NodeList();
      index := map[];
      this.maxSize := maxSize;
    }

    method Put(element: T, wantDeleted: bool) returns (code: int, deleted: Option<T>)
      requires Valid()
      modifies this, items, items.repr
      ensures Valid()
      ensures Contents() == PutOn(old(Contents()), maxSize, element)
      ensures code == if |Promote(old(Contents()), element)| > maxSize then 1 else 0
      ensures deleted == if code == 1 && wantDeleted
                         then Some(Promote(old(Contents()), element)[maxSize]) else None
      ensures fresh(items.repr - old(items.repr))
    {
      Insert(element);
      code, deleted := 0, None;
      if |index| > maxSize {
        deleted := EvictOldest(wantDeleted);
        code := 1;
      }
    }

    // The insertion half of put: list and map agree again, possibly one over capacity.
    method Insert(element: T)
      requires Valid()
      modifies this, items, items.repr
      ensures items.Valid() && Agree(items.nodes, index)
      ensures Contents() == Promote(old(Contents()), element)
      ensures |index| == |items.nodes| <= maxSize + 1
      ensures fresh(items.repr - old(items.repr))
    {
      ghost var n, k := MoveToFront(element);
      PromoteAgrees(old(items.nodes), old(index), n, k);
      SizeOf(items.nodes, index);
    }

    // A new front node takes over the key, and the
    // node it replaces, the k-th if there is one, leaves the list.
    method MoveToFront(element: T) returns (ghost n: Node<T>, ghost k: nat)
      requires Valid()
      modifies this, items, items.repr
      ensures items.Valid() && fresh(n) && n.value == element
      ensures if element in old(index) then k < |old(items.nodes)| && old(items.nodes)[k] == old(index)[element]
              else k == |old(items.nodes)|
      ensures items.nodes == [n] + if k < |old(items.nodes)| then Cut(old(items.nodes), k) else old(items.nodes)
      ensures index == old(index)[element := n] && items.repr == old(items.repr) + {n}
    {
      ghost var nodes0 := items.nodes;
      k := |nodes0|;
      var front := items.PushFront(element);
      n := front;
      if element in index {
        k := NodeOf(nodes0, index, element);
        RemoveStale(index[element], front, nodes0, k);
      }
      index := index[element := front];
    }

    // The node behind the new front node that held the same element.
    method RemoveStale(stale: Node<T>, ghost front: Node<T>, ghost nodes0: seq<Node<T>>, ghost k: nat)
      requires items.Valid() && items.nodes == [front] + nodes0 && k < |nodes0| && nodes0[k] == stale
      modifies items, items.repr
      ensures items.Valid() && items.nodes == [front] + Cut(nodes0, k) && items.repr == old(items.repr)
    {
      CutCons(front, nodes0, k);
      items.Remove(stale, k + 1);
    }

    // The eviction branch of put.
    method EvictOldest(wantDeleted: bool) returns (deleted: Option<T>)
      requires items.Valid() && Agree(items.nodes, index) && |items.nodes| == maxSize + 1
      modifies this, items, items.repr
      ensures Valid()
      ensures Contents() == old(Contents())[..maxSize]
      ensures deleted == if wantDeleted then Some(old(Contents())[maxSize]) else None
      ensures items.repr == old(items.repr)
    {
      var lru := items.tail;
      deleted := if wantDeleted then Some(lru.value) else None;
      CutAgrees(items.nodes, index, maxSize);
      CutLast(items.nodes, maxSize);
      index := index - {lru.value};
      items.Remove(lru, maxSize);
    }

    method EraseElement(element: T)
      requires Valid()
      modifies this, items, items.repr
      ensures Valid()
      ensures Contents() == Without(old(Contents()), element)
      ensures items.repr == old(items.repr)
    {
      if element !in index {
        Absent(items.nodes, index, element);
        return;
      }
      ghost var k := NodeOf(items.nodes, index, element);
      CutAgrees(items.nodes, index, k);
      CutValues(items.nodes, index, k);
      items.Remove(index[element], k);
      index := index - {element};
    }

    method GetMRUElement() returns (x: T)
      requires Valid() && Contents() != []
      ensures x == Contents()[0]
    {
      x := items.head.value;
    }

    method GetLRUElement() returns (x: T)
      requires Valid() && Contents() != []
      ensures x == Contents()[|Contents()| - 1]
    {
      x := items.tail.value;
    }

    method GetSize() returns (size: nat)
      requires Valid()
      ensures size == |Contents()| <= maxSize
    {
      SizeOf(items.nodes, index);
      size := |index|;
    }
  }

  // Any sequence of calls on a new cache leaves the linked list holding exactly
  // what the simple view predicts.
  method Replay<T(==,!new)>(ops: seq<Op<T>>, maxSize: nat) returns (cache: LruList<T>)
    ensures cache.Valid() && cache.maxSize == maxSize
    ensures cache.Contents() == Run(ops, maxSize)
  {
    cache := new LruList(maxSize);
    for i := 0 to |ops|
      invariant fresh(cache) && fresh(cache.items) && fresh(cache.items.repr)
      invariant cache.Valid() && cache.maxSize == maxSize
      invariant cache.Contents() == Run(ops[..i], maxSize)
    {
      assert ops[..i + 1][..i] == ops[..i];
      match ops[i] {
        case Put(x) => var _, _ := cache.Put(x, false);
        case Erase(x) => cache.EraseElement(x);
      }
    }
    assert ops[..|ops|] == ops;
  }
}
