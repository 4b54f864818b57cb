/**
 The linked search tree behind tsearch(3), tfind(3) and tdelete(3): nodes on the heap,
 rewritten in place through one link.
 */
module SearchTree {

  // ---- sorted key lists ----------------------------------------------------

  /** A comparator in the sense of qsort(3): equal keys need not be identical. */
  ghost predicate TotalOrder<K(!new)>(cmp: (K, K) -> int) {
    && (forall a, b :: cmp(a, b) < 0 <==> cmp(b, a) > 0)
    && (forall a, b, c :: cmp(a, b) <= 0 && cmp(b, c) <= 0 ==> cmp(a, c) <= 0)
  }

  ghost predicate Sorted<K>(cmp: (K, K) -> int, keys: seq<K>) {
    forall i, j :: 0 <= i < j < |keys| ==> cmp(keys[i], keys[j]) < 0
  }

  ghost predicate AllBelow<K>(cmp: (K, K) -> int, keys: seq<K>, key: K) {
    forall k :: k in keys ==> cmp(key, k) > 0
  }

  ghost predicate AllAbove<K>(cmp: (K, K) -> int, keys: seq<K>, key: K) {
    forall k :: k in keys ==> cmp(key, k) < 0
  }

  ghost predicate Has<K>(cmp: (K, K) -> int, keys: seq<K>, key: K) {
    exists k :: k in keys && cmp(key, k) == 0
  }

  /** The sorted list with `key` in its place, unless an equal key is there. */
  function Insert<K>(cmp: (K, K) -> int, keys: seq<K>, key: K): seq<K> {
    if keys == [] then [key]
    else if cmp(key, keys[0]) == 0 then keys
    else if cmp(key, keys[0]) < 0 then [key] + keys
    else [keys[0]] + Insert(cmp, keys[1..], key)
  }

  /** The list without its key equal to `key`. */
  function Delete<K>(cmp: (K, K) -> int, keys: seq<K>, key: K): seq<K> {
    if keys == [] then []
    else if cmp(key, keys[0]) == 0 then keys[1..]
    else [keys[0]] + Delete(cmp, keys[1..], key)
  }

  lemma {:induction false} InsertBetween<K(!new)>(cmp: (K, K) -> int, a: seq<K>, b: seq<K>, key: K)
    requires TotalOrder(cmp) && AllBelow(cmp, a, key) && AllAbove(cmp, b, key)
    ensures Insert(cmp, a + b, key) == a + [key] + b
  {
    hide AllBelow, AllAbove, Insert, TotalOrder;
    if a == [] {
      assert a + b == b;
      InsertFirst(cmp, b, key);
    } else {
      assert (a + b)[1..] == a[1..] + b;
      BelowRest(cmp, a, key);
      InsertBetween(cmp, a[1..], b, key);
      InsertLater(cmp, a + b, key);
      PutBack(a, [key], b);
    }
  }

  lemma PutBack<K>(a: seq<K>, m: seq<K>, b: seq<K>)
    requires a != []
    ensures [a[0]] + (a[1..] + m + b) == a + m + b
  {
  }

  lemma InsertFirst<K>(cmp: (K, K) -> int, keys: seq<K>, key: K)
    requires AllAbove(cmp, keys, key)
    ensures Insert(cmp, keys, key) == [key] + keys
  {
    assert keys != [] ==> keys[0] in keys;
  }

  lemma InsertLater<K>(cmp: (K, K) -> int, keys: seq<K>, key: K)
    requires keys != [] && cmp(key, keys[0]) > 0
    ensures Insert(cmp, keys, key) == [keys[0]] + Insert(cmp, keys[1..], key)
  {
  }

  lemma BelowRest<K>(cmp: (K, K) -> int, keys: seq<K>, key: K)
    requires AllBelow(cmp, keys, key) && keys != []
    ensures cmp(key, keys[0]) > 0 && AllBelow(cmp, keys[1..], key)
  {
    assert keys[0] in keys;
  }

  lemma {:induction false} InsertPresent<K(!new)>(cmp: (K, K) -> int, a: seq<K>, k: K, b: seq<K>, key: K)
    requires TotalOrder(cmp) && AllBelow(cmp, a, key) && cmp(key, k) == 0
    ensures Insert(cmp, a + [k] + b, key) == a + [k] + b
    ensures Delete(cmp, a + [k] + b, key) == a + b
  {
    if a == [] {
      assert (a + [k] + b)[1..] == b == a + b;
    } else {
      assert (a + [k] + b)[1..] == a[1..] + [k] + b;
      assert a[0] in a;
      InsertPresent(cmp, a[1..], k, b, key);
    }
  }

  lemma {:induction false} DeleteAbsent<K(!new)>(cmp: (K, K) -> int, keys: seq<K>, key: K)
    requires !Has(cmp, keys, key)
    ensures Delete(cmp, keys, key) == keys
  {
    if keys != [] {
      assert keys[0] in keys;
      DeleteAbsent(cmp, keys[1..], key);
    }
  }

  lemma Chain<K(!new)>(cmp: (K, K) -> int, a: K, b: K, c: K)
    requires TotalOrder(cmp)
    ensures cmp(a, b) <= 0 && cmp(b, c) < 0 ==> cmp(a, c) < 0
    ensures cmp(a, b) >= 0 && cmp(b, c) > 0 ==> cmp(a, c) > 0
    ensures cmp(a, b) < 0 <==> cmp(b, a) > 0
  {
    if cmp(a, b) <= 0 && cmp(b, c) < 0 { assert cmp(c, a) <= 0 ==> cmp(c, b) <= 0; }
    if cmp(a, b) >= 0 && cmp(b, c) > 0 { assert cmp(a, c) <= 0 ==> cmp(b, c) <= 0; }
  }

  lemma SortedWithout<K>(cmp: (K, K) -> int, a: seq<K>, k: K, b: seq<K>)
    requires Sorted(cmp, a + [k] + b)
    ensures Sorted(cmp, a + b)
  {
    var s := a + [k] + b;
    forall i, j | 0 <= i < j < |a + b|
      ensures cmp((a + b)[i], (a + b)[j]) < 0
    {
      var i', j' := if i < |a| then i else i + 1, if j < |a| then j else j + 1;
      assert (a + b)[i] == s[i'] && (a + b)[j] == s[j'];
    }
  }

  /** A key compared with one element of a sorted list is on one side of the rest. */
  lemma SortedSplit<K(!new)>(cmp: (K, K) -> int, a: seq<K>, k: K, b: seq<K>, key: K)
    requires TotalOrder(cmp) && Sorted(cmp, a + [k] + b)
    ensures cmp(key, k) >= 0 ==> AllBelow(cmp, a, key)
    ensures cmp(key, k) <= 0 ==> AllAbove(cmp, b, key)
  {
    hide TotalOrder;
    var s := a + [k] + b;
    forall x | x in a
      ensures cmp(key, k) >= 0 ==> cmp(key, x) > 0
    {
      var i :| 0 <= i < |a| && a[i] == x;
      assert s[i] == x && s[|a|] == k;
      Chain(cmp, k, x, k);
      Chain(cmp, x, k, x);
      Chain(cmp, key, k, x);
    }
    forall x | x in b
      ensures cmp(key, k) <= 0 ==> cmp(key, x) < 0
    {
      var i :| 0 <= i < |b| && b[i] == x;
      assert s[|a| + 1 + i] == x && s[|a|] == k;
      Chain(cmp, key, k, x);
    }
  }

  lemma SortedInsert<K(!new)>(cmp: (K, K) -> int, a: seq<K>, key: K, b: seq<K>)
    requires TotalOrder(cmp) && Sorted(cmp, a + b) && AllBelow(cmp, a, key) && AllAbove(cmp, b, key)
    ensures Sorted(cmp, a + [key] + b)
  {
    var s := a + [key] + b;
    forall i, j | 0 <= i < j < |s|
      ensures cmp(s[i], s[j]) < 0
    {
      if i < |a| && j == |a| { assert s[i] in a; }
      else if i == |a| { assert s[j] in b; }
      else {
        var i', j' := if i < |a| then i else i - 1, if j < |a| then j else j - 1;
        assert s[i] == (a + b)[i'] && s[j] == (a + b)[j'];
      }
    }
  }

  lemma Equal<K(!new)>(cmp: (K, K) -> int, a: K, b: K, c: K)
    requires TotalOrder(cmp) && cmp(a, b) == 0
    ensures cmp(b, a) == 0
    ensures cmp(a, c) == 0 <==> cmp(b, c) == 0
    ensures cmp(a, c) < 0 <==> cmp(b, c) < 0
  {
    if cmp(a, c) <= 0 { assert cmp(b, c) <= 0; }
    if cmp(b, c) <= 0 { assert cmp(a, c) <= 0; }
    if cmp(a, c) >= 0 { assert cmp(c, a) <= 0; assert cmp(c, b) <= 0; }
    if cmp(b, c) >= 0 { assert cmp(c, b) <= 0; assert cmp(c, a) <= 0; }
  }

  lemma HasSplit<K>(cmp: (K, K) -> int, first: K, rest: seq<K>, x: K)
    ensures Has(cmp, [first] + rest, x) <==> cmp(x, first) == 0 || Has(cmp, rest, x)
  {
    var s := [first] + rest;
    assert first in s;
    assert forall k :: k in s <==> k == first || k in rest;
  }

  lemma {:induction false} HasAfterInsert<K(!new)>(cmp: (K, K) -> int, keys: seq<K>, key: K, x: K)
    requires TotalOrder(cmp)
    ensures Has(cmp, Insert(cmp, keys, key), x) <==> Has(cmp, keys, x) || cmp(x, key) == 0
  {
    hide TotalOrder, Has;
    HasSplit(cmp, key, keys, x);
    if keys == [] {
      assert [key] + keys == [key];
      NoneIn(cmp, x);
    } else {
      assert keys == [keys[0]] + keys[1..];
      HasSplit(cmp, keys[0], keys[1..], x);
      HasSplit(cmp, keys[0], Insert(cmp, keys[1..], key), x);
      HasAfterInsert(cmp, keys[1..], key, x);
      if cmp(key, keys[0]) == 0 { Equal(cmp, key, keys[0], x); SameSide(cmp, x, key, keys[0]); }
    }
  }

  lemma NoneIn<K>(cmp: (K, K) -> int, x: K)
    ensures !Has(cmp, [], x)
  {
  }

  lemma SameSide<K(!new)>(cmp: (K, K) -> int, x: K, a: K, b: K)
    requires TotalOrder(cmp) && cmp(a, b) == 0
    ensures cmp(x, a) == 0 <==> cmp(x, b) == 0
  {
    Equal(cmp, a, b, x);
    assert cmp(x, a) == 0 <==> cmp(a, x) == 0;
    assert cmp(x, b) == 0 <==> cmp(b, x) == 0;
  }

  lemma {:induction false} HasAfterDelete<K(!new)>(cmp: (K, K) -> int, keys: seq<K>, key: K, x: K)
    requires TotalOrder(cmp) && Sorted(cmp, keys)
    ensures Has(cmp, Delete(cmp, keys, key), x) <==> Has(cmp, keys, x) && cmp(x, key) != 0
  {
    hide TotalOrder, Has;
    if keys == [] {
      NoneIn(cmp, x);
    } else {
      var first, rest := keys[0], keys[1..];
      assert keys == [first] + rest == [] + [first] + rest;
      HasSplit(cmp, first, rest, x);
      HasSplit(cmp, first, Delete(cmp, rest, key), x);
      if cmp(key, first) == 0 {
        SameSide(cmp, x, key, first);
        SortedSplit(cmp, [], first, rest, x);
        if cmp(x, first) == 0 { NotAbove(cmp, rest, x); }
      } else {
        HasAfterDelete(cmp, rest, key, x);
        if cmp(x, key) == 0 { Equal(cmp, x, key, first); }
      }
    }
  }

  lemma NotAbove<K>(cmp: (K, K) -> int, keys: seq<K>, x: K)
    requires AllAbove(cmp, keys, x)
    ensures !Has(cmp, keys, x)
  {
  }

  lemma SortedCons<K>(cmp: (K, K) -> int, first: K, rest: seq<K>)
    requires Sorted(cmp, rest) && AllAbove(cmp, rest, first)
    ensures Sorted(cmp, [first] + rest)
  {
    var s := [first] + rest;
    forall i, j | 0 <= i < j < |s|
      ensures cmp(s[i], s[j]) < 0
    {
      assert s[j] == rest[j - 1] && rest[j - 1] in rest;
      assert i > 0 ==> s[i] == rest[i - 1];
    }
  }

  lemma SortedUncons<K>(cmp: (K, K) -> int, keys: seq<K>)
    requires Sorted(cmp, keys) && keys != []
    ensures Sorted(cmp, keys[1..]) && AllAbove(cmp, keys[1..], keys[0])
  {
    forall k | k in keys[1..]
      ensures cmp(keys[0], k) < 0
    {
      var i :| 0 <= i < |keys| - 1 && keys[1..][i] == k;
      assert keys[i + 1] == k;
    }
  }

  lemma AboveAll<K(!new)>(cmp: (K, K) -> int, keys: seq<K>, key: K)
    requires TotalOrder(cmp) && keys != [] && Sorted(cmp, keys) && cmp(key, keys[0]) < 0
    ensures AllAbove(cmp, keys, key)
  {
    hide TotalOrder, Sorted;
    SortedUncons(cmp, keys);
    forall k | k in keys
      ensures cmp(key, k) < 0
    {
      if k != keys[0] {
        assert keys == [keys[0]] + keys[1..];
        assert k in keys[1..];
        Chain(cmp, key, keys[0], k);
      }
    }
  }

  lemma {:induction false} InsertSorted<K(!new)>(cmp: (K, K) -> int, keys: seq<K>, key: K)
    requires TotalOrder(cmp) && Sorted(cmp, keys)
    ensures Sorted(cmp, Insert(cmp, keys, key))
  {
    if keys != [] {
      hide TotalOrder, Sorted;
      if cmp(key, keys[0]) < 0 {
        AboveAll(cmp, keys, key);
        SortedCons(cmp, key, keys);
      } else if cmp(key, keys[0]) > 0 {
        SortedUncons(cmp, keys);
        InsertSorted(cmp, keys[1..], key);
        Chain(cmp, keys[0], key, key);
        FirstStaysFirst(cmp, keys[0], keys[1..], key);
        SortedCons(cmp, keys[0], Insert(cmp, keys[1..], key));
      }
    }
  }

  lemma {:induction false} FirstStaysFirst<K>(cmp: (K, K) -> int, first: K, rest: seq<K>, key: K)
    requires AllAbove(cmp, rest, first) && cmp(first, key) < 0
    ensures AllAbove(cmp, Insert(cmp, rest, key), first)
  {
    if rest != [] { FirstStaysFirst(cmp, first, rest[1..], key); }
  }

  lemma {:induction false} DeleteSorted<K(!new)>(cmp: (K, K) -> int, keys: seq<K>, key: K)
    requires TotalOrder(cmp) && Sorted(cmp, keys)
    ensures Sorted(cmp, Delete(cmp, keys, key))
    ensures forall k :: k in Delete(cmp, keys, key) ==> k in keys
  {
    if keys != [] {
      hide TotalOrder, Sorted;
      SortedUncons(cmp, keys);
      if cmp(key, keys[0]) != 0 {
        DeleteSorted(cmp, keys[1..], key);
        SortedCons(cmp, keys[0], Delete(cmp, keys[1..], key));
      }
    }
  }

  // ---- runs ----------------------------------------------------------------

  datatype Op<K> = Add(key: K) | Remove(key: K)

  function Apply<K>(cmp: (K, K) -> int, keys: seq<K>, op: Op<K>): seq<K> {
    if op.Add? then Insert(cmp, keys, op.key) else Delete(cmp, keys, op.key)
  }

  function Run<K>(cmp: (K, K) -> int, ops: seq<Op<K>>): seq<K> {
    if ops == [] then [] else Apply(cmp, Run(cmp, ops[..|ops| - 1]), ops[|ops| - 1])
  }

  /** What the latest operation on an equal key was. */
  predicate LastAdded<K>(cmp: (K, K) -> int, ops: seq<Op<K>>, key: K) {
    ops != [] &&
    var last := ops[|ops| - 1];
    if cmp(key, last.key) == 0 then last.Add? else LastAdded(cmp, ops[..|ops| - 1], key)
  }

  /** After any run the list is sorted, and holds exactly the keys last added and not removed since. */
  lemma {:induction false} RunHolds<K(!new)>(cmp: (K, K) -> int, ops: seq<Op<K>>, key: K)
    requires TotalOrder(cmp)
    ensures Sorted(cmp, Run(cmp, ops))
    ensures Has(cmp, Run(cmp, ops), key) <==> LastAdded(cmp, ops, key)
  {
    if ops != [] {
      hide TotalOrder, Sorted, Has;
      var before, last := ops[..|ops| - 1], ops[|ops| - 1];
      RunHolds(cmp, before, key);
      if last.Add? {
        InsertSorted(cmp, Run(cmp, before), last.key);
        HasAfterInsert(cmp, Run(cmp, before), last.key, key);
      } else {
        DeleteSorted(cmp, Run(cmp, before), last.key);
        HasAfterDelete(cmp, Run(cmp, before), last.key, key);
      }
    }
  }

  // ---- linked nodes --------------------------------------------------------

  class Node<K> {
    const key: K
    var left: Node?<K>
    var right: Node?<K>

    constructor (key: K)
      ensures this.key == key && left == null && right == null
    {
      this.key := key;
      left, right := null, null;
    }
  }

  /** The tree a link leads to. */
  datatype Tree<K> = Leaf | Branch(left: Tree<K>, node: Node<K>, right: Tree<K>)

  /** The way from the root to a link: the nodes passed and the subtrees left aside. */
  datatype Path<K> = Top | Turn(up: Path<K>, node: Node<K>, wentLeft: bool, other: Tree<K>)

  ghost function InOrder<K>(t: Tree<K>): seq<Node<K>> {
    match t
    case Leaf => []
    case Branch(l, n, r) => InOrder(l) + [n] + InOrder(r)
  }

  ghost function Before<K>(p: Path<K>): seq<Node<K>> {
    match p
    case Top => []
    case Turn(up, n, wentLeft, other) =>
      if wentLeft then Before(up) else Before(up) + InOrder(other) + [n]
  }

  ghost function After<K>(p: Path<K>): seq<Node<K>> {
    match p
    case Top => []
    case Turn(up, n, wentLeft, other) =>
      if wentLeft then [n] + InOrder(other) + After(up) else After(up)
  }

  /** The whole tree, with `sub` behind the link. */
  ghost function Plug<K>(p: Path<K>, sub: Tree<K>): Tree<K> {
    match p
    case Top => sub
    case Turn(up, n, wentLeft, other) =>
      Plug(up, if wentLeft then Branch(sub, n, other) else Branch(other, n, sub))
  }

  ghost function NodeSet<K>(t: Tree<K>): set<Node<K>> {
    match t
    case Leaf => {}
    case Branch(l, n, r) => NodeSet(l) + {n} + NodeSet(r)
  }

  ghost function PathSet<K>(p: Path<K>): set<Node<K>> {
    match p
    case Top => {}
    case Turn(up, n, _, other) => PathSet(up) + {n} + NodeSet(other)
  }

  lemma {:induction false} NodeSetInOrder<K>(t: Tree<K>)
    ensures NodeSet(t) == set n | n in InOrder(t)
  {
    if t.Branch? {
      NodeSetInOrder(t.left);
      NodeSetInOrder(t.right);
    }
  }

  lemma {:induction false} PathSetInOrder<K>(p: Path<K>)
    ensures PathSet(p) == set n | n in Before(p) + After(p)
  {
    if p.Turn? {
      PathSetInOrder(p.up);
      NodeSetInOrder(p.other);
    }
  }

  ghost function Keys<K>(nodes: seq<Node<K>>): (keys: seq<K>)
    ensures |keys| == |nodes|
  {
    seq(|nodes|, i requires 0 <= i < |nodes| => nodes[i].key)
  }

  ghost predicate RemovedAt<K>(before: seq<Node<K>>, after: seq<Node<K>>, i: nat) {
    i < |before| && after == before[..i] + before[i + 1..]
  }

  ghost predicate NoDuplicates<K>(nodes: seq<Node<K>>) {
    forall i, j :: 0 <= i < j < |nodes| ==> nodes[i] != nodes[j]
  }

  /** The heap below `n` is `t`. */
  ghost predicate Shape<K>(n: Node?<K>, t: Tree<K>)
    reads NodeSet(t)
  {
    match t
    case Leaf => n == null
    case Branch(l, m, r) => n == m && Shape(m.left, l) && Shape(m.right, r)
  }

  /** From `root`, the path leads to a link that holds `hole`. */
  ghost predicate PathShape<K>(p: Path<K>, root: Node?<K>, hole: Node?<K>)
    reads PathSet(p)
  {
    match p
    case Top => root == hole
    case Turn(up, n, wentLeft, other) =>
      && PathShape(up, root, n)
      && (if wentLeft then n.left == hole && Shape(n.right, other)
          else n.right == hole && Shape(n.left, other))
  }

  lemma {:induction false} InOrderPlug<K>(p: Path<K>, sub: Tree<K>)
    ensures InOrder(Plug(p, sub)) == Before(p) + InOrder(sub) + After(p)
  {
    if p.Turn? {
      InOrderPlug(p.up, if p.wentLeft then Branch(sub, p.node, p.other) else Branch(p.other, p.node, sub));
      Regroup(Before(p.up), InOrder(sub), p.node, InOrder(p.other), After(p.up));
    }
  }

  lemma Regroup<T>(before: seq<T>, a: seq<T>, x: T, b: seq<T>, after: seq<T>)
    ensures before + (a + [x] + b) + after == before + a + ([x] + b + after)
    ensures before + (b + [x] + a) + after == (before + b + [x]) + a + after
  {
  }

  /** The nodes before and behind the one behind the link. */
  lemma NodesAround<K>(path: Path<K>, sub: Tree<K>)
    requires sub.Branch?
    ensures InOrder(Plug(path, sub))
            == (Before(path) + InOrder(sub.left)) + [sub.node] + (InOrder(sub.right) + After(path))
  {
    hide Before, After, Plug;
    InOrderPlug(path, sub);
    Regroup(Before(path), InOrder(sub.left), sub.node, InOrder(sub.right), After(path));
  }

  lemma {:induction false} NodeSetPlug<K>(p: Path<K>, sub: Tree<K>)
    ensures NodeSet(Plug(p, sub)) == PathSet(p) + NodeSet(sub)
  {
    if p.Turn? {
      NodeSetPlug(p.up, if p.wentLeft then Branch(sub, p.node, p.other) else Branch(p.other, p.node, sub));
    }
  }

  lemma {:induction false} PlugShape<K>(p: Path<K>, root: Node?<K>, hole: Node?<K>, sub: Tree<K>)
    requires PathShape(p, root, hole) && Shape(hole, sub)
    ensures Shape(root, Plug(p, sub))
  {
    if p.Turn? {
      PlugShape(p.up, root, p.node,
                if p.wentLeft then Branch(sub, p.node, p.other) else Branch(p.other, p.node, sub));
    }
  }

  lemma KeysConcat<K>(a: seq<Node<K>>, b: seq<Node<K>>)
    ensures Keys(a + b) == Keys(a) + Keys(b)
  {
  }

  lemma KeysAround<K>(a: seq<Node<K>>, n: Node<K>, b: seq<Node<K>>)
    ensures Keys(a + [n] + b) == Keys(a) + [n.key] + Keys(b)
  {
  }

  lemma SortedNoDuplicates<K(!new)>(cmp: (K, K) -> int, nodes: seq<Node<K>>)
    requires TotalOrder(cmp) && Sorted(cmp, Keys(nodes))
    ensures NoDuplicates(nodes)
  {
    forall i, j | 0 <= i < j < |nodes|
      ensures nodes[i] != nodes[j]
    {
      assert cmp(Keys(nodes)[i], Keys(nodes)[j]) < 0;
      Chain(cmp, nodes[i].key, nodes[j].key, nodes[i].key);
    }
  }

  lemma DistinctAround<K>(a: seq<Node<K>>, n: Node<K>, b: seq<Node<K>>)
    requires NoDuplicates(a + [n] + b)
    ensures n !in a && n !in b && NoDuplicates(a + b)
    ensures forall x :: x in a ==> x !in b
  {
    var s := a + [n] + b;
    assert forall i :: 0 <= i < |a| ==> a[i] == s[i] != s[|a|];
    assert forall i :: 0 <= i < |b| ==> b[i] == s[|a| + 1 + i] != s[|a|];
    forall i, j | 0 <= i < j < |a + b|
      ensures (a + b)[i] != (a + b)[j]
    {
      var i', j' := if i < |a| then i else i + 1, if j < |a| then j else j + 1;
      assert (a + b)[i] == s[i'] && (a + b)[j] == s[j'];
    }
    forall x | x in a
      ensures x !in b
    {
      var i :| 0 <= i < |a| && a[i] == x;
      forall j | 0 <= j < |b|
        ensures b[j] != x
      {
        assert s[i] == a[i] && s[|a| + 1 + j] == b[j];
      }
    }
  }

  lemma PlugAround<K>(p: Path<K>, sub: Tree<K>)
    requires p.Turn?
    ensures
      var a, b := if p.wentLeft then Before(p.up) + InOrder(sub) else Before(p.up) + InOrder(p.other),
                  if p.wentLeft then InOrder(p.other) + After(p.up) else InOrder(sub) + After(p.up);
      InOrder(Plug(p, sub)) == a + [p.node] + b
  {
    hide InOrder, Plug;
    InOrderPlug(p, sub);
  }

  /** The node above a link occurs nowhere else. */
  lemma PathNodeIsApart<K>(p: Path<K>, sub: Tree<K>)
    requires p.Turn? && NoDuplicates(InOrder(Plug(p, sub)))
    ensures p.node !in PathSet(p.up) && p.node !in NodeSet(p.other) && p.node !in NodeSet(sub)
  {
    hide InOrder, Plug, Before, After, NodeSet, PathSet, NoDuplicates;
    var a, b := if p.wentLeft then Before(p.up) + InOrder(sub) else Before(p.up) + InOrder(p.other),
                if p.wentLeft then InOrder(p.other) + After(p.up) else InOrder(sub) + After(p.up);
    PlugAround(p, sub);
    DistinctAround(a, p.node, b);
    PathSetInOrder(p.up);
    NodeSetInOrder(p.other);
    NodeSetInOrder(sub);
  }

  lemma {:induction false} TreeIsAllocated<K>(t: Tree<K>)
    ensures forall n :: n in NodeSet(t) ==> allocated(n)
  {
    if t.Branch? {
      TreeIsAllocated(t.left);
      TreeIsAllocated(t.right);
    }
  }

  /** The variable that holds the root, as the caller of the three functions owns it. */
  class Root<K(!new)> {
    var root: Node?<K>
    ghost var tree: Tree<K>

    constructor ()
      ensures root == null && tree == Leaf
    {
      root := null;
      tree := Leaf;
    }

    ghost function Nodes(): seq<Node<K>>
      reads this
    {
      InOrder(tree)
    }

    ghost function KeyList(): seq<K>
      reads this
    {
      Keys(InOrder(tree))
    }

    ghost predicate Valid(cmp: (K, K) -> int)
      reads this, NodeSet(tree)
    {
      Shape(root, tree) && Sorted(cmp, KeyList())
    }

    /** `compar` is the caller's; only the result of the search matters. */
    method Tfind(cmp: (K, K) -> int, key: K) returns (r: Node?<K>)
      requires TotalOrder(cmp) && Valid(cmp)
      ensures r != null <==> Has(cmp, KeyList(), key)
      ensures r != null ==> r in Nodes() && cmp(key, r.key) == 0
    {
      r := root;
      ghost var path, sub := Top, tree;
      while r != null
        invariant At(cmp, key, path, sub, r)
        decreases sub
      {
        var c := cmp(key, r.key);
        if c == 0 {
          Found(cmp, key, path, sub, r);
          return;
        }
        path := Descend(cmp, key, path, sub, r);
        r := if c < 0 then r.left else r.right;
        sub := if c < 0 then sub.left else sub.right;
      }
      Missing(cmp, key, path, sub);
    }

    /** The search has come to `at` along `path`: everything aside lies on its side of the key. */
    ghost predicate At(cmp: (K, K) -> int, key: K, path: Path<K>, sub: Tree<K>, at: Node?<K>)
      reads this, PathSet(path), NodeSet(sub)
    {
      && Plug(path, sub) == tree
      && PathShape(path, root, at) && Shape(at, sub)
      && AllBelow(cmp, Keys(Before(path)), key) && AllAbove(cmp, Keys(After(path)), key)
    }

    lemma AtRoot(cmp: (K, K) -> int, key: K)
      requires Shape(root, tree)
      ensures At(cmp, key, Top, tree, root)
    {
    }

    lemma Found(cmp: (K, K) -> int, key: K, path: Path<K>, sub: Tree<K>, at: Node<K>)
      requires At(cmp, key, path, sub, at) && cmp(key, at.key) == 0
      requires TotalOrder(cmp) && Sorted(cmp, KeyList())
      ensures Valid(cmp) && at in Nodes() && Has(cmp, KeyList(), key) && sub.Branch?
      ensures Insert(cmp, KeyList(), key) == KeyList()
      ensures var a, b := Before(path) + InOrder(sub.left), InOrder(sub.right) + After(path);
        Nodes() == a + [at] + b && Delete(cmp, KeyList(), key) == Keys(a + b)
    {
      hide InOrder, Before, After, Plug, TotalOrder, Sorted, Insert, Delete;
      NodesAround(path, sub);
      PlugShape(path, root, at, sub);
      var a, b := Before(path) + InOrder(sub.left), InOrder(sub.right) + After(path);
      KeysAround(a, at, b);
      assert at.key in KeyList();
      SortedSplit(cmp, Keys(a), at.key, Keys(b), key);
      InsertPresent(cmp, Keys(a), at.key, Keys(b), key);
      KeysConcat(a, b);
    }

    /** One comparison later. */
    lemma Descend(cmp: (K, K) -> int, key: K, path: Path<K>, sub: Tree<K>, at: Node<K>)
      returns (next: Path<K>)
      requires At(cmp, key, path, sub, at) && cmp(key, at.key) != 0
      requires TotalOrder(cmp) && Sorted(cmp, KeyList())
      ensures sub.Branch?
      ensures cmp(key, at.key) < 0 ==>
        next == Turn(path, at, true, sub.right) && At(cmp, key, next, sub.left, at.left)
      ensures cmp(key, at.key) > 0 ==>
        next == Turn(path, at, false, sub.left) && At(cmp, key, next, sub.right, at.right)
    {
      hide TotalOrder, Sorted, AllBelow, AllAbove, Keys, InOrder;
      NodesAround(path, sub);
      var a, b := Before(path) + InOrder(sub.left), InOrder(sub.right) + After(path);
      OnOneSide(cmp, key, a, at, b);
      next := if cmp(key, at.key) < 0 then Turn(path, at, true, sub.right)
              else Turn(path, at, false, sub.left);
      assert [at] + InOrder(sub.right) + After(path) == [at] + b;
    }

    lemma OnOneSide(cmp: (K, K) -> int, key: K, a: seq<Node<K>>, at: Node<K>, b: seq<Node<K>>)
      requires TotalOrder(cmp) && Sorted(cmp, Keys(a + [at] + b))
      ensures cmp(key, at.key) > 0 ==> AllBelow(cmp, Keys(a + [at]), key)
      ensures cmp(key, at.key) < 0 ==> AllAbove(cmp, Keys([at] + b), key)
    {
      hide TotalOrder, Sorted, Keys;
      KeysAround(a, at, b);
      SortedSplit(cmp, Keys(a), at.key, Keys(b), key);
      KeysAround(a, at, []);
      KeysAround([], at, b);
      assert a + [at] + [] == a + [at] && [] + [at] + b == [at] + b;
    }

    lemma Missing(cmp: (K, K) -> int, key: K, path: Path<K>, sub: Tree<K>)
      requires At(cmp, key, path, sub, null)
      requires TotalOrder(cmp)
      ensures sub == Leaf && Nodes() == Before(path) + After(path)
      ensures !Has(cmp, KeyList(), key)
    {
      InOrderPlug(path, sub);
      KeysConcat(Before(path), After(path));
      assert Before(path) + [] + After(path) == Before(path) + After(path);
    }
  
    /** The node with `key`: the one already there or a new one; null when there is none and
        no memory either. */
    method Tsearch(cmp: (K, K) -> int, key: K, memory: bool) returns (r: Node?<K>)
      requires TotalOrder(cmp) && Valid(cmp)
      modifies this, NodeSet(tree)
      ensures Valid(cmp)
      ensures Has(cmp, old(KeyList()), key) ==>
        r != null && r in old(Nodes()) && cmp(key, r.key) == 0 && tree == old(tree)
      ensures !Has(cmp, old(KeyList()), key) ==>
        if memory then r != null && fresh(r) && r.key == key && r in Nodes()
        else r == null && tree == old(tree)
      ensures r != null ==> KeyList() == Insert(cmp, old(KeyList()), key)
      ensures forall n :: n in Nodes() ==> n in old(Nodes()) || n == r
    {
      hide TotalOrder, Sorted, Insert, InOrder, Keys, AllBelow, AllAbove, Has, NodeSet, Plug;
      var parent: Node?<K>, wentLeft, at := null, false, root;
      ghost var path, sub := Top, tree;
      AtRoot(cmp, key);
      while at != null
        invariant At(cmp, key, path, sub, at)
        invariant if path.Top? then parent == null
                  else parent == path.node && wentLeft == path.wentLeft
        modifies {}
        decreases sub
      {
        var c := cmp(key, at.key);
        if c == 0 {
          Found(cmp, key, path, sub, at);
          return at;
        }
        path := Descend(cmp, key, path, sub, at);
        sub := if c < 0 then sub.left else sub.right;
        parent, wentLeft, at := at, c < 0, if c < 0 then at.left else at.right;
      }
      Missing(cmp, key, path, sub);
      PlugShape(path, root, null, sub);
      NodeSetPlug(path, sub);
      if !memory {
        return null;
      }
      SortedNoDuplicates(cmp, Nodes());
      TreeIsAllocated(tree);
      r := new Node<K>(key);
      assert PathShape(path, root, null);
      SetLink(path, sub, null, parent, wentLeft, r);
      ghost var leaf := Branch(Leaf, r, Leaf);
      tree := Plug(path, leaf);
      PlugShape(path, root, r, leaf);
      NodeSetPlug(path, leaf);
      InsertedKeys(cmp, key, path, r);
    }

    /** `*link = to`, for the link the path leads to. */
    method SetLink(ghost path: Path<K>, ghost sub: Tree<K>, ghost at: Node?<K>,
                   parent: Node?<K>, wentLeft: bool, to: Node?<K>)
      requires PathShape(path, root, at) && NoDuplicates(InOrder(Plug(path, sub)))
      requires if path.Top? then parent == null
               else parent == path.node && wentLeft == path.wentLeft
      modifies this`root, if parent == null then {} else {parent}
      ensures PathShape(path, root, to)
    {
      if path.Turn? { PathNodeIsApart(path, sub); }
      if parent == null {
        root := to;
      } else if wentLeft {
        parent.left := to;
      } else {
        parent.right := to;
      }
    }

    lemma InsertedKeys(cmp: (K, K) -> int, key: K, path: Path<K>, node: Node<K>)
      requires TotalOrder(cmp) && node.key == key
      requires Sorted(cmp, Keys(Before(path) + After(path)))
      requires AllBelow(cmp, Keys(Before(path)), key) && AllAbove(cmp, Keys(After(path)), key)
      ensures var nodes := InOrder(Plug(path, Branch(Leaf, node, Leaf)));
        && nodes == Before(path) + [node] + After(path)
        && Sorted(cmp, Keys(nodes))
        && Keys(nodes) == Insert(cmp, Keys(Before(path) + After(path)), key)
    {
      hide TotalOrder, Insert;
      var a, b := Before(path), After(path);
      InOrderPlug(path, Branch(Leaf, node, Leaf));
      assert InOrder(Branch(Leaf, node, Leaf)) == [node];
      KeysAround(a, node, b);
      KeysConcat(a, b);
      SortedInsert(cmp, Keys(a), key, Keys(b));
      InsertBetween(cmp, Keys(a), Keys(b), key);
    }
  
    /** Unlinks the leftmost node right of `node`, its successor; `rest` is what stays there. */
    method DetachSuccessor(node: Node<K>, ghost right: Tree<K>)
      returns (succ: Node<K>, ghost rest: Tree<K>)
      requires node.right != null && Shape(node.right, right)
      requires NoDuplicates([node] + InOrder(right))
      modifies {node} + NodeSet(right)
      ensures InOrder(right) == [succ] + InOrder(rest)
      ensures Shape(node.right, rest) && node.left == old(node.left)
    {
      hide InOrder, NoDuplicates, NodeSet, Plug;
      var parent: Node?<K>;
      succ, parent := node.right, null;
      ghost var path, sub := Top, right;
      PathTop(right, node.right);
      while succ.left != null
        invariant Shape(succ, sub) && PathShape(path, node.right, succ)
        invariant Plug(path, sub) == right && Before(path) == []
        invariant if path.Top? then parent == null else parent == path.node && path.wentLeft
        modifies {}
        decreases sub
      {
        PlugLeft(path, sub);
        path, sub := Turn(path, succ, true, sub.right), sub.left;
        succ, parent := succ.left, succ;
      }
      LeftmostIsFirst(path, sub);
      SubtreesAreApart(node, path, sub);
      rest := Plug(path, sub.right);
      if parent == null {
        node.right := succ.right;
      } else {
        parent.left := succ.right;
      }
      PlugShape(path, node.right, succ.right, sub.right);
    }

    lemma PathTop(t: Tree<K>, n: Node?<K>)
      ensures Plug(Top, t) == t && PathShape(Top, n, n)
    {
    }

    lemma PlugLeft(path: Path<K>, sub: Tree<K>)
      requires sub.Branch?
      ensures Plug(Turn(path, sub.node, true, sub.right), sub.left) == Plug(path, sub)
    {
    }

    lemma LeftmostIsFirst(path: Path<K>, sub: Tree<K>)
      requires sub.Branch? && sub.left == Leaf && Before(path) == []
      ensures InOrder(Plug(path, sub)) == [sub.node] + InOrder(Plug(path, sub.right))
    {
      InOrderPlug(path, sub);
      InOrderPlug(path, sub.right);
    }

    /** Changing one link on the way to the successor disturbs nothing else. */
    lemma SubtreesAreApart(node: Node<K>, path: Path<K>, sub: Tree<K>)
      requires sub.Branch? && NoDuplicates([node] + InOrder(Plug(path, sub)))
      ensures node !in PathSet(path) && node !in NodeSet(sub)
      ensures NodeSet(sub.right) <= NodeSet(sub) && sub.node in NodeSet(sub)
      ensures PathSet(path) + NodeSet(sub) == NodeSet(Plug(path, sub))
      ensures path.Turn? ==>
        path.node !in PathSet(path.up) && path.node !in NodeSet(path.other) && path.node !in NodeSet(sub)
    {
      hide InOrder, Plug, NodeSet, PathSet, NoDuplicates;
      var nodes := InOrder(Plug(path, sub));
      NodeSetPlug(path, sub);
      NodeSetInOrder(Plug(path, sub));
      assert [] + [node] + nodes == [node] + nodes;
      DistinctAround([], node, nodes);
      assert [] + nodes == nodes;
      RightNodes(sub);
      if path.Turn? {
        PathNodeIsApart(path, sub);
      }
    }

    lemma RightNodes(sub: Tree<K>)
      requires sub.Branch?
      ensures NodeSet(sub.right) <= NodeSet(sub) && sub.node in NodeSet(sub)
    {
    }
  
    /** The subtree behind the link shares no node with the way to it. */
    lemma SubtreeIsApart(path: Path<K>, sub: Tree<K>)
      requires NoDuplicates(InOrder(Plug(path, sub)))
      ensures NodeSet(sub) !! PathSet(path) && NoDuplicates(InOrder(sub))
    {
      hide NoDuplicates;
      var p, s, q := Before(path), InOrder(sub), After(path);
      InOrderPlug(path, sub);
      NodeSetInOrder(sub);
      PathSetInOrder(path);
      NoDuplicatesParts(p + s, q);
      NoDuplicatesParts(p, s);
      forall n | n in NodeSet(sub)
        ensures n !in PathSet(path)
      {
        assert n in s && n in p + s;
      }
    }

    lemma PartsAreApart(t: Tree<K>)
      requires t.Branch? && NoDuplicates(InOrder(t))
      ensures NodeSet(t) == NodeSet(t.left) + {t.node} + NodeSet(t.right)
      ensures NodeSet(t.left) !! NodeSet(t.right)
      ensures t.node !in NodeSet(t.left) && t.node !in NodeSet(t.right)
      ensures NoDuplicates([t.node] + InOrder(t.right)) && NoDuplicates(InOrder(t.right))
    {
      var l, r := InOrder(t.left), InOrder(t.right);
      assert InOrder(t) == l + ([t.node] + r) == l + [t.node] + r;
      hide NoDuplicates;
      NodeSetInOrder(t.left);
      NodeSetInOrder(t.right);
      DistinctAround(l, t.node, r);
      NoDuplicatesParts(l, [t.node] + r);
      NoDuplicatesParts([t.node], r);
      forall n | n in NodeSet(t.left)
        ensures n !in NodeSet(t.right)
      {
        assert n in l;
      }
    }

    lemma NoDuplicatesParts(a: seq<Node<K>>, b: seq<Node<K>>)
      requires NoDuplicates(a + b)
      ensures NoDuplicates(a) && NoDuplicates(b)
      ensures forall x :: x in a ==> x !in b
    {
      forall i, j | 0 <= i < |a| && 0 <= j < |b|
        ensures a[i] != b[j]
      {
        assert a[i] == (a + b)[i] && b[j] == (a + b)[|a| + j];
      }
      assert forall i :: 0 <= i < |b| ==> b[i] == (a + b)[|a| + i];
      assert forall i :: 0 <= i < |a| ==> a[i] == (a + b)[i];
    }

    lemma FirstIsApart(right: Tree<K>, succ: Node<K>, rest: Tree<K>)
      requires NoDuplicates(InOrder(right)) && InOrder(right) == [succ] + InOrder(rest)
      ensures succ in NodeSet(right) && succ !in NodeSet(rest) && NodeSet(rest) <= NodeSet(right)
    {
      hide NoDuplicates;
      NodeSetInOrder(right);
      NodeSetInOrder(rest);
      NoDuplicatesParts([succ], InOrder(rest));
      forall n | n in NodeSet(rest)
        ensures n in NodeSet(right)
      {
        assert n in InOrder(rest);
        assert n in [succ] + InOrder(rest);
      }
      assert succ in [succ] + InOrder(rest);
    }

    lemma NothingLeft(none: Tree<K>, other: Tree<K>)
      requires none == Leaf
      ensures InOrder(other) == InOrder(none) + InOrder(other) == InOrder(other) + InOrder(none)
    {
    }

    lemma SuccessorOrder(l: Tree<K>, succ: Node<K>, rest: Tree<K>)
      ensures InOrder(Branch(l, succ, rest)) == InOrder(l) + ([succ] + InOrder(rest))
    {
    }

    lemma RemovedKeys(cmp: (K, K) -> int, path: Path<K>, sub: Tree<K>, newSub: Tree<K>)
      requires sub.Branch? && InOrder(newSub) == InOrder(sub.left) + InOrder(sub.right)
      requires Sorted(cmp, Keys(InOrder(Plug(path, sub))))
      ensures var a, b := Before(path) + InOrder(sub.left), InOrder(sub.right) + After(path);
        && InOrder(Plug(path, newSub)) == a + b && Sorted(cmp, Keys(a + b))
        && RemovedAt(InOrder(Plug(path, sub)), a + b, |a|)
        && InOrder(Plug(path, sub))[|a|] == sub.node
    {
      var p, l, r, q := Before(path), InOrder(sub.left), InOrder(sub.right), After(path);
      assert InOrder(Plug(path, sub)) == p + (l + [sub.node] + r) + q by { InOrderPlug(path, sub); }
      assert InOrder(Plug(path, newSub)) == p + (l + r) + q by { InOrderPlug(path, newSub); }
      hide *;
      RemovedFromMiddle(cmp, p, l, sub.node, r, q);
    }

    lemma RemovedFromMiddle(cmp: (K, K) -> int, p: seq<Node<K>>, l: seq<Node<K>>, n: Node<K>,
                            r: seq<Node<K>>, q: seq<Node<K>>)
      requires Sorted(cmp, Keys(p + (l + [n] + r) + q))
      ensures p + (l + r) + q == (p + l) + (r + q) && Sorted(cmp, Keys((p + l) + (r + q)))
      ensures RemovedAt(p + (l + [n] + r) + q, (p + l) + (r + q), |p + l|)
      ensures (p + (l + [n] + r) + q)[|p + l|] == n
    {
      hide Keys, Sorted;
      assert p + (l + [n] + r) + q == (p + l) + [n] + (r + q);
      KeysAround(p + l, n, r + q);
      KeysConcat(p + l, r + q);
      SortedWithout(cmp, Keys(p + l), n.key, Keys(r + q));
    }

    lemma PathNodeStays(path: Path<K>, sub: Tree<K>)
      ensures path.Turn? ==> path.node in InOrder(Plug(path, sub))
    {
      NodeSetPlug(path, sub);
      NodeSetInOrder(Plug(path, sub));
    }

    /** Unlinks the node equal to `key`; the caller learns its parent. */
    method Tdelete(cmp: (K, K) -> int, key: K) returns (r: Deleted<K>)
      requires TotalOrder(cmp) && Valid(cmp)
      modifies this, NodeSet(tree)
      ensures Valid(cmp)
      ensures KeyList() == Delete(cmp, old(KeyList()), key)
      ensures r.NotFound? <==> !Has(cmp, old(KeyList()), key)
      ensures r.NotFound? ==> tree == old(tree)
      ensures !r.NotFound? ==> exists i: nat ::
        RemovedAt(old(Nodes()), Nodes(), i) && cmp(key, old(Nodes())[i].key) == 0
      ensures r.WasRoot? ==> old(root) != null && cmp(key, old(root).key) == 0
      ensures r.Below? ==> var p := r.parent;
        && p in Nodes() && old(allocated(p))
        && var n := if cmp(key, p.key) < 0 then old(p.left) else old(p.right);
           n != null && cmp(key, n.key) == 0
    {
      hide TotalOrder, Sorted, Insert, Delete, InOrder, Keys, AllBelow, AllAbove, Has, Plug;
      var parent: Node?<K>, wentLeft, node := null, false, root;
      ghost var path, sub := Top, tree;
      AtRoot(cmp, key);
      while node != null && cmp(key, node.key) != 0
        invariant At(cmp, key, path, sub, node)
        invariant if path.Top? then parent == null
                  else parent == path.node && wentLeft == path.wentLeft && wentLeft == (cmp(key, parent.key) < 0)
        invariant (node == null || old(allocated(node))) && (parent == null || old(allocated(parent)))
        modifies {}
        decreases sub
      {
        var c := cmp(key, node.key);
        path := Descend(cmp, key, path, sub, node);
        sub := if c < 0 then sub.left else sub.right;
        parent, wentLeft, node := node, c < 0, if c < 0 then node.left else node.right;
      }
      if node == null {
        Missing(cmp, key, path, sub);
        PlugShape(path, root, null, sub);
        DeleteAbsent(cmp, KeyList(), key);
        return NotFound;
      }
      Found(cmp, key, path, sub, node);
      ghost var at := Detach(cmp, key, path, sub, node, parent, wentLeft);
      r := if parent == null then WasRoot else Below(parent);
    }

    /** The node found goes: its link gets what remains below it. */
    method Detach(ghost cmp: (K, K) -> int, ghost key: K, ghost path: Path<K>, ghost sub: Tree<K>, node: Node<K>,
                  parent: Node?<K>, wentLeft: bool)
      returns (ghost at: nat)
      requires TotalOrder(cmp) && Valid(cmp) && At(cmp, key, path, sub, node) && cmp(key, node.key) == 0
      requires if path.Top? then parent == null else parent == path.node && wentLeft == path.wentLeft
      modifies this, NodeSet(tree)
      ensures Valid(cmp) && KeyList() == Delete(cmp, old(KeyList()), key)
      ensures RemovedAt(old(Nodes()), Nodes(), at) && old(Nodes())[at] == node
      ensures parent != null ==> parent in Nodes()
    {
      hide TotalOrder, Sorted, Delete, InOrder, Keys, AllBelow, AllAbove, Plug, RemovedAt, NoDuplicates;
      Found(cmp, key, path, sub, node);
      SortedNoDuplicates(cmp, Nodes());
      SubtreeIsApart(path, sub);
      NodeSetPlug(path, sub);
      TreeIsAllocated(tree);
      var to;
      ghost var rest;
      to, rest := Unlink(node, sub);
      SetLink(path, sub, node, parent, wentLeft, to);
      RemovedKeys(cmp, path, sub, rest);
      PathNodeStays(path, rest);
      tree := Plug(path, rest);
      PlugShape(path, root, to, rest);
      at := |Before(path) + InOrder(sub.left)|;
    }

    /** What takes the place of `node`: its only child, or its successor with both children. */
    method Unlink(node: Node<K>, ghost sub: Tree<K>) returns (to: Node?<K>, ghost rest: Tree<K>)
      requires Shape(node, sub) && NoDuplicates(InOrder(sub))
      modifies NodeSet(sub)
      ensures Shape(to, rest) && NodeSet(rest) <= NodeSet(sub)
      ensures sub.Branch? && InOrder(rest) == InOrder(sub.left) + InOrder(sub.right)
    {
      hide InOrder, NoDuplicates;
      PartsAreApart(sub);
      ghost var l, r := sub.left, sub.right;
      assert Shape(node.left, l) && Shape(node.right, r);
      if node.left == null {
        NothingLeft(l, r);
        return node.right, r;
      }
      if node.right == null {
        NothingLeft(r, l);
        return node.left, l;
      }
      TreeIsAllocated(l);
      var succ;
      succ, rest := DetachSuccessor(node, r);
      FirstIsApart(r, succ, rest);
      SuccessorOrder(l, succ, rest);
      succ.left := node.left;
      succ.right := node.right;
      to, rest := succ, Branch(l, succ, rest);
    }
  }

  /** What tdelete(3) answers: nothing deleted, the root deleted, or the node above it. */
  datatype Deleted<K> = NotFound | WasRoot | Below(parent: Node<K>)
}
