/** The debug database of libcxx/src/debug.cpp: which iterators there are, and into which container
    each of them points.
  */
module DebugDb {
  import opened ChainedTable
  import opened Sequences
  import NextPrime

  type OwnerMap = map<Address, Option<Address>>
  type ListMap = map<Address, seq<Address>>
  type NodeMap = map<Address, IteratorNode>
  type ContainerMap = map<Address, ContainerNode>
  type ArraySet = set<array<IteratorNode?>>

  // ----- the database as a value -----

  /** owner: for each registered iterator the container it points into, if any.
      lists: for each registered container its iterators, in the order of its array. */
  datatype View = View(owner: OwnerMap, lists: ListMap)

  /** An iterator stands in a container's list, once, exactly if that container owns it. */
  ghost predicate Consistent(v: View) {
    && (forall k :: k in v.lists ==> Distinct(v.lists[k]))
    && (forall k, a :: k in v.lists ==> (a in v.lists[k] <==> a in v.owner && v.owner[a] == Some(k)))
    && (forall a :: a in v.owner && v.owner[a].Some? ==> v.owner[a].value in v.lists)
  }

  /** s without the first occurrence of x. */
  function RemoveFirst<T(==)>(s: seq<T>, x: T): (r: seq<T>)
  {
    if s == [] then [] else if s[0] == x then s[1..] else [s[0]] + RemoveFirst(s[1..], x)
  }

  lemma {:induction false} RemoveFirstKeepsRest<T>(s: seq<T>, x: T)
    requires Distinct(s)
    ensures Distinct(RemoveFirst(s, x))
    ensures forall y :: y in RemoveFirst(s, x) <==> y in s && y != x
  {
    if s == [] {
    } else {
      var rest := RemoveFirst(s[1..], x);
      RemoveFirstKeepsRest(s[1..], x);
      assert s == [s[0]] + s[1..];
      if s[0] != x {
        assert s[0] !in s[1..];
        assert s[0] !in rest;
      }
    }
  }

  lemma {:induction false} RemoveFirstAt<T>(s: seq<T>, x: T, i: nat)
    requires i < |s| && s[i] == x && forall j :: 0 <= j < i ==> s[j] != x
    ensures RemoveFirst(s, x) == s[..i] + s[i + 1..]
  {
    if i == 0 {
    } else {
      RemoveFirstAt(s[1..], x, i - 1);
      assert s[..i] + s[i + 1..] == [s[0]] + (s[1..][..i - 1] + s[1..][i..]);
    }
  }

  // what each operation does to the value

  function Disowned(owner: OwnerMap, c: Address): OwnerMap {
    map a | a in owner :: if owner[a] == Some(c) then None else owner[a]
  }

  function Exchanged(o: Option<Address>, c1: Address, c2: Address): Option<Address> {
    if o == Some(c1) then Some(c2) else if o == Some(c2) then Some(c1) else o
  }

  function WithIterator(v: View, i: Address): View {
    v.(owner := v.owner[i := None])
  }

  /** i, which nobody owns, comes to point into c. */
  function Attached(v: View, i: Address, c: Address): View
    requires c in v.lists
  {
    View(v.owner[i := Some(c)], v.lists[c := v.lists[c] + [i]])
  }

  /** i stays but points nowhere. */
  function Detached(v: View, i: Address): View
    requires i in v.owner && (v.owner[i].Some? ==> v.owner[i].value in v.lists)
  {
    match v.owner[i]
    case None => v
    case Some(c) => View(v.owner[i := None], v.lists[c := RemoveFirst(v.lists[c], i)])
  }

  function WithoutIterator(v: View, i: Address): View
    requires i in v.owner && (v.owner[i].Some? ==> v.owner[i].value in v.lists)
  {
    var d := Detached(v, i);
    d.(owner := d.owner - {i})
  }

  function Invalidated(v: View, c: Address): View
    requires c in v.lists
  {
    View(Disowned(v.owner, c), v.lists[c := []])
  }

  function WithoutContainer(v: View, c: Address): View
    requires c in v.lists
  {
    View(Disowned(v.owner, c), v.lists - {c})
  }

  function SwappedLists(lists: ListMap, c1: Address, c2: Address): ListMap
    requires c1 in lists && c2 in lists
  {
    map k | k in lists :: lists[Partner(k, c1, c2)]
  }

  function Partner(k: Address, c1: Address, c2: Address): Address {
    if k == c1 then c2 else if k == c2 then c1 else k
  }

  function Swapped(v: View, c1: Address, c2: Address): View
    requires c1 in v.lists && c2 in v.lists
  {
    View(map a | a in v.owner :: Exchanged(v.owner[a], c1, c2), SwappedLists(v.lists, c1, c2))
  }

  /** A registered iterator comes to point to another container, or nowhere. */
  function Repointed(v: View, i: Address, to: Option<Address>): View
    requires i in v.owner && Consistent(v)
  {
    if v.owner[i] == to then v
    else
      match to
      case None => Detached(v, i)
      case Some(c) => if c in v.lists then Attached(Detached(v, i), i, c) else v
  }

  /** i as a copy of i0: points where i0 points; an unregistered i0 points nowhere. */
  function Copied(v: View, i: Address, i0: Address): View
    requires Consistent(v)
  {
    var from := if i0 in v.owner then v.owner[i0] else None;
    if i in v.owner then Repointed(v, i, from)
    else if i0 !in v.owner then v
    else match from
      case None => WithIterator(v, i)
      case Some(c) => Attached(WithIterator(v, i), i, c)
  }

  /** As a map, copying is one update. */
  lemma CopiedOwner(v: View, i: Address, i0: Address)
    requires Consistent(v)
    ensures Copied(v, i, i0).owner ==
      if i in v.owner || i0 in v.owner then v.owner[i := if i0 in v.owner then v.owner[i0] else None] else v.owner
  {
  }

  /** Which iterator points where after the operations on one iterator: no other iterator is touched. */
  lemma OwnersAfterOne(v: View, i: Address, c: Address)
    requires Consistent(v) && c in v.lists
    ensures WithIterator(v, i).owner == v.owner[i := None] && WithIterator(v, i).lists == v.lists
    ensures Attached(v, i, c).owner == v.owner[i := Some(c)] && Attached(v, i, c).lists[c] == v.lists[c] + [i]
    ensures i in v.owner ==>
      && Detached(v, i).owner == v.owner[i := None] && WithoutIterator(v, i).owner == v.owner - {i}
      && Repointed(v, i, Some(c)).owner == v.owner[i := Some(c)]
      && Repointed(v, i, None).owner == v.owner[i := None]
      && Detached(v, i).lists.Keys == WithoutIterator(v, i).lists.Keys == v.lists.Keys
  {
  }

  /** And after those on containers: no iterator is registered or taken off, and those that point elsewhere
      go on to do so. */
  lemma OwnersAfterAll(v: View, c: Address, c2: Address, a: Address)
    requires Consistent(v) && c in v.lists && c2 in v.lists && a in v.owner
    ensures Invalidated(v, c).owner.Keys == WithoutContainer(v, c).owner.Keys == v.owner.Keys
    ensures Swapped(v, c, c2).owner.Keys == v.owner.Keys
    ensures Invalidated(v, c).owner[a] == WithoutContainer(v, c).owner[a]
      == if v.owner[a] == Some(c) then None else v.owner[a]
    ensures Invalidated(v, c).lists.Keys == Swapped(v, c, c2).lists.Keys == v.lists.Keys
    ensures WithoutContainer(v, c).lists.Keys == v.lists.Keys - {c}
    ensures v.owner[a] == Some(c) ==> Swapped(v, c, c2).owner[a] == Some(c2)
    ensures v.owner[a] == Some(c2) ==> Swapped(v, c, c2).owner[a] == Some(c)
    ensures v.owner[a] != Some(c) && v.owner[a] != Some(c2) ==> Swapped(v, c, c2).owner[a] == v.owner[a]
    ensures Swapped(v, c, c2).lists[c] == v.lists[c2] && Swapped(v, c, c2).lists[c2] == v.lists[c]
  {
  }

  lemma AttachedConsistent(v: View, i: Address, c: Address)
    requires Consistent(v) && c in v.lists && (i in v.owner ==> v.owner[i] == None)
    ensures Consistent(Attached(v, i, c))
  {
    assert i !in v.lists[c];
  }

  lemma DetachedConsistent(v: View, i: Address)
    requires Consistent(v) && i in v.owner
    ensures Consistent(Detached(v, i))
  {
    if v.owner[i].Some? {
      RemoveFirstKeepsRest(v.lists[v.owner[i].value], i);
    }
  }

  lemma InvalidatedConsistent(v: View, c: Address)
    requires Consistent(v) && c in v.lists
    ensures Consistent(Invalidated(v, c)) && Consistent(WithoutContainer(v, c))
  {
  }

  lemma SwappedConsistent(v: View, c1: Address, c2: Address)
    requires Consistent(v) && c1 in v.lists && c2 in v.lists
    ensures Consistent(Swapped(v, c1, c2))
  {
  }

  // ----- the nodes -----

  /** What an iterator's chain node records. */
  class IteratorNode {
    var c: ContainerNode?

    constructor (c: ContainerNode?)
      ensures this.c == c
    {
      this.c := c;
    }
  }

  /** What a container's chain node records: its address, and its iterators in [0, end) of an array. */
  class ContainerNode {
    const c: Address
    var iterators: array<IteratorNode?>
    var end: nat

    constructor (c: Address)
      ensures this.c == c && fresh(iterators) && Lists([])
    {
      this.c := c;
      iterators := new IteratorNode?[0];
      end := 0;
    }

    ghost predicate Lists(list: seq<IteratorNode>)
      reads this, iterators
    {
      end == |list| <= iterators.Length && forall j :: 0 <= j < end ==> iterators[j] == list[j]
    }

    /** Appends an iterator; doubles the array when it is full. */
    method Add(i: IteratorNode, ghost list: seq<IteratorNode>)
      requires Lists(list)
      modifies this, iterators
      ensures Lists(list + [i]) && (iterators == old(iterators) || fresh(iterators))
      ensures iterators == old(iterators) <==> old(end < iterators.Length)
      ensures old(end == iterators.Length == 0) ==> iterators.Length == 1
      ensures old(end == iterators.Length > 0) ==> iterators.Length == 2 * old(iterators.Length)
    {
      if end == iterators.Length {
        var nc := 2 * iterators.Length;
        if nc == 0 {
          nc := 1;
        }
        var larger := new IteratorNode?[nc](_ => null);
        if nc > 1 {
          forall j | 0 <= j < nc / 2 {
            larger[j] := iterators[j];
          }
        }
        iterators := larger;
        end := nc / 2;
      }
      iterators[end] := i;
      end := end + 1;
    }

    /** Takes out the first occurrence of an iterator and closes the gap. */
    method Remove(p: IteratorNode, ghost list: seq<IteratorNode>)
      requires Lists(list) && p in list
      modifies this, iterators
      ensures Lists(RemoveFirst(list, p)) && iterators == old(iterators)
    {
      var r := 0;
      while r != end && iterators[r] != p
        invariant 0 <= r <= end && forall j :: 0 <= j < r ==> list[j] != p
        invariant p in list[r..]
        decreases end - r
      {
        r := r + 1;
      }
      RemoveFirstAt(list, p, r);
      end := end - 1;
      if end != r {
        ghost var before := iterators[..];
        for j := r to end
          invariant end == |list| - 1 && iterators == old(iterators)
          invariant forall m :: 0 <= m < r ==> iterators[m] == list[m]
          invariant forall m :: r <= m < j ==> iterators[m] == list[m + 1]
          invariant forall m :: j <= m < |list| ==> iterators[m] == list[m]
        {
          iterators[j] := iterators[j + 1];
        }
      }
    }

    /** Drops all iterators, from the last to the first, and makes them point nowhere. */
    method Clear(ghost list: seq<IteratorNode>)
      requires Lists(list)
      modifies this, list
      ensures Lists([]) && iterators == old(iterators)
      ensures forall n :: n in list ==> n.c == null
    {
      while end != 0
        invariant iterators == old(iterators) && end <= |list| <= iterators.Length
        invariant forall j :: 0 <= j < |list| ==> iterators[j] == list[j]
        invariant forall j :: end <= j < |list| ==> list[j].c == null
      {
        end := end - 1;
        var n := iterators[end];
        n.c := null;
      }
    }

    /** Exchanges the arrays of two containers, which may be the same. */
    method SwapWith(other: ContainerNode, ghost list: seq<IteratorNode>, ghost otherList: seq<IteratorNode>)
      requires Lists(list) && other.Lists(otherList)
      modifies this, other
      ensures Lists(otherList) && other.Lists(list)
      ensures iterators == old(other.iterators) && other.iterators == old(iterators)
    {
      var i, e := iterators, end;
      iterators, end := other.iterators, other.end;
      other.iterators, other.end := i, e;
    }

    /** After a swap: makes all iterators of the array point here. */
    method Adopt(ghost list: seq<IteratorNode>)
      requires Lists(list)
      modifies list
      ensures Lists(list) && forall n :: n in list ==> n.c == this
    {
      for j := 0 to end
        invariant Lists(list) && forall m :: 0 <= m < j ==> list[m].c == this
      {
        var n := iterators[j];
        n.c := this;
      }
    }
  }

  // ----- the nodes and the value -----

  ghost function NodesOf(nodes: NodeMap, list: seq<Address>): seq<IteratorNode>
    requires forall a :: a in list ==> a in nodes
  {
    seq(|list|, j requires 0 <= j < |list| => nodes[list[j]])
  }

  ghost function Target(conts: ContainerMap, o: Option<Address>): ContainerNode? {
    if o.Some? && o.value in conts then conts[o.value] else null
  }

  ghost predicate Injective<T>(m: map<Address, T>) {
    forall a, b :: a in m && b in m && m[a] == m[b] ==> a == b
  }

  /** The iterators' nodes point as the value says. */
  ghost predicate IteratorsMatch(nodes: NodeMap, conts: ContainerMap, owner: OwnerMap)
    reads nodes.Values
  {
    && nodes.Keys == owner.Keys && Injective(nodes) && Injective(conts)
    && forall a :: a in owner ==> nodes[a].c == Target(conts, owner[a])
  }

  /** A container's array holds the nodes of its list. */
  ghost predicate ListMatches(nodes: NodeMap, n: ContainerNode, list: seq<Address>)
    reads n, n.iterators
  {
    (forall a :: a in list ==> a in nodes) && n.Lists(NodesOf(nodes, list))
  }

  /** The containers' arrays, all different, hold what the value says. */
  ghost predicate ContainersMatch(arrays: ArraySet, nodes: NodeMap, conts: ContainerMap,
    lists: ListMap)
    reads conts.Values, arrays
  {
    && conts.Keys == lists.Keys && Injective(conts) && Injective(nodes)
    && (forall k :: k in conts ==> conts[k].c == k && conts[k].iterators in arrays)
    && (forall k :: k in lists ==> ListMatches(nodes, conts[k], lists[k]))
    && ArraysDiffer(conts)
  }

  ghost predicate ArraysDiffer(conts: ContainerMap)
    reads conts.Values
  {
    forall k, l :: k in conts && l in conts && k != l ==> conts[k].iterators != conts[l].iterators
  }

  lemma SameNodes(nodes: NodeMap, others: NodeMap, list: seq<Address>)
    requires forall a :: a in list ==> a in nodes && a in others && nodes[a] == others[a]
    ensures NodesOf(nodes, list) == NodesOf(others, list)
  {
  }

  /** The nodes and arrays are among `records`, and are as the value says. */
  ghost predicate Matches(records: set<object>, arrays: ArraySet, nodes: NodeMap,
    conts: ContainerMap, v: View)
    reads records
  {
    && nodes.Values <= records && conts.Values <= records && arrays <= records
    && Consistent(v)
    && IteratorsMatch(nodes, conts, v.owner)
    && ContainersMatch(arrays, nodes, conts, v.lists)
  }

  lemma NothingMatches()
    ensures Matches({}, {}, map[], map[], View(map[], map[]))
  {
  }

  lemma SameKeys(records: set<object>, arrays: ArraySet, nodes: NodeMap,
    conts: ContainerMap, v: View)
    requires Matches(records, arrays, nodes, conts, v)
    ensures nodes.Keys == v.owner.Keys && conts.Keys == v.lists.Keys && Consistent(v)
  {
  }

  /** A new node for an address that had none. */
  lemma NewIteratorMatches(records: set<object>, arrays: ArraySet, nodes: NodeMap,
    conts: ContainerMap, v: View, i: Address, n: IteratorNode)
    requires Matches(records, arrays, nodes, conts, v) && i !in nodes && n !in records && n.c == null
    ensures Matches(records + {n}, arrays, nodes[i := n], conts, WithIterator(v, i))
  {
    hide Consistent, ContainersMatch;
    IteratorConsistent(v, i);
    NewNodeContainers(arrays, nodes, conts, v.lists, i, n);
  }

  lemma IteratorConsistent(v: View, i: Address)
    requires Consistent(v) && i !in v.owner
    ensures Consistent(WithIterator(v, i))
  {
  }

  lemma NewNodeContainers(arrays: ArraySet, nodes: NodeMap, conts: ContainerMap,
    lists: ListMap, i: Address, n: IteratorNode)
    requires ContainersMatch(arrays, nodes, conts, lists) && i !in nodes && n !in nodes.Values
    ensures ContainersMatch(arrays, nodes[i := n], conts, lists)
  {
    forall k | k in lists ensures ListMatches(nodes[i := n], conts[k], lists[k]) {
      SameNodes(nodes, nodes[i := n], lists[k]);
    }
  }

  // ----- changes to the nodes -----

  /** Puts an iterator at the end of a container's array. */
  method AddToList(cn: ContainerNode, n: IteratorNode, ghost c: Address, ghost i: Address, ghost arrays: ArraySet,
    ghost nodes: NodeMap, ghost conts: ContainerMap, ghost lists: ListMap)
    returns (ghost arrays': ArraySet)
    requires ContainersMatch(arrays, nodes, conts, lists)
    requires c in lists && conts[c] == cn && i in nodes && nodes[i] == n
    modifies cn, cn.iterators
    ensures arrays <= arrays' && fresh(arrays' - arrays)
    ensures ContainersMatch(arrays', nodes, conts, lists[c := lists[c] + [i]])
  {
    assert ListMatches(nodes, cn, lists[c]);
    cn.Add(n, NodesOf(nodes, lists[c]));
    arrays' := arrays + {cn.iterators};
    assert NodesOf(nodes, lists[c] + [i]) == NodesOf(nodes, lists[c]) + [n];
  }

  lemma {:induction false} RemoveFirstNode(nodes: NodeMap, list: seq<Address>, i: Address)
    requires (forall a :: a in list ==> a in nodes) && i in nodes && Injective(nodes)
    ensures forall a :: a in RemoveFirst(list, i) ==> a in list
    ensures NodesOf(nodes, RemoveFirst(list, i)) == RemoveFirst(NodesOf(nodes, list), nodes[i])
  {
    if list == [] {
    } else {
      RemoveFirstNode(nodes, list[1..], i);
      var ns := NodesOf(nodes, list);
      assert ns[1..] == NodesOf(nodes, list[1..]);
      assert ns[0] == nodes[i] <==> list[0] == i;
      var left := RemoveFirst(list[1..], i);
      assert NodesOf(nodes, [list[0]] + left) == [ns[0]] + NodesOf(nodes, left);
    }
  }

  /** Takes an iterator out of a container's array. */
  method RemoveFromList(cn: ContainerNode, n: IteratorNode, ghost c: Address, ghost i: Address, ghost arrays: ArraySet,
    ghost nodes: NodeMap, ghost conts: ContainerMap, ghost lists: ListMap)
    requires ContainersMatch(arrays, nodes, conts, lists)
    requires c in lists && conts[c] == cn && i in nodes && nodes[i] == n && i in lists[c]
    modifies cn, cn.iterators
    ensures ContainersMatch(arrays, nodes, conts, lists[c := RemoveFirst(lists[c], i)])
  {
    assert ListMatches(nodes, cn, lists[c]);
    RemoveFirstNode(nodes, lists[c], i);
    ghost var j :| 0 <= j < |lists[c]| && lists[c][j] == i;
    assert NodesOf(nodes, lists[c])[j] == n;
    cn.Remove(n, NodesOf(nodes, lists[c]));
  }

  method SetOwner(n: IteratorNode, cn: ContainerNode?, ghost i: Address, ghost o: Option<Address>,
    ghost nodes: NodeMap, ghost conts: ContainerMap, ghost owner: OwnerMap)
    requires IteratorsMatch(nodes, conts, owner) && i in nodes && nodes[i] == n && cn == Target(conts, o)
    modifies n
    ensures IteratorsMatch(nodes, conts, owner[i := o])
  {
    n.c := cn;
  }

  /** An iterator that points nowhere comes to point into a container. */
  method Attach(cn: ContainerNode, n: IteratorNode, ghost c: Address, ghost i: Address, ghost records: set<object>,
    ghost arrays: ArraySet, ghost nodes: NodeMap, ghost conts: ContainerMap, ghost v: View)
    returns (ghost records': set<object>, ghost arrays': ArraySet)
    requires Matches(records, arrays, nodes, conts, v)
    requires c in v.lists && c in conts && conts[c] == cn
    requires i in v.owner && v.owner[i] == None && i in nodes && nodes[i] == n
    modifies cn, cn.iterators, n
    ensures Matches(records', arrays', nodes, conts, Attached(v, i, c))
    ensures records <= records' && fresh(records' - records)
  {
    hide ContainersMatch, IteratorsMatch, Consistent;
    arrays' := AddToList(cn, n, c, i, arrays, nodes, conts, v.lists);
    records' := records + arrays';
    SetOwner(n, cn, i, Some(c), nodes, conts, v.owner);
    AttachedConsistent(v, i, c);
  }

  /** An iterator that points into a container comes to point nowhere. */
  method Detach(cn: ContainerNode, n: IteratorNode, ghost c: Address, ghost i: Address, ghost records: set<object>,
    ghost arrays: ArraySet, ghost nodes: NodeMap, ghost conts: ContainerMap, ghost v: View)
    requires Matches(records, arrays, nodes, conts, v) && i in nodes && nodes[i] == n
    requires i in v.owner && v.owner[i] == Some(c) && c in v.lists && c in conts && conts[c] == cn && i in v.lists[c]
    modifies cn, cn.iterators, n
    ensures Matches(records, arrays, nodes, conts, Detached(v, i))
  {
    hide ContainersMatch, IteratorsMatch, Consistent;
    RemoveFromList(cn, n, c, i, arrays, nodes, conts, v.lists);
    SetOwner(n, null, i, None, nodes, conts, v.owner);
    DetachedConsistent(v, i);
  }

  /** Where a registered iterator points. */
  lemma OwnedBy(i: Address, records: set<object>, arrays: ArraySet,
    nodes: NodeMap, conts: ContainerMap, v: View)
    requires Matches(records, arrays, nodes, conts, v) && i in nodes
    ensures i in v.owner && (v.owner[i] == None <==> nodes[i].c == null)
    ensures nodes[i].c != null ==> nodes[i].c.c in v.lists && v.owner[i] == Some(nodes[i].c.c)
    ensures nodes[i].c != null ==>
      nodes[i].c.c in conts && conts[nodes[i].c.c] == nodes[i].c && i in v.lists[nodes[i].c.c]
  {
  }

  lemma NodesInOneList(nodes: NodeMap, list: seq<Address>)
    requires (forall a :: a in list ==> a in nodes) && Injective(nodes)
    ensures forall n :: n in NodesOf(nodes, list) ==> n in nodes.Values
    ensures forall a :: a in nodes ==> (nodes[a] in NodesOf(nodes, list) <==> a in list)
  {
    var ns := NodesOf(nodes, list);
    forall j | 0 <= j < |ns| ensures ns[j] in nodes.Values && list[j] in nodes {
      assert list[j] in list;
    }
    forall a | a in nodes ensures nodes[a] in ns <==> a in list {
      if a in list {
        var j :| 0 <= j < |ns| && list[j] == a;
        assert ns[j] == nodes[a];
      }
    }
  }

  /** Empties one container's array and disowns the iterators in it. */
  method ClearOne(cn: ContainerNode, ghost nodes: NodeMap, ghost list: seq<Address>)
    requires ListMatches(nodes, cn, list) && Injective(nodes)
    modifies cn, nodes.Values
    ensures ListMatches(nodes, cn, []) && cn.iterators == old(cn.iterators)
    ensures forall a :: a in nodes ==> nodes[a].c == if a in list then null else old(nodes[a].c)
  {
    NodesInOneList(nodes, list);
    hide Injective;
    cn.Clear(NodesOf(nodes, list));
    assert NodesOf(nodes, []) == [];
  }

  method ClearArray(cn: ContainerNode, ghost c: Address, ghost arrays: ArraySet,
    ghost nodes: NodeMap, ghost conts: ContainerMap, ghost lists: ListMap)
    requires ContainersMatch(arrays, nodes, conts, lists) && c in lists && c in conts && conts[c] == cn
    modifies cn, nodes.Values
    ensures ContainersMatch(arrays, nodes, conts, lists[c := []])
    ensures forall a :: a in nodes ==> nodes[a].c == if a in lists[c] then null else old(nodes[a].c)
  {
    hide Injective, ArraysDiffer, ListMatches, NodesOf;
    ghost var arrayOf := map k | k in conts :: conts[k].iterators;
    ArraysOf(conts, arrayOf);
    OtherNodes(conts, c);
    ClearOne(cn, nodes, lists[c]);
    SwappedArraysDiffer(conts, arrayOf, c, c);
    forall k | k in lists && k != c ensures ListMatches(nodes, conts[k], lists[k]) {
      assert old(ListMatches(nodes, conts[k], lists[k]));
    }
    ListReplaced(arrays, nodes, conts, lists, c, []);
  }

  lemma ListReplaced(
    arrays: ArraySet, nodes: NodeMap, conts: ContainerMap, lists: ListMap, c: Address, list: seq<Address>)
    requires conts.Keys == lists.Keys && Injective(conts) && Injective(nodes) && ArraysDiffer(conts)
    requires forall k :: k in conts ==> conts[k].c == k && conts[k].iterators in arrays
    requires c in lists && ListMatches(nodes, conts[c], list)
    requires forall k :: k in lists && k != c ==> ListMatches(nodes, conts[k], lists[k])
    ensures ContainersMatch(arrays, nodes, conts, lists[c := list])
  {
    hide ArraysDiffer, Injective, ListMatches;
  }

  /** A container's iterators come to point nowhere. */
  method ClearList(cn: ContainerNode, ghost c: Address, ghost records: set<object>,
    ghost arrays: ArraySet, ghost nodes: NodeMap, ghost conts: ContainerMap, ghost v: View)
    requires Matches(records, arrays, nodes, conts, v) && c in v.lists && c in conts && conts[c] == cn
    modifies cn, nodes.Values
    ensures Matches(records, arrays, nodes, conts, Invalidated(v, c))
  {
    hide ContainersMatch;
    InvalidatedConsistent(v, c);
    ClearArray(cn, c, arrays, nodes, conts, v.lists);
  }

  /** Exchanges the arrays of two containers. */
  method SwapTwo(cn1: ContainerNode, cn2: ContainerNode, ghost nodes: NodeMap,
    ghost list1: seq<Address>, ghost list2: seq<Address>)
    requires ListMatches(nodes, cn1, list1) && ListMatches(nodes, cn2, list2)
    modifies cn1, cn2
    ensures ListMatches(nodes, cn1, list2) && ListMatches(nodes, cn2, list1)
    ensures cn1.iterators == old(cn2.iterators) && cn2.iterators == old(cn1.iterators)
  {
    hide NodesOf, ContainerNode.Lists;
    cn1.SwapWith(cn2, NodesOf(nodes, list1), NodesOf(nodes, list2));
  }

  /** Exchanges the arrays of two registered containers. */
  method SwapArrays(cn1: ContainerNode, cn2: ContainerNode, ghost c1: Address, ghost c2: Address,
    ghost arrays: ArraySet, ghost nodes: NodeMap, ghost conts: ContainerMap, ghost lists: ListMap)
    requires ContainersMatch(arrays, nodes, conts, lists)
    requires c1 in lists && c2 in lists && c1 in conts && c2 in conts && conts[c1] == cn1 && conts[c2] == cn2
    modifies cn1, cn2
    ensures ContainersMatch(arrays, nodes, conts, SwappedLists(lists, c1, c2))
  {
    hide ArraysDiffer, Injective, ListMatches, SwappedLists;
    ghost var arrayOf := map k | k in conts :: conts[k].iterators;
    ArraysOf(conts, arrayOf);
    OtherNodes(conts, c1);
    OtherNodes(conts, c2);
    SwapTwo(cn1, cn2, nodes, lists[c1], lists[c2]);
    SwappedArraysDiffer(conts, arrayOf, c1, c2);
    forall k | k in lists && k != c1 && k != c2 ensures ListMatches(nodes, conts[k], lists[k]) {
      assert old(ListMatches(nodes, conts[k], lists[k]));
    }
    ListsSwapped(arrays, nodes, conts, lists, c1, c2);
  }

  lemma ListsSwapped(arrays: ArraySet, nodes: NodeMap, conts: ContainerMap,
    lists: ListMap, c1: Address, c2: Address)
    requires conts.Keys == lists.Keys && Injective(conts) && Injective(nodes) && ArraysDiffer(conts)
    requires forall k :: k in conts ==> conts[k].c == k && conts[k].iterators in arrays
    requires c1 in lists && c2 in lists
    requires ListMatches(nodes, conts[c1], lists[c2]) && ListMatches(nodes, conts[c2], lists[c1])
    requires forall k :: k in lists && k != c1 && k != c2 ==> ListMatches(nodes, conts[k], lists[k])
    ensures ContainersMatch(arrays, nodes, conts, SwappedLists(lists, c1, c2))
  {
    hide ArraysDiffer, Injective, ListMatches;
  }

  lemma OtherNodes(conts: ContainerMap, c: Address)
    requires Injective(conts) && c in conts
    ensures forall k :: k in conts && k != c ==> conts[k] != conts[c]
  {
  }

  lemma ArraysOf(conts: ContainerMap, arrayOf: map<Address, array<IteratorNode?>>)
    requires ArraysDiffer(conts) && arrayOf.Keys == conts.Keys
    requires forall k :: k in conts ==> arrayOf[k] == conts[k].iterators
    ensures Injective(arrayOf)
  {
  }

  lemma SwappedArraysDiffer(conts: ContainerMap, arrayOf: map<Address, array<IteratorNode?>>, c1: Address, c2: Address)
    requires Injective(arrayOf) && arrayOf.Keys == conts.Keys && c1 in conts && c2 in conts
    requires forall k :: k in conts ==> conts[k].iterators == arrayOf[Partner(k, c1, c2)]
    ensures ArraysDiffer(conts)
  {
  }

  /** The iterators in a container's array come to point to it. */
  method AdoptList(cn: ContainerNode, ghost c: Address, ghost arrays: ArraySet,
    ghost nodes: NodeMap, ghost conts: ContainerMap, ghost lists: ListMap)
    requires ContainersMatch(arrays, nodes, conts, lists) && c in lists && c in conts && conts[c] == cn
    modifies nodes.Values
    ensures ContainersMatch(arrays, nodes, conts, lists)
    ensures forall a :: a in nodes ==> nodes[a].c == if a in lists[c] then cn else old(nodes[a].c)
  {
    assert ListMatches(nodes, cn, lists[c]);
    NodesInOneList(nodes, lists[c]);
    hide ContainersMatch;
    cn.Adopt(NodesOf(nodes, lists[c]));
  }

  /** Exchanges the arrays of two containers and makes the iterators follow. */
  method SwapLists(cn1: ContainerNode, cn2: ContainerNode, ghost c1: Address, ghost c2: Address,
    ghost records: set<object>, ghost arrays: ArraySet, ghost nodes: NodeMap, ghost conts: ContainerMap, ghost v: View)
    requires Matches(records, arrays, nodes, conts, v)
    requires c1 in v.lists && c2 in v.lists && c1 in conts && c2 in conts && conts[c1] == cn1 && conts[c2] == cn2
    modifies cn1, cn2, nodes.Values
    ensures Matches(records, arrays, nodes, conts, Swapped(v, c1, c2))
  {
    hide ContainersMatch, Consistent;
    SwappedConsistent(v, c1, c2);
    ghost var lists := Swapped(v, c1, c2).lists;
    SwapArrays(cn1, cn2, c1, c2, arrays, nodes, conts, v.lists);
    AdoptList(cn1, c1, arrays, nodes, conts, lists);
    AdoptList(cn2, c2, arrays, nodes, conts, lists);
    OwnersSwapped(nodes, conts, v, c1, c2);
  }

  lemma OwnersSwapped(nodes: NodeMap, conts: ContainerMap, v: View, c1: Address, c2: Address)
    requires Consistent(v) && nodes.Keys == v.owner.Keys && Injective(nodes) && Injective(conts)
    requires c1 in v.lists && c2 in v.lists && c1 in conts && c2 in conts
    requires forall a :: a in nodes ==>
      nodes[a].c ==
        if a in v.lists[c1] then conts[c2] else if a in v.lists[c2] then conts[c1] else Target(conts, v.owner[a])
    ensures IteratorsMatch(nodes, conts, Swapped(v, c1, c2).owner)
  {
    hide Injective;
  }

  /** What an iterator that has left the table leaves behind once it is off its container's list. */
  lemma ForgetIterator(i: Address, records: set<object>, arrays: ArraySet,
    nodes: NodeMap, conts: ContainerMap, v: View, left: View)
    requires nodes.Values <= records && conts.Values <= records && arrays <= records && i in nodes
    requires IteratorsMatch(nodes, conts, v.owner) && left.owner == v.owner[i := None]
    requires ContainersMatch(arrays, nodes, conts, left.lists) && Consistent(left)
    ensures Matches(records, arrays, nodes - {i}, conts, View(left.owner - {i}, left.lists))
  {
    forall k | k in left.lists ensures ListMatches(nodes - {i}, conts[k], left.lists[k]) {
      assert ListMatches(nodes, conts[k], left.lists[k]);
      assert left.owner[i] == None;
      assert i !in left.lists[k];
      SameNodes(nodes, nodes - {i}, left.lists[k]);
    }
  }

  /** Takes an erased iterator out of its container's array; its node is already off the table. */
  method TakeOut(cn: ContainerNode, n: IteratorNode, ghost i: Address, ghost records: set<object>,
    ghost arrays: ArraySet, ghost nodes: NodeMap, ghost conts: ContainerMap, ghost v: View)
    requires Matches(records, arrays, nodes, conts, v) && i in nodes && nodes[i] == n && n.c == cn
    requires i in v.owner && v.owner[i] == Some(cn.c) && cn.c in v.lists
    modifies cn, cn.iterators
    ensures Matches(records, arrays, nodes - {i}, conts, WithoutIterator(v, i))
  {
    OwnedBy(i, records, arrays, nodes, conts, v);
    hide ContainersMatch, IteratorsMatch, Consistent;
    RemoveFromList(cn, n, cn.c, i, arrays, nodes, conts, v.lists);
    DetachedConsistent(v, i);
    ForgetIterator(i, records, arrays, nodes, conts, v, Detached(v, i));
  }

  lemma NowhereForgotten(i: Address, records: set<object>, arrays: ArraySet,
    nodes: NodeMap, conts: ContainerMap, v: View)
    requires Matches(records, arrays, nodes, conts, v) && i in nodes && i in v.owner && v.owner[i] == None
    ensures Matches(records, arrays, nodes - {i}, conts, WithoutIterator(v, i))
  {
    hide ContainersMatch, IteratorsMatch, Consistent;
    assert v.owner[i := None] == v.owner;
    ForgetIterator(i, records, arrays, nodes, conts, v, v);
  }

  /** A container whose iterators have been disowned can leave. */
  lemma ForgetContainer(c: Address, records: set<object>, arrays: ArraySet,
    nodes: NodeMap, conts: ContainerMap, v: View)
    requires c in v.lists && Consistent(v) && Matches(records, arrays, nodes, conts, Invalidated(v, c))
    ensures Matches(records, arrays, nodes, conts - {c}, WithoutContainer(v, c))
  {
    InvalidatedConsistent(v, c);
    var rest := v.lists - {c};
    assert forall k :: k in rest ==> ListMatches(nodes, conts[k], rest[k]);
  }

  /** A new container without iterators, for an address that had none. */
  lemma NewContainerMatches(records: set<object>, arrays: ArraySet, nodes: NodeMap,
    conts: ContainerMap, v: View, c: Address, n: ContainerNode)
    requires Matches(records, arrays, nodes, conts, v) && c !in conts && n !in records && n.iterators !in arrays
    requires n.c == c && n.Lists([])
    ensures var v' := v.(lists := v.lists[c := []]);
      Matches(records + {n, n.iterators}, arrays + {n.iterators}, nodes, conts[c := n], v')
  {
    assert c !in v.lists && n !in conts.Values;
    NewContainerArrays(arrays, nodes, conts, v.lists, c, n);
    NewContainerOwners(nodes, conts, v, c, n);
    hide ContainersMatch, IteratorsMatch, Consistent;
  }

  lemma NewContainerOwners(nodes: NodeMap, conts: ContainerMap, v: View, c: Address, n: ContainerNode)
    requires Consistent(v) && IteratorsMatch(nodes, conts, v.owner) && c !in v.lists && n !in conts.Values
    ensures IteratorsMatch(nodes, conts[c := n], v.owner) && Consistent(v.(lists := v.lists[c := []]))
  {
    forall a | a in v.owner ensures Target(conts[c := n], v.owner[a]) == Target(conts, v.owner[a]) {
      assert v.owner[a].Some? ==> v.owner[a].value in v.lists;
    }
  }

  lemma NewContainerArrays(arrays: ArraySet, nodes: NodeMap,
    conts: ContainerMap, lists: ListMap, c: Address, n: ContainerNode)
    requires ContainersMatch(arrays, nodes, conts, lists) && c !in conts && n !in conts.Values && n.iterators !in arrays
    requires n.c == c && n.Lists([])
    ensures ContainersMatch(arrays + {n.iterators}, nodes, conts[c := n], lists[c := []])
  {
    assert NodesOf(nodes, []) == [];
    forall k | k in lists ensures ListMatches(nodes, conts[k], lists[k]) {
      assert ListMatches(nodes, conts[k], lists[k]);
    }
  }

  /** The two tables. */
  class Tables {
    const iterators: Table<IteratorNode>
    const containers: Table<ContainerNode>
    ghost var nodes: NodeMap
    ghost var conts: ContainerMap
    ghost var repr: set<object>

    ghost predicate Valid()
      reads this, repr
    {
      && this in repr && iterators in repr && containers in repr
      && iterators.repr + containers.repr <= repr && iterators.repr !! containers.repr
      && this !in iterators.repr + containers.repr
      && iterators in iterators.repr && containers in containers.repr
      && iterators.Valid() && containers.Valid()
      && nodes == iterators.contents && conts == containers.contents
    }

    constructor (hash: Address -> nat, word: NextPrime.Word)
      ensures Valid() && this in repr && fresh(repr - {this}) && nodes == map[] && conts == map[]
    {
      hide Table.Valid, Table.HasRoom;
      iterators := new Table(hash, word);
      containers := new Table(hash, word);
      nodes, conts := map[], map[];
      new;
      repr := {this} + iterators.repr + containers.repr;
    }

    method InsertIterator(i: Address, n: IteratorNode) returns (ok: bool)
      requires Valid() && i !in nodes
      modifies repr
      ensures Valid() && this in repr && fresh(repr - old(repr))
      ensures ok <==> old(iterators.HasRoom())
      ensures conts == old(conts) && nodes == if ok then old(nodes)[i := n] else old(nodes)
    {
      hide Table.Valid, Table.HasRoom;
      ok := iterators.Insert(i, n);
      nodes := iterators.contents;
      repr := repr + iterators.repr;
    }

    method InsertContainer(c: Address, n: ContainerNode) returns (ok: bool)
      requires Valid() && c !in conts
      modifies repr
      ensures Valid() && this in repr && fresh(repr - old(repr))
      ensures ok <==> old(containers.HasRoom())
      ensures nodes == old(nodes) && conts == if ok then old(conts)[c := n] else old(conts)
    {
      hide Table.Valid, Table.HasRoom;
      ok := containers.Insert(c, n);
      conts := containers.contents;
      repr := repr + containers.repr;
    }

    method RemoveIterator(i: Address) returns (n: IteratorNode?)
      requires Valid()
      modifies repr
      ensures Valid() && this in repr && repr == old(repr)
      ensures n == if i in old(nodes) then old(nodes)[i] else null
      ensures nodes == old(nodes) - {i} && conts == old(conts)
    {
      hide Table.Valid, Table.HasRoom;
      var l := iterators.Remove(i);
      n := if l == null then null else l.record;
      nodes := nodes - {i};
    }

    method RemoveContainer(c: Address) returns (n: ContainerNode?)
      requires Valid()
      modifies repr
      ensures Valid() && this in repr && repr == old(repr)
      ensures n == if c in old(conts) then old(conts)[c] else null
      ensures conts == old(conts) - {c} && nodes == old(nodes)
    {
      hide Table.Valid, Table.HasRoom;
      var l := containers.Remove(c);
      n := if l == null then null else l.record;
      conts := conts - {c};
    }

    method FindIterator(i: Address) returns (n: IteratorNode?)
      requires Valid()
      ensures n == if i in nodes then nodes[i] else null
    {
      hide Table.Valid, Table.HasRoom;
      var l := iterators.Find(i);
      n := if l == null then null else l.record;
    }

    method FindContainer(c: Address) returns (n: ContainerNode?)
      requires Valid()
      ensures n == if c in conts then conts[c] else null
    {
      hide Table.Valid, Table.HasRoom;
      var l := containers.Find(c);
      n := if l == null then null else l.record;
    }
  }

  lemma CoveredContainer(c: Address, records: set<object>, arrays: ArraySet, nodes: NodeMap,
    conts: ContainerMap, v: View)
    requires Matches(records, arrays, nodes, conts, v) && c in conts
    ensures c in v.lists && conts[c] in records && conts[c].iterators in records
  {
    assert ListMatches(nodes, conts[c], v.lists[c]);
    assert conts[c] in conts.Values;
  }

  lemma CoveredNodes(records: set<object>, arrays: ArraySet, nodes: NodeMap,
    conts: ContainerMap, v: View)
    requires Matches(records, arrays, nodes, conts, v)
    ensures nodes.Values <= records
  {
  }

  lemma CoveredIterator(i: Address, records: set<object>, arrays: ArraySet, nodes: NodeMap,
    conts: ContainerMap, v: View)
    requires Matches(records, arrays, nodes, conts, v) && i in nodes
    ensures i in v.owner && nodes[i] in records
  {
    assert nodes[i] in nodes.Values;
  }

  lemma ArrayHolds(nodes: NodeMap, cn: ContainerNode, list: seq<Address>, i: Address)
    requires ListMatches(nodes, cn, list) && Injective(nodes) && Distinct(list) && i in nodes
    ensures cn.end <= cn.iterators.Length
    ensures i in list <==> exists j :: 0 <= j < cn.end && cn.iterators[j] == nodes[i]
    ensures forall j, k :: 0 <= j < k < cn.end ==> cn.iterators[j] != cn.iterators[k]
  {
    var ns := NodesOf(nodes, list);
    assert forall j :: 0 <= j < cn.end ==> cn.iterators[j] == ns[j] == nodes[list[j]] && list[j] in list;
    if i in list {
      var j :| 0 <= j < |list| && list[j] == i;
      assert cn.iterators[j] == nodes[i];
    }
    forall j, k | 0 <= j < k < cn.end ensures cn.iterators[j] != cn.iterators[k] {
      assert list[j] != list[k];
    }
  }

  lemma PointsIffListed(i: Address, c: Address, records: set<object>, arrays: ArraySet,
    nodes: NodeMap, conts: ContainerMap, v: View)
    requires Matches(records, arrays, nodes, conts, v) && i in nodes && c in conts
    ensures c in v.lists && Distinct(v.lists[c]) && Injective(nodes)
    ensures nodes[i].c == conts[c] <==> i in v.lists[c]
  {
    hide ListMatches, ArraysDiffer;
    OwnedBy(i, records, arrays, nodes, conts, v);
  }

  class Database {
    const tables: Tables
    ghost var view: View
    ghost var arrays: ArraySet
    ghost var records: set<object>

    ghost function Repr(): set<object>
      reads this, tables
    {
      {this} + tables.repr + records
    }

    ghost predicate Valid()
      reads this, tables, Repr()
    {
      && tables in tables.repr && tables.repr !! records && this !in tables.repr + records
      && tables.Valid()
      && Matches(records, arrays, tables.nodes, tables.conts, view)
    }

    constructor (hash: Address -> nat, word: NextPrime.Word)
      ensures Valid() && fresh(Repr() - {this}) && view == View(map[], map[])
    {
      hide Tables.Valid, Table.Valid, Matches;
      tables := new Tables(hash, word);
      view := View(map[], map[]);
      arrays, records := {}, {};
      new;
      NothingMatches();
    }

    /** In the heap: an iterator's node stands in a container's array, once, exactly if it points there. */
    lemma StandsOnceIffOwned(i: Address, c: Address)
      requires Valid() && i in tables.nodes && c in tables.conts
      ensures var n, cn := tables.nodes[i], tables.conts[c];
        && cn.end <= cn.iterators.Length
        && (n.c == cn <==> exists j :: 0 <= j < cn.end && cn.iterators[j] == n)
        && forall j, k :: 0 <= j < k < cn.end ==> cn.iterators[j] != cn.iterators[k]
    {
      hide Tables.Valid, NodesOf, ArraysDiffer, ContainerNode.Lists;
      PointsIffListed(i, c, records, arrays, tables.nodes, tables.conts, view);
      hide Injective, Distinct, Consistent, IteratorsMatch;
      assert ListMatches(tables.nodes, tables.conts[c], view.lists[c]);
      ArrayHolds(tables.nodes, tables.conts[c], view.lists[c], i);
    }

    /** __insert_iterator.  Fails, changing nothing, exactly if a larger table is needed and cannot be
        allocated. */
    method InsertIterator(i: Address) returns (n: IteratorNode?)
      requires Valid() && i !in view.owner
      modifies Repr()
      ensures Valid() && fresh(Repr() - old(Repr()))
      ensures n != null <==> old(tables.iterators.HasRoom())
      ensures view == if n != null then WithIterator(old(view), i) else old(view)
      ensures tables.conts == old(tables.conts)
      ensures n != null ==> tables.nodes == old(tables.nodes)[i := n]
    {
      hide Matches, Tables.Valid, Consistent, Table.HasRoom;
      SameKeys(records, arrays, tables.nodes, tables.conts, view);
      var r := new IteratorNode(null);
      NewIteratorMatches(records, arrays, tables.nodes, tables.conts, view, i, r);
      var ok := tables.InsertIterator(i, r);
      if !ok {
        return null;
      }
      view := WithIterator(view, i);
      records := records + {r};
      n := r;
    }

    /** A container's node, or an iterator's, as the tables have it. */
    ghost predicate HasContainer(c: Address, cn: ContainerNode)
      reads tables
    {
      c in tables.conts && tables.conts[c] == cn
    }

    ghost predicate HasIterator(i: Address, n: IteratorNode)
      reads tables
    {
      i in tables.nodes && tables.nodes[i] == n
    }

    /** __c_node::__add and __c_ = c, for an iterator that points nowhere. */
    method AttachHere(cn: ContainerNode, n: IteratorNode, ghost c: Address, ghost i: Address)
      requires Valid() && HasContainer(c, cn) && HasIterator(i, n) && i in view.owner && view.owner[i] == None
      modifies {this} + records
      ensures c in old(view).lists && view == Attached(old(view), i, c)
      ensures Valid() && old(records) <= records && fresh(records - old(records))
    {
      hide Matches, Tables.Valid, Consistent, Table.HasRoom;
      CoveredContainer(c, records, arrays, tables.nodes, tables.conts, view);
      CoveredIterator(i, records, arrays, tables.nodes, tables.conts, view);
      ghost var more, all := Attach(cn, n, c, i, records, arrays, tables.nodes, tables.conts, view);
      records, arrays := more, all;
      view := Attached(view, i, c);
    }

    /** __insert_i */
    method InsertI(i: Address) returns (ok: bool)
      requires Valid() && i !in view.owner
      modifies Repr()
      ensures Valid() && fresh(Repr() - old(Repr()))
      ensures ok <==> old(tables.iterators.HasRoom())
      ensures view == if ok then WithIterator(old(view), i) else old(view)
    {
      var n := InsertIterator(i);
      ok := n != null;
    }

    /** __insert_c */
    method InsertC(c: Address) returns (ok: bool)
      requires Valid() && c !in view.lists
      modifies Repr()
      ensures Valid() && fresh(Repr() - old(Repr()))
      ensures ok <==> old(tables.containers.HasRoom())
      ensures view == if ok then old(view).(lists := old(view).lists[c := []]) else old(view)
    {
      hide Matches, Tables.Valid, Consistent, Table.HasRoom;
      SameKeys(records, arrays, tables.nodes, tables.conts, view);
      var n := new ContainerNode(c);
      NewContainerMatches(records, arrays, tables.nodes, tables.conts, view, c, n);
      ok := tables.InsertContainer(c, n);
      if ok {
        view := view.(lists := view.lists[c := []]);
        records, arrays := records + {n, n.iterators}, arrays + {n.iterators};
      }
    }

    /** __insert_ic: an iterator into a container that is not registered is not registered either. */
    method InsertIC(i: Address, c: Address) returns (ok: bool)
      requires Valid() && i !in view.owner
      modifies Repr()
      ensures Valid() && fresh(Repr() - old(Repr()))
      ensures ok <==> c !in old(view).lists || old(tables.iterators.HasRoom())
      ensures view == if ok && c in old(view).lists then Attached(WithIterator(old(view), i), i, c) else old(view)
    {
      hide Matches, Tables.Valid, Consistent, Table.HasRoom;
      SameKeys(records, arrays, tables.nodes, tables.conts, view);
      var cn := tables.FindContainer(c);
      if cn == null {
        return true;
      }
      var n := InsertIterator(i);
      ok := n != null;
      if ok {
        AttachHere(cn, n, c, i);
      }
    }

    /** __c_node::__remove and __c_ = nullptr, for an iterator that points into a container. */
    method DetachHere(cn: ContainerNode, n: IteratorNode, ghost i: Address)
      requires Valid() && HasIterator(i, n) && n.c == cn
      modifies records, this
      ensures i in old(view).owner && old(view).owner[i] == Some(cn.c) && cn.c in old(view).lists
      ensures view == Detached(old(view), i)
      ensures Valid() && records == old(records) && HasIterator(i, n)
      ensures tables.nodes == old(tables.nodes) && tables.conts == old(tables.conts)
    {
      hide Matches, Tables.Valid, Consistent, Table.HasRoom;
      OwnedBy(i, records, arrays, tables.nodes, tables.conts, view);
      CoveredContainer(cn.c, records, arrays, tables.nodes, tables.conts, view);
      CoveredIterator(i, records, arrays, tables.nodes, tables.conts, view);
      Detach(cn, n, cn.c, i, records, arrays, tables.nodes, tables.conts, view);
      view := Detached(view, i);
    }

    /** __invalidate_all */
    method InvalidateAll(c: Address)
      requires Valid()
      modifies Repr()
      ensures Valid() && Repr() == old(Repr())
      ensures view == if c in old(view).lists then Invalidated(old(view), c) else old(view)
    {
      hide Matches, Tables.Valid, Consistent, Table.HasRoom;
      SameKeys(records, arrays, tables.nodes, tables.conts, view);
      var cn := tables.FindContainer(c);
      if cn != null {
        CoveredContainer(c, records, arrays, tables.nodes, tables.conts, view);
        CoveredNodes(records, arrays, tables.nodes, tables.conts, view);
        ClearList(cn, c, records, arrays, tables.nodes, tables.conts, view);
        view := Invalidated(view, c);
      }
    }

    /** __erase_c: unlinks the node first, then disowns its iterators. */
    method EraseC(c: Address)
      requires Valid()
      modifies Repr()
      ensures Valid() && Repr() == old(Repr())
      ensures view == if c in old(view).lists then WithoutContainer(old(view), c) else old(view)
    {
      hide Matches, Tables.Valid, Consistent, Table.HasRoom;
      SameKeys(records, arrays, tables.nodes, tables.conts, view);
      ghost var conts := tables.conts;
      var cn := tables.RemoveContainer(c);
      if cn != null {
        CoveredContainer(c, records, arrays, tables.nodes, conts, view);
        CoveredNodes(records, arrays, tables.nodes, conts, view);
        ClearList(cn, c, records, arrays, tables.nodes, conts, view);
        ForgetContainer(c, records, arrays, tables.nodes, conts, view);
        view := WithoutContainer(view, c);
      } else {
        assert conts - {c} == conts;
      }
    }

    /** __erase_i: unlinks the node first, then takes it out of its container's array. */
    method EraseI(i: Address)
      requires Valid()
      modifies Repr()
      ensures Valid() && Repr() == old(Repr())
      ensures i in old(view).owner && old(view).owner[i].Some? ==> old(view).owner[i].value in old(view).lists
      ensures view == if i in old(view).owner then WithoutIterator(old(view), i) else old(view)
    {
      hide Matches, Tables.Valid, Consistent, Table.HasRoom;
      SameKeys(records, arrays, tables.nodes, tables.conts, view);
      ghost var nodes := tables.nodes;
      var n := tables.RemoveIterator(i);
      if n == null {
        assert nodes - {i} == nodes;
        return;
      }
      OwnedBy(i, records, arrays, nodes, tables.conts, view);
      CoveredIterator(i, records, arrays, nodes, tables.conts, view);
      if n.c != null {
        CoveredContainer(n.c.c, records, arrays, nodes, tables.conts, view);
        TakeOut(n.c, n, i, records, arrays, nodes, tables.conts, view);
      } else {
        NowhereForgotten(i, records, arrays, nodes, tables.conts, view);
      }
      view := WithoutIterator(view, i);
    }

    /** __iterator_copy: i comes to point where i0 points, if anywhere; i is registered if i0 is. */
    method IteratorCopy(i: Address, i0: Address) returns (ok: bool)
      requires Valid()
      modifies Repr()
      ensures Valid() && fresh(Repr() - old(Repr()))
      ensures Consistent(old(view))
      ensures ok <==> i in old(view).owner || i0 !in old(view).owner || old(tables.iterators.HasRoom())
      ensures view == if ok then Copied(old(view), i, i0) else old(view)
    {
      hide Matches, Tables.Valid, Consistent, Table.HasRoom;
      SameKeys(records, arrays, tables.nodes, tables.conts, view);
      var n := tables.FindIterator(i);
      var n0 := tables.FindIterator(i0);
      if n0 != null {
        OwnedBy(i0, records, arrays, tables.nodes, tables.conts, view);
      }
      var c0 := if n0 != null then n0.c else null;
      ok := true;
      if n == null && n0 != null {
        n := InsertIterator(i);
        if n == null {
          return false;
        }
      }
      if n != null {
        Repoint(n, i, c0);
      }
    }

    /** The part of __iterator_copy that moves a registered iterator to the container c0, or nowhere. */
    method Repoint(n: IteratorNode, ghost i: Address, c0: ContainerNode?)
      requires Valid() && HasIterator(i, n) && (c0 != null ==> HasContainer(c0.c, c0))
      modifies {this} + records
      ensures Valid() && old(records) <= records && fresh(records - old(records))
      ensures i in old(view).owner && Consistent(old(view))
      ensures view == Repointed(old(view), i, if c0 == null then None else Some(c0.c))
    {
      hide Matches, Tables.Valid, Consistent, Table.HasRoom;
      SameKeys(records, arrays, tables.nodes, tables.conts, view);
      OwnedBy(i, records, arrays, tables.nodes, tables.conts, view);
      var c := n.c;
      if c != c0 {
        if c != null {
          DetachHere(c, n, i);
        }
        if c0 != null {
          AttachHere(c0, n, c0.c, i);
        }
      }
    }

    /** swap: the arrays change hands, and the iterators follow. */
    method Swap(c1: Address, c2: Address)
      requires Valid() && c1 in view.lists && c2 in view.lists
      modifies Repr()
      ensures Valid() && Repr() == old(Repr()) && view == Swapped(old(view), c1, c2)
    {
      hide Matches, Tables.Valid, Consistent, Table.HasRoom;
      SameKeys(records, arrays, tables.nodes, tables.conts, view);
      var cn1 := tables.FindContainer(c1);
      var cn2 := tables.FindContainer(c2);
      CoveredContainer(c1, records, arrays, tables.nodes, tables.conts, view);
      CoveredContainer(c2, records, arrays, tables.nodes, tables.conts, view);
      CoveredNodes(records, arrays, tables.nodes, tables.conts, view);
      SwapLists(cn1, cn2, c1, c2, records, arrays, tables.nodes, tables.conts, view);
      view := Swapped(view, c1, c2);
    }

    /** __find_c_from_i: the container an iterator points into. */
    method FindCFromI(i: Address) returns (c: Option<Address>)
      requires Valid() && i in view.owner
      ensures c == view.owner[i]
    {
      hide Matches, Tables.Valid, Consistent, Table.HasRoom;
      SameKeys(records, arrays, tables.nodes, tables.conts, view);
      var n := tables.FindIterator(i);
      OwnedBy(i, records, arrays, tables.nodes, tables.conts, view);
      c := if n.c == null then None else Some(n.c.c);
    }

    /** __less_than_comparable: both point into the same container. */
    method LessThanComparable(i: Address, j: Address) returns (r: bool)
      requires Valid()
      ensures r <==> i in view.owner && j in view.owner && view.owner[i].Some? && view.owner[i] == view.owner[j]
    {
      hide Matches, Tables.Valid, Consistent, Table.HasRoom;
      SameKeys(records, arrays, tables.nodes, tables.conts, view);
      var n := tables.FindIterator(i);
      var m := tables.FindIterator(j);
      if n != null {
        OwnedBy(i, records, arrays, tables.nodes, tables.conts, view);
      }
      if m != null {
        OwnedBy(j, records, arrays, tables.nodes, tables.conts, view);
      }
      var ci := if n != null then n.c else null;
      var cj := if m != null then m.c else null;
      r := ci != null && ci == cj;
    }
  }
}
