/** The two hash tables of the debug database (libcxx/src/debug.cpp): an array of buckets, each the
    head of a chain of nodes, that grows to the least prime above twice its length.
  */
module ChainedTable {
  import opened NextPrime
  import opened Sequences

  /** void* */
  type Address = nat

  /** A node of a chain: the address it stands for, the next node, and what else the node holds. */
  class Link<T> {
    const key: Address
    const record: T
    var next: Link?<T>

    constructor (key: Address, record: T, next: Link?<T>)
      ensures this.key == key && this.record == record && this.next == next
    {
      this.key, this.record, this.next := key, record, next;
    }
  }

  /** The k-th node of a chain, null after the last. */
  ghost function At<T>(chain: seq<Link<T>>, k: nat): Link?<T> {
    if k < |chain| then chain[k] else null
  }

  /** The nodes from `head` on, in order, are exactly these. */
  ghost predicate IsChain<T>(head: Link?<T>, chain: seq<Link<T>>)
    reads chain
  {
    && head == At(chain, 0)
    && forall i :: 0 <= i < |chain| ==> chain[i].next == At(chain, i + 1)
  }

  /** Every bucket is the head of its chain. */
  ghost predicate InHeap<T>(buckets: array<Link?<T>>, chains: seq<seq<Link<T>>>)
    reads buckets, LinksOf(chains)
  {
    && buckets.Length == |chains|
    && forall h :: 0 <= h < |chains| ==> IsChain(buckets[h], chains[h])
  }

  ghost function LinksOf<T>(chains: seq<seq<Link<T>>>): set<Link<T>> {
    set h, i | 0 <= h < |chains| && 0 <= i < |chains[h]| :: chains[h][i]
  }

  // ----- the chains as values -----

  /** Every node is on the chain of its own bucket, no address occurs twice, and the nodes are the map. */
  ghost predicate Holds<T>(hash: Address -> nat, chains: seq<seq<Link<T>>>, contents: map<Address, T>) {
    && (forall h, i :: 0 <= h < |chains| && 0 <= i < |chains[h]| ==> InPlace(hash, chains, contents, h, i))
    && (forall h, i, j :: 0 <= h < |chains| && 0 <= i < j < |chains[h]| ==> chains[h][i].key != chains[h][j].key)
    && (forall k :: k in contents ==> 0 < |chains| && Present(chains[hash(k) % |chains|], k))
  }

  ghost predicate InPlace<T>(hash: Address -> nat, chains: seq<seq<Link<T>>>, contents: map<Address, T>, h: nat, i: nat)
    requires h < |chains| && i < |chains[h]|
  {
    var l := chains[h][i];
    hash(l.key) % |chains| == h && l.key in contents && contents[l.key] == l.record
  }

  ghost predicate Present<T>(chain: seq<Link<T>>, k: Address) {
    exists i :: 0 <= i < |chain| && chain[i].key == k
  }

  lemma PushedInPlace<T>(
    hash: Address -> nat, chains: seq<seq<Link<T>>>, contents: map<Address, T>, l: Link<T>, g: nat, i: nat)
    requires Holds(hash, chains, contents) && 0 < |chains| && l.key !in contents
    requires var h := hash(l.key) % |chains|;
      g < |chains| && i < |chains[h := [l] + chains[h]][g]|
    ensures var h := hash(l.key) % |chains|;
      InPlace(hash, chains[h := [l] + chains[h]], contents[l.key := l.record], g, i)
  {
    var h := hash(l.key) % |chains|;
    if g != h {
      assert InPlace(hash, chains, contents, g, i);
    } else if i > 0 {
      assert InPlace(hash, chains, contents, g, i - 1);
    }
  }

  /** For any bucket h: the chains with l put in front of that one. */
  lemma PushedApart<T>(hash: Address -> nat, chains: seq<seq<Link<T>>>, contents: map<Address, T>, l: Link<T>, h: nat)
    requires Holds(hash, chains, contents) && h < |chains| && l.key !in contents
    ensures var chains' := chains[h := [l] + chains[h]];
      forall g, i, j :: 0 <= g < |chains'| && 0 <= i < j < |chains'[g]| ==> chains'[g][i].key != chains'[g][j].key
  {
    var chains': seq<seq<Link<T>>> := chains[h := [l] + chains[h]];
    forall g, i, j | 0 <= g < |chains'| && 0 <= i < j < |chains'[g]| ensures chains'[g][i].key != chains'[g][j].key {
      if g == h {
        assert InPlace(hash, chains, contents, h, j - 1);
      }
    }
  }

  lemma PushedPresent<T>(chains: seq<seq<Link<T>>>, l: Link<T>, h: nat, g: nat, k: Address)
    requires h < |chains| && g < |chains| && (Present(chains[g], k) || (g == h && k == l.key))
    ensures Present(chains[h := [l] + chains[h]][g], k)
  {
    var chains': seq<seq<Link<T>>> := chains[h := [l] + chains[h]];
    if Present(chains[g], k) {
      var i :| 0 <= i < |chains[g]| && chains[g][i].key == k;
      assert chains'[g][if g == h then i + 1 else i].key == k;
    } else {
      assert chains'[h][0].key == k;
    }
  }

  lemma PushHolds<T>(hash: Address -> nat, chains: seq<seq<Link<T>>>, contents: map<Address, T>, l: Link<T>)
    requires Holds(hash, chains, contents) && 0 < |chains| && l.key !in contents
    ensures var h := hash(l.key) % |chains|;
      Holds(hash, chains[h := [l] + chains[h]], contents[l.key := l.record])
  {
    var h := hash(l.key) % |chains|;
    var chains': seq<seq<Link<T>>> := chains[h := [l] + chains[h]];
    var contents' := contents[l.key := l.record];
    forall g, i | 0 <= g < |chains'| && 0 <= i < |chains'[g]| ensures InPlace(hash, chains', contents', g, i) {
      PushedInPlace(hash, chains, contents, l, g, i);
    }
    PushedApart(hash, chains, contents, l, h);
    forall k | k in contents[l.key := l.record]
      ensures Present(chains'[hash(k) % |chains|], k)
    {
      PushedPresent(chains, l, h, hash(k) % |chains|, k);
    }
  }

  lemma DropHolds<T>(hash: Address -> nat, chains: seq<seq<Link<T>>>, contents: map<Address, T>, h: nat, i: nat)
    requires Holds(hash, chains, contents) && h < |chains| && i < |chains[h]|
    ensures Holds(hash, chains[h := Without(chains[h], i)], contents - {chains[h][i].key})
  {
    var key := chains[h][i].key;
    var chain := Without(chains[h], i);
    var chains': seq<seq<Link<T>>> := chains[h := chain];
    forall g, j | 0 <= g < |chains'| && 0 <= j < |chains'[g]| ensures InPlace(hash, chains', contents - {key}, g, j) {
      assert InPlace(hash, chains, contents, h, i);
      assert InPlace(hash, chains, contents, g, if g != h || j < i then j else j + 1);
    }
    forall k | k in contents - {key} ensures Present(chains'[hash(k) % |chains'|], k) {
      var g := hash(k) % |chains|;
      var j :| 0 <= j < |chains[g]| && chains[g][j].key == k;
      assert chains'[g][if g != h || j < i then j else j - 1].key == k;
    }
  }

  lemma EmptyHolds<T>(hash: Address -> nat, chains: seq<seq<Link<T>>>)
    requires forall h :: 0 <= h < |chains| ==> chains[h] == []
    ensures Holds(hash, chains, map[])
  {
  }

  lemma ConsIsChain<T>(l: Link<T>, chain: seq<Link<T>>)
    requires IsChain(l.next, chain)
    ensures IsChain(l, [l] + chain)
  {
    var c := [l] + chain;
    forall i | 0 <= i < |c| ensures c[i].next == At(c, i + 1) {
      assert At(c, i + 1) == At(chain, i);
      if i > 0 {
        assert c[i] == chain[i - 1];
      }
    }
  }

  lemma TailIsChain<T>(head: Link?<T>, chain: seq<Link<T>>)
    requires IsChain(head, chain) && chain != []
    ensures head == chain[0] && IsChain(chain[0].next, chain[1..])
  {
    var c := chain[1..];
    forall i | 0 <= i < |c| ensures c[i].next == At(c, i + 1) {
      assert c[i] == chain[i + 1] && At(c, i + 1) == At(chain, i + 2);
    }
  }

  lemma Unmoved<T>(hash: Address -> nat, chains: seq<seq<Link<T>>>, contents: map<Address, T>, l: Link<T>)
    requires Holds(hash, chains, contents) && l.key !in contents
    ensures l !in LinksOf(chains)
  {
    forall h, i | 0 <= h < |chains| && 0 <= i < |chains[h]| ensures chains[h][i] != l {
      assert InPlace(hash, chains, contents, h, i);
    }
  }

  /** A node stands in one place of one chain only. */
  lemma StandsOnce<T>(hash: Address -> nat, chains: seq<seq<Link<T>>>, contents: map<Address, T>, h: nat, i: nat)
    requires Holds(hash, chains, contents) && h < |chains| && i < |chains[h]|
    ensures forall g, j :: 0 <= g < |chains| && 0 <= j < |chains[g]| && chains[g][j] == chains[h][i] ==>
      g == h && j == i
  {
    assert InPlace(hash, chains, contents, h, i);
    forall g, j | 0 <= g < |chains| && 0 <= j < |chains[g]| && chains[g][j] == chains[h][i] ensures g == h && j == i {
      assert InPlace(hash, chains, contents, g, j);
    }
  }

  /** The addresses of a chain and what their nodes record. */
  ghost predicate Moves<T>(before: map<Address, T>, chain: seq<Link<T>>, after: map<Address, T>) {
    && (forall k :: k in after <==> k in before || Present(chain, k))
    && (forall k :: k in before ==> k in after && after[k] == before[k])
    && (forall i :: 0 <= i < |chain| ==> chain[i].key in after && after[chain[i].key] == chain[i].record)
  }

  ghost predicate KeysApart<T>(chain: seq<Link<T>>) {
    forall i, j :: 0 <= i < j < |chain| ==> chain[i].key != chain[j].key
  }

  lemma MoveOneMore<T>(before: map<Address, T>, chain: seq<Link<T>>, m: nat, between: map<Address, T>)
    requires m < |chain| && KeysApart(chain) && Moves(before, chain[..m], between)
    requires forall i :: 0 <= i < |chain| ==> chain[i].key !in before
    ensures chain[m].key !in between
    ensures Moves(before, chain[..m + 1], between[chain[m].key := chain[m].record])
  {
    var after := between[chain[m].key := chain[m].record];
    assert chain[..m + 1] == chain[..m] + [chain[m]];
    forall k ensures k in after <==> k in before || Present(chain[..m + 1], k) {
      if Present(chain[..m], k) {
        var i :| 0 <= i < m && chain[..m][i].key == k;
        assert chain[..m + 1][i].key == k;
      }
      if k == chain[m].key {
        assert chain[..m + 1][m].key == k;
      }
    }
  }

  lemma LinksAfterPush<T>(chains: seq<seq<Link<T>>>, h: nat, l: Link<T>)
    requires h < |chains|
    ensures LinksOf(chains[h := [l] + chains[h]]) == LinksOf(chains) + {l}
  {
    var chains': seq<seq<Link<T>>> := chains[h := [l] + chains[h]];
    assert chains'[h][0] == l;
    forall x | x in LinksOf(chains) ensures x in LinksOf(chains') {
      var g, i :| 0 <= g < |chains| && 0 <= i < |chains[g]| && chains[g][i] == x;
      assert chains'[g][if g == h then i + 1 else i] == x;
    }
    forall x | x in LinksOf(chains') ensures x in LinksOf(chains) + {l} {
      var g, i :| 0 <= g < |chains'| && 0 <= i < |chains'[g]| && chains'[g][i] == x;
      if g != h {
        assert chains[g][i] == x;
      } else if i > 0 {
        assert chains[g][i - 1] == x;
      }
    }
  }

  /** Puts a node in front of one chain. */
  method PushLink<T>(buckets: array<Link?<T>>, h: nat, l: Link<T>, ghost chains: seq<seq<Link<T>>>)
    requires InHeap(buckets, chains) && h < buckets.Length && l !in LinksOf(chains)
    modifies buckets, l
    ensures InHeap(buckets, chains[h := [l] + chains[h]])
    ensures LinksOf(chains[h := [l] + chains[h]]) == LinksOf(chains) + {l}
  {
    LinksAfterPush(chains, h, l);
    assert IsChain(buckets[h], chains[h]);
    l.next := buckets[h];
    assert IsChain(l.next, chains[h]);
    ConsIsChain(l, chains[h]);
    buckets[h] := l;
  }

  lemma LinksAfterDrop<T>(chains: seq<seq<Link<T>>>, h: nat, i: nat)
    requires h < |chains| && i < |chains[h]|
    ensures LinksOf(chains[h := Without(chains[h], i)]) <= LinksOf(chains)
    ensures chains[h][i] in LinksOf(chains) && (i > 0 ==> chains[h][i - 1] in LinksOf(chains))
  {
  }

  /** Takes the i-th node p off its chain; q is the node before it, or null. */
  method Unlink<T>(buckets: array<Link?<T>>, h: nat, q: Link?<T>, p: Link<T>,
    ghost i: nat, ghost chains: seq<seq<Link<T>>>)
    requires InHeap(buckets, chains) && h < |chains| && i < |chains[h]|
    requires p == chains[h][i] && q == if i == 0 then null else chains[h][i - 1]
    requires forall g, j :: 0 <= g < |chains| && 0 <= j < |chains[g]| && chains[g][j] == q ==> g == h && j == i - 1
    modifies buckets, LinksOf(chains)
    ensures InHeap(buckets, chains[h := Without(chains[h], i)])
  {
    LinksAfterDrop(chains, h, i);
    BucketsAreChains(buckets, chains);
    ghost var chain, left := chains[h], Without(chains[h], i);
    assert IsChain(buckets[h], chain);
    assert p.next == At(chain, i + 1);
    if q == null {
      buckets[h] := p.next;
    } else {
      q.next := p.next;
    }
    forall j | 0 <= j < |left| ensures left[j].next == At(left, j + 1) {
      assert left[j] == chain[if j < i then j else j + 1];
    }
    assert buckets[h] == At(left, 0);
  }

  /** The inner loop of rehashing: one old chain goes, node by node, in front of the new ones. */
  method MoveChain<T>(hash: Address -> nat, buckets: array<Link?<T>>, head: Link?<T>,
    ghost chain: seq<Link<T>>, ghost chains: seq<seq<Link<T>>>, ghost contents: map<Address, T>)
    returns (ghost chains': seq<seq<Link<T>>>, ghost contents': map<Address, T>)
    requires |chains| == buckets.Length > 0 && InHeap(buckets, chains) && Holds(hash, chains, contents)
    requires IsChain(head, chain) && KeysApart(chain) && forall i :: 0 <= i < |chain| ==> chain[i].key !in contents
    modifies buckets, chain
    ensures |chains'| == |chains|
    ensures InHeap(buckets, chains') && Holds(hash, chains', contents') && Moves(contents, chain, contents')
    ensures LinksOf(chains') == LinksOf(chains) + Nodes(chain)
  {
    hide Holds, Moves, KeysApart, InHeap, LinksOf, Nodes, Present;
    chains', contents' := chains, contents;
    var q := head;
    ghost var m := 0;
    NothingMoved(contents, chain);
    NodesGrow(chain, 0);
    assert chain[0..] == chain;
    while q != null
      invariant 0 <= m <= |chain| && IsChain(q, chain[m..])
      invariant |chains'| == |chains| && InHeap(buckets, chains') && Holds(hash, chains', contents')
      invariant Moves(contents, chain[..m], contents')
      invariant LinksOf(chains') == LinksOf(chains) + Nodes(chain[..m])
      decreases |chain| - m
    {
      var l: Link<T> := q;
      TailIsChain(q, chain[m..]);
      MoveOneMore(contents, chain, m, contents');
      NodesGrow(chain, m);
      Unmoved(hash, chains', contents', l);
      PushHolds(hash, chains', contents', l);
      NotAhead(chain, m);
      var h := hash(l.key) % buckets.Length;
      var r := l.next;
      PushLink(buckets, h, l, chains');
      chains' := chains'[h := [l] + chains'[h]];
      contents' := contents'[l.key := l.record];
      q, m := r, m + 1;
    }
    assert chain[..m] == chain;
  }

  /** Rehashing: the outer loop, over the old buckets. */
  method Rehash<T>(hash: Address -> nat, from: array<Link?<T>>, to: array<Link?<T>>,
    ghost chains: seq<seq<Link<T>>>, ghost contents: map<Address, T>, ghost empty: seq<seq<Link<T>>>)
    returns (ghost done: seq<seq<Link<T>>>)
    requires from != to && InHeap(from, chains) && Holds(hash, chains, contents)
    requires |empty| == to.Length > 0 && InHeap(to, empty) && Holds(hash, empty, map[]) && LinksOf(empty) == {}
    modifies to, LinksOf(chains)
    ensures InHeap(to, done) && Holds(hash, done, contents) && LinksOf(done) == LinksOf(chains)
    ensures |done| == |empty|
  {
    hide Holds, InHeap, LinksOf, Nodes, MovedBelow, IsChain, Moves, KeysApart;
    BucketsAreChains(from, chains);
    NoLinks(chains);
    NoneMoved(hash, chains, contents);
    ghost var moved: map<Address, T> := map[];
    done := empty;
    for p := 0 to from.Length
      invariant from[..] == old(from[..])
      invariant |done| == to.Length && InHeap(to, done) && Holds(hash, done, moved)
      invariant LinksOf(done) == LinksOf(chains[..p])
      invariant forall g :: p <= g < |chains| ==> IsChain(from[g], chains[g])
      invariant MovedBelow(hash, contents, |chains|, p, moved)
    {
      ChainApart(hash, chains, contents, p, moved);
      ghost var before := moved;
      done, moved := MoveChain(hash, to, from[p], chains[p], done, moved);
      MovedOneChain(hash, chains, contents, p, before, moved);
      LinksGrow(chains, p);
    }
    assert chains[..from.Length] == chains;
    AllMoved(hash, contents, |chains|, moved);
  }

  lemma NothingMoved<T>(contents: map<Address, T>, chain: seq<Link<T>>)
    ensures Moves(contents, chain[..0], contents)
  {
  }

  ghost function Nodes<T>(chain: seq<Link<T>>): set<Link<T>> {
    set l | l in chain
  }

  lemma NodesGrow<T>(chain: seq<Link<T>>, m: nat)
    requires m <= |chain|
    ensures Nodes(chain[..0]) == {}
    ensures m < |chain| ==> Nodes(chain[..m + 1]) == Nodes(chain[..m]) + {chain[m]}
  {
    if m < |chain| {
      assert chain[..m + 1] == chain[..m] + [chain[m]];
    }
  }

  lemma NoLinks<T>(chains: seq<seq<Link<T>>>)
    ensures LinksOf(chains[..0]) == {}
  {
  }

  lemma LinksGrow<T>(chains: seq<seq<Link<T>>>, p: nat)
    requires p < |chains|
    ensures LinksOf(chains[..p + 1]) == LinksOf(chains[..p]) + Nodes(chains[p])
  {
    forall l | l in LinksOf(chains[..p]) + Nodes(chains[p]) ensures l in LinksOf(chains[..p + 1]) {
      if l in Nodes(chains[p]) {
        var i :| 0 <= i < |chains[p]| && chains[p][i] == l;
        assert chains[..p + 1][p][i] == l;
      } else {
        var h, i :| 0 <= h < p && 0 <= i < |chains[..p][h]| && chains[..p][h][i] == l;
        assert chains[..p + 1][h][i] == l;
      }
    }
    forall l | l in LinksOf(chains[..p + 1]) ensures l in LinksOf(chains[..p]) + Nodes(chains[p]) {
      var h, i :| 0 <= h < p + 1 && 0 <= i < |chains[..p + 1][h]| && chains[..p + 1][h][i] == l;
      if h < p {
        assert chains[..p][h][i] == l;
      }
    }
  }

  lemma NotAhead<T>(chain: seq<Link<T>>, m: nat)
    requires m < |chain| && KeysApart(chain)
    ensures chain[m] !in chain[m + 1..] && chain[m..][1..] == chain[m + 1..]
  {
  }

  function PointerSize(word: Word): nat {
    if word.Word32? then 4 else 8
  }

  /** An array of pointers is allocated exactly if its size in bytes fits the word. */
  predicate Allocatable(word: Word, length: nat) {
    length * PointerSize(word) < word.Modulus()
  }

  /** The next array after one of this length can be allocated. */
  ghost predicate CanGrow(word: Word, length: nat) {
    exists next :: IsLeastPrimeFrom(next, 2 * length + 1) && Allocatable(word, next)
  }

  class Table<T> {
    const hash: Address -> nat
    const word: Word
    var buckets: array<Link?<T>>
    var size: nat
    ghost var chains: seq<seq<Link<T>>>
    ghost var contents: map<Address, T>

    ghost var repr: set<object>

    ghost predicate Valid()
      reads this, repr
    {
      && {this, buckets} + LinksOf(chains) <= repr
      && InHeap(buckets, chains)
      && Holds(hash, chains, contents)
      && size == |contents| <= buckets.Length
      && Allocatable(word, buckets.Length)
    }

    constructor (hash: Address -> nat, word: Word)
      ensures Valid() && this in repr && contents == map[] && fresh(repr) && this.hash == hash && this.word == word
    {
      this.hash, this.word := hash, word;
      buckets := new Link?<T>[0];
      size := 0;
      chains, contents := [], map[];
      repr := {this, buckets};
    }

    function Bucket(key: Address): (h: nat)
      requires buckets.Length > 0
      reads this
      ensures h < buckets.Length
    {
      hash(key) % buckets.Length
    }

    /** A bucket is free, or a longer array can be allocated. */
    ghost predicate HasRoom()
      reads this
    {
      size < buckets.Length || CanGrow(word, buckets.Length)
    }

    /** The node of an address, or null. */
    method Find(key: Address) returns (r: Link?<T>)
      requires Valid()
      ensures r != null <==> key in contents
      ensures r != null ==> r.key == key && r.record == contents[key]
    {
      if buckets.Length == 0 {
        return null;
      }
      var h := Bucket(key);
      ghost var chain := chains[h];
      assert IsChain(buckets[h], chain);
      ghost var i := 0;
      r := buckets[h];
      while r != null
        invariant 0 <= i <= |chain| && r == At(chain, i)
        invariant forall j :: 0 <= j < i ==> chain[j].key != key
        decreases |chain| - i
      {
        if r.key == key {
          assert InPlace(hash, chains, contents, h, i);
          return;
        }
        r, i := r.next, i + 1;
      }
    }

    /** Puts a new node in front of its bucket's chain, after growing if the table is full.  Fails,
        changing no contents, exactly if no bucket is free and the larger array cannot be allocated. */
    method Insert(key: Address, record: T) returns (ok: bool)
      requires Valid() && key !in contents
      modifies repr
      ensures Valid() && this in repr && fresh(repr - old(repr))
      ensures ok <==> old(HasRoom())
      ensures !ok || old(size < buckets.Length) ==> buckets == old(buckets)
      ensures ok && old(size >= buckets.Length) ==> IsLeastPrimeFrom(buckets.Length, 2 * old(buckets.Length) + 1)
      ensures contents == if ok then old(contents)[key := record] else old(contents)
    {
      hide Holds, InHeap, IsLeastPrimeFrom;
      ok := true;
      if size + 1 > buckets.Length {
        ok := Grow();
      }
      if ok {
        Push(key, record);
      }
    }

    method Push(key: Address, record: T)
      requires Valid() && key !in contents && size + 1 <= buckets.Length
      modifies repr
      ensures Valid() && this in repr && fresh(repr - old(repr))
      ensures contents == old(contents)[key := record] && buckets == old(buckets)
    {
      hide Holds, InHeap, LinksOf;
      BucketsAreChains(buckets, chains);
      var h := Bucket(key);
      var r := new Link(key, record, buckets[h]);
      Unmoved(hash, chains, contents, r);
      PushHolds(hash, chains, contents, r);
      PushLink(buckets, h, r, chains);
      chains := chains[h := [r] + chains[h]];
      contents := contents[key := record];
      size := size + 1;
      repr := repr + {r};
    }

    /** Moves every node to a larger array. */
    method Grow() returns (ok: bool)
      requires Valid()
      modifies repr
      ensures Valid() && this in repr && fresh(repr - old(repr))
      ensures contents == old(contents) && size == old(size)
      ensures ok ==> size + 1 <= buckets.Length && IsLeastPrimeFrom(buckets.Length, 2 * old(buckets.Length) + 1)
      ensures ok <==> CanGrow(word, old(buckets.Length))
      ensures !ok ==> buckets == old(buckets)
    {
      hide Holds, LinksOf, IsLeastPrimeFrom;
      BucketsAreChains(buckets, chains);
      var next, _ := NextPrime.NextPrime(word, 2 * buckets.Length + 1);
      LongerThanBefore(word, buckets.Length, next);
      var nc := next.prime;
      ok := Allocatable(word, nc);
      if !ok {
        OneNextLength(word, buckets.Length, nc);
        return;
      }
      var nb := new Link?<T>[nc](_ => null);
      ghost var done: seq<seq<Link<T>>> := seq(nc, _ => []);
      EmptyHolds(hash, done);
      EmptyLinks(done);
      assert InHeap(nb, done);
      done := Rehash(hash, buckets, nb, chains, contents, done);
      buckets, chains := nb, done;
      repr := repr + {nb};
    }

    /** Walks the chain of an address with a pointer to the node before. */
    method Locate(key: Address) returns (q: Link?<T>, p: Link?<T>, ghost i: nat)
      requires Valid() && buckets.Length > 0
      ensures var chain := chains[Bucket(key)];
        && p == At(chain, i) && q == (if i == 0 then null else At(chain, i - 1))
        && (p == null <==> key !in contents)
        && (p != null ==> i < |chain| && p.key == key)
    {
      hide Holds, LinksOf;
      BucketsAreChains(buckets, chains);
      var h := Bucket(key);
      ghost var chain := chains[h];
      i := 0;
      p := buckets[h];
      q := null;
      while p != null && p.key != key
        invariant 0 <= i <= |chain| && p == At(chain, i) && q == (if i == 0 then null else At(chain, i - 1))
        invariant forall j :: 0 <= j < i ==> chain[j].key != key
        decreases |chain| - i
      {
        q, p, i := p, p.next, i + 1;
      }
      if p == null {
        NotThere(hash, chains, contents, key);
      } else {
        RecordOf(hash, chains, contents, h, i);
      }
    }

    /** Unlinks the node l, which Locate has found together with the node q before it. */
    method RemoveLink(key: Address, q: Link?<T>, l: Link<T>, ghost i: nat)
      requires Valid() && buckets.Length > 0 && l.key == key
      requires i < |chains[Bucket(key)]| && l == chains[Bucket(key)][i]
      requires q == if i == 0 then null else chains[Bucket(key)][i - 1]
      modifies repr
      ensures Valid() && this in repr && repr == old(repr)
      ensures contents == old(contents) - {key}
    {
      hide Holds, LinksOf, InHeap, IsChain;
      BucketsAreChains(buckets, chains);
      var h := Bucket(key);
      RecordOf(hash, chains, contents, h, i);
      DropHolds(hash, chains, contents, h, i);
      LinksAfterDrop(chains, h, i);
      if i > 0 {
        StandsOnce(hash, chains, contents, h, i - 1);
      }
      Unlink(buckets, h, q, l, i, chains);
      chains := chains[h := Without(chains[h], i)];
      contents := contents - {key};
      size := size - 1;
    }

    /** Removes an address; returns its node, or null. */
    method Remove(key: Address) returns (p: Link?<T>)
      requires Valid()
      modifies repr
      ensures Valid() && this in repr && repr == old(repr)
      ensures p != null <==> key in old(contents)
      ensures p != null ==> p.key == key && p.record == old(contents)[key]
      ensures contents == old(contents) - {key}
    {
      hide Holds, LinksOf;
      BucketsAreChains(buckets, chains);
      if buckets.Length == 0 {
        NothingThere(hash, chains, contents, key);
        return null;
      }
      var q, l, i := Locate(key);
      p := l;
      if p != null {
        RecordOf(hash, chains, contents, Bucket(key), i);
        RemoveLink(key, q, p, i);
      } else {
        assert contents - {key} == contents;
      }
    }
  }

  lemma BucketsAreChains<T>(buckets: array<Link?<T>>, chains: seq<seq<Link<T>>>)
    requires InHeap(buckets, chains)
    ensures buckets.Length == |chains|
    ensures forall h :: 0 <= h < |chains| ==> IsChain(buckets[h], chains[h])
  {
  }

  /** The next array is longer than the old one, and the search for its length does not overflow. */
  lemma LongerThanBefore(word: Word, length: nat, r: Outcome)
    requires Allocatable(word, length)
    requires r == Overflow <==> 2 * length + 1 > word.Limit()
    requires 2 * length + 1 <= word.Limit() ==> IsLeastPrimeFrom(r.prime, 2 * length + 1)
    ensures 2 * length + 1 <= word.Limit() && r.Found? && r.prime > length
  {
  }

  lemma OneNextLength(word: Word, length: nat, next: nat)
    requires IsLeastPrimeFrom(next, 2 * length + 1)
    ensures CanGrow(word, length) <==> Allocatable(word, next)
  {
    hide Allocatable, IsPrime;
    if other: nat :| IsLeastPrimeFrom(other, 2 * length + 1) && Allocatable(word, other) {
      assert !(other < next) && !(next < other);
    }
  }

  /** The first insertion into a new table finds room: the first array has two buckets. */
  lemma NewTableGrows(word: Word)
    ensures CanGrow(word, 0)
  {
    assert IsPrime(2) && IsLeastPrimeFrom(2, 1);
    assert Allocatable(word, 2);
  }

  lemma EmptyLinks<T>(chains: seq<seq<Link<T>>>)
    requires forall h :: 0 <= h < |chains| ==> chains[h] == []
    ensures LinksOf(chains) == {}
  {
  }

  /** Exactly the addresses of the buckets below p have moved. */
  ghost predicate MovedBelow<T>(
    hash: Address -> nat, contents: map<Address, T>, n: nat, p: nat, moved: map<Address, T>)
  {
    && (forall k :: k in moved ==> k in contents && moved[k] == contents[k])
    && (forall k :: k in contents ==> n > 0 && (k in moved <==> hash(k) % n < p))
  }

  lemma NoneMoved<T>(hash: Address -> nat, chains: seq<seq<Link<T>>>, contents: map<Address, T>)
    requires Holds(hash, chains, contents)
    ensures MovedBelow(hash, contents, |chains|, 0, map[])
  {
  }

  /** The next chain shares neither nodes with the others nor addresses with what has moved. */
  lemma ChainApart<T>(
    hash: Address -> nat, chains: seq<seq<Link<T>>>, contents: map<Address, T>, p: nat, moved: map<Address, T>)
    requires Holds(hash, chains, contents) && p < |chains| && MovedBelow(hash, contents, |chains|, p, moved)
    ensures KeysApart(chains[p]) && forall i :: 0 <= i < |chains[p]| ==> chains[p][i].key !in moved
    ensures forall i :: 0 <= i < |chains[p]| ==> chains[p][i] in LinksOf(chains)
    ensures forall g, j :: 0 <= g < |chains| && 0 <= j < |chains[g]| && g != p ==> chains[g][j] !in chains[p]
  {
    forall i | 0 <= i < |chains[p]|
      ensures chains[p][i].key !in moved
      ensures forall g, j :: 0 <= g < |chains| && 0 <= j < |chains[g]| && g != p ==> chains[g][j] != chains[p][i]
    {
      assert InPlace(hash, chains, contents, p, i);
      StandsOnce(hash, chains, contents, p, i);
    }
  }

  lemma MovedOneChain<T>(hash: Address -> nat, chains: seq<seq<Link<T>>>, contents: map<Address, T>, p: nat,
    before: map<Address, T>, after: map<Address, T>)
    requires Holds(hash, chains, contents) && p < |chains| && MovedBelow(hash, contents, |chains|, p, before)
    requires Moves(before, chains[p], after)
    ensures MovedBelow(hash, contents, |chains|, p + 1, after)
  {
    forall k | k in after ensures k in contents && after[k] == contents[k] && hash(k) % |chains| < p + 1 {
      if k !in before {
        var i :| 0 <= i < |chains[p]| && chains[p][i].key == k;
        assert InPlace(hash, chains, contents, p, i);
      }
    }
  }

  lemma AllMoved<T>(hash: Address -> nat, contents: map<Address, T>, n: nat, moved: map<Address, T>)
    requires MovedBelow(hash, contents, n, n, moved)
    ensures moved == contents
  {
  }

  lemma NothingThere<T>(hash: Address -> nat, chains: seq<seq<Link<T>>>, contents: map<Address, T>, key: Address)
    requires Holds(hash, chains, contents) && |chains| == 0
    ensures key !in contents && contents - {key} == contents
  {
  }

  lemma NotThere<T>(hash: Address -> nat, chains: seq<seq<Link<T>>>, contents: map<Address, T>, key: Address)
    requires Holds(hash, chains, contents) && |chains| > 0
    requires forall j :: 0 <= j < |chains[hash(key) % |chains|]| ==> chains[hash(key) % |chains|][j].key != key
    ensures key !in contents
  {
  }

  lemma RecordOf<T>(hash: Address -> nat, chains: seq<seq<Link<T>>>, contents: map<Address, T>, h: nat, i: nat)
    requires Holds(hash, chains, contents) && h < |chains| && i < |chains[h]|
    ensures chains[h][i].key in contents && contents[chains[h][i].key] == chains[h][i].record
  {
    assert InPlace(hash, chains, contents, h, i);
  }
}
