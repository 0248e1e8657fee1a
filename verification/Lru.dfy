/** The benchmark's least-recently-used cache: a doubly linked list in recency order threaded
    through hash chains. */
module Lru {
  import opened Recency

  class LruNode {
    var key: real
    var listPrev: LruNode?
    var listNext: LruNode?
    var hashNext: LruNode?

    constructor (key: real)
      ensures this.key == key
    {
      this.key := key;
      listPrev, listNext, hashNext := null, null, null;
    }
  }

  function At(s: seq<LruNode>, i: int): LruNode? {
    if 0 <= i < |s| then s[i] else null
  }

  ghost predicate Distinct(s: seq<LruNode>) {
    forall i, j :: 0 <= i < j < |s| ==> s[i] != s[j]
  }

  ghost function Removed(s: seq<LruNode>, k: nat): seq<LruNode>
    requires k < |s|
  {
    s[..k] + s[k + 1..]
  }

  /** The pointers of the nodes of s, as values. */
  ghost function Prevs(s: seq<LruNode>): (p: seq<LruNode?>)
    reads s
    ensures |p| == |s| && forall i :: 0 <= i < |s| ==> p[i] == s[i].listPrev
  {
    seq(|s|, i requires 0 <= i < |s| reads s => s[i].listPrev)
  }

  ghost function Nexts(s: seq<LruNode>): (p: seq<LruNode?>)
    reads s
    ensures |p| == |s| && forall i :: 0 <= i < |s| ==> p[i] == s[i].listNext
  {
    seq(|s|, i requires 0 <= i < |s| reads s => s[i].listNext)
  }

  /** The pointers p and n thread the nodes of s, first to last. */
  ghost predicate Threaded(s: seq<LruNode>, p: seq<LruNode?>, n: seq<LruNode?>, head: LruNode?, tail: LruNode?) {
    && |p| == |n| == |s|
    && head == At(s, 0) && tail == At(s, |s| - 1)
    && forall i :: 0 <= i < |s| ==> p[i] == At(s, i - 1) && n[i] == At(s, i + 1)
  }

  ghost predicate Listed(order: seq<LruNode>, head: LruNode?, tail: LruNode?)
    reads order
  {
    Threaded(order, Prevs(order), Nexts(order), head, tail)
  }

  ghost function Hashes(s: seq<LruNode>): (h: seq<LruNode?>)
    reads s
    ensures |h| == |s| && forall i :: 0 <= i < |s| ==> h[i] == s[i].hashNext
  {
    seq(|s|, i requires 0 <= i < |s| reads s => s[i].hashNext)
  }

  /** The pointers h thread the nodes of s from the first. */
  ghost predicate Linked(s: seq<LruNode>, h: seq<LruNode?>, first: LruNode?) {
    |h| == |s| && first == At(s, 0) && forall i :: 0 <= i < |s| ==> h[i] == At(s, i + 1)
  }

  ghost predicate Chained(chain: seq<LruNode>, first: LruNode?)
    reads chain
  {
    Distinct(chain) && Linked(chain, Hashes(chain), first)
  }

  ghost predicate Contained(chains: seq<seq<LruNode>>, members: seq<LruNode>) {
    forall b, i :: 0 <= b < |chains| && 0 <= i < |chains[b]| ==> chains[b][i] in members
  }

  /** Removing a node from its only chain and from the members. */
  lemma RemovedContained(chains: seq<seq<LruNode>>, members: seq<LruNode>, b: nat, c: nat, k: nat)
    requires Contained(chains, members) && Distinct(members) && k < |members|
    requires b < |chains| && c < |chains[b]| && Distinct(chains[b]) && chains[b][c] == members[k]
    requires forall a :: 0 <= a < |chains| && a != b ==> members[k] !in chains[a]
    ensures Contained(chains[b := Removed(chains[b], c)], Removed(members, k))
  {
    hide Distinct; hide Removed;
    RemovedDistinct(members, k);
    RemovedDistinct(chains[b], c);
    var after := chains[b := Removed(chains[b], c)];
    forall a, i | 0 <= a < |after| && 0 <= i < |after[a]| ensures after[a][i] in Removed(members, k) {
      if a == b {
        assert after[a][i] == chains[b][if i < c then i else i + 1];
        assert after[a][i] in Removed(chains[b], c);
      } else {
        assert chains[a][i] in chains[a];
      }
    }
  }

  lemma AddedContained(chains: seq<seq<LruNode>>, members: seq<LruNode>, b: nat, node: LruNode)
    requires Contained(chains, members) && b < |chains|
    ensures Contained(chains[b := [node] + chains[b]], [node] + members)
  {
    var after := chains[b := [node] + chains[b]];
    forall a, i | 0 <= a < |after| && 0 <= i < |after[a]| ensures after[a][i] in [node] + members {
      if a == b && i > 0 {
        assert after[a][i] == chains[b][i - 1];
      }
    }
  }

  lemma NotInChains(chains: seq<seq<LruNode>>, members: seq<LruNode>, node: LruNode)
    requires Contained(chains, members) && node !in members
    ensures forall a :: 0 <= a < |chains| ==> node !in chains[a]
  {
  }

  /** A node whose hash pointer is the old first node of a chain leads the longer chain. */
  lemma LinkedFront(chain: seq<LruNode>, node: LruNode, first: LruNode?)
    requires Chained(chain, first) && node !in chain && node.hashNext == first
    ensures Chained([node] + chain, node)
  {
    PushedDistinct(chain, node);
    assert forall i :: 1 <= i < |[node] + chain| ==> ([node] + chain)[i] == chain[i - 1];
  }

  ghost function KeysOf(order: seq<LruNode>): (keys: seq<real>)
    reads order
    ensures |keys| == |order| && forall i :: 0 <= i < |keys| ==> keys[i] == order[i].key
  {
    seq(|order|, i requires 0 <= i < |order| reads order => order[i].key)
  }

  /** The hash of a key is a parameter: any function of the key. */
  class LruCache {
    const capacity: nat
    const hash: real -> nat
    const buckets: array<LruNode?>
    var head: LruNode?
    var tail: LruNode?
    var size: nat
    var peakSize: nat

    /** The resident nodes in recency order, and those of each bucket in chain order. */
    ghost var order: seq<LruNode>
    ghost var chains: seq<seq<LruNode>>

    ghost predicate ListOk()
      reads this`order, this`head, this`tail, order
    {
      Distinct(order) && Listed(order, head, tail)
    }

    /** The chain of bucket b holds exactly the members that hash to it. */
    ghost predicate BucketOk(b: nat, members: seq<LruNode>)
      requires b < |chains| && |chains| == buckets.Length
      reads this`chains, buckets, chains[b], members
    {
      && Chained(chains[b], buckets[b])
      && forall n :: n in members ==> (Bucket(n.key) == b <==> n in chains[b])
    }

    ghost predicate ChainsOk(members: seq<LruNode>)
      reads this`chains, buckets, members
    {
      && |chains| == buckets.Length > 0 && Contained(chains, members)
      && forall b :: 0 <= b < |chains| ==> BucketOk(b, members)
    }

    /** Every resident node is once in the list and once in the chain of its bucket; the size
        counts them and stays within the capacity. */
    ghost predicate Valid()
      reads this, buckets, order
    {
      && ListOk() && ChainsOk(order)
      && NoRepeats(KeysOf(order))
      && size == |order| <= peakSize && peakSize <= Bound(capacity)
    }

    function Bucket(key: real): (b: nat)
      ensures buckets.Length > 0 ==> b < buckets.Length
    {
      if buckets.Length == 0 then 0 else hash(key) % buckets.Length
    }

    constructor (capacity: nat, hash: real -> nat)
      ensures Valid() && order == [] && peakSize == 0 && this.capacity == capacity && fresh(buckets)
    {
      this.capacity, this.hash := capacity, hash;
      buckets := new LruNode?[capacity * 4 + 16](_ => null);
      head, tail, size, peakSize := null, null, 0, 0;
      order := [];
      chains := seq(capacity * 4 + 16, _ => []);
    }

    /** Unlinks the k-th node of the list from its neighbours. */
    method UnlinkList(node: LruNode, ghost k: nat)
      requires ListOk() && k < |order| && order[k] == node
      modifies this`head, this`tail, this`order, order
      ensures ListOk() && order == Removed(old(order), k)
      ensures forall n :: n in old(order) ==> n.key == old(n.key) && n.hashNext == old(n.hashNext)
    {
      hide Threaded; hide Distinct; hide At;
      ghost var s, p, n := order, Prevs(order), Nexts(order);
      Neighbours(s, p, n, head, tail, k);
      if node.listPrev != null {
        node.listPrev.listNext := node.listNext;
      } else {
        head := node.listNext;
      }
      if node.listNext != null {
        node.listNext.listPrev := node.listPrev;
      } else {
        tail := node.listPrev;
      }
      order := Removed(s, k);
      RemovedDistinct(s, k);
      RemovedThreads(s, p, n, old(head), old(tail), k, Prevs(order), Nexts(order), head, tail);
    }

    lemma InOneChain(members: seq<LruNode>, node: LruNode, b: nat)
      requires ChainsOk(members) && node in members && b == Bucket(node.key)
      ensures b < |chains| == buckets.Length && node in chains[b] && Chained(chains[b], buckets[b])
      ensures forall i :: 0 <= i < |chains[b]| ==> chains[b][i] in members
      ensures Distinct(chains[b])
      ensures forall a :: 0 <= a < |chains| && a != b ==> node !in chains[a] && Apart(chains[a], chains[b])
    {
      hide Distinct; hide Linked;
      assert BucketOk(b, members);
      forall a | 0 <= a < |chains| && a != b ensures node !in chains[a] && Apart(chains[a], chains[b]) {
        assert BucketOk(a, members);
      }
    }

    /** The node before another in its chain. */
    method Previous(first: LruNode?, node: LruNode, ghost chain: seq<LruNode>, ghost c: nat) returns (prev: LruNode?)
      requires Chained(chain, first) && 0 < c < |chain| && chain[c] == node
      ensures prev == chain[c - 1]
    {
      hide Distinct; hide Linked;
      prev := first;
      ghost var i := 0;
      Bypassed(chain, Hashes(chain), first, c);
      while prev != null && prev.hashNext != node
        invariant 0 <= i < c && prev == chain[i]
        decreases c - i
      {
        LinkAt(chain, Hashes(chain), first, c, i);
        prev := prev.hashNext;
        i := i + 1;
      }
      LinkAt(chain, Hashes(chain), first, c, i);
    }

    /** Takes the c-th node out of a chain: the bucket head or one hash pointer skips it. */
    method BypassChain(node: LruNode, b: nat, ghost chain: seq<LruNode>, ghost c: nat)
      requires b < buckets.Length && Chained(chain, buckets[b]) && c < |chain| && chain[c] == node
      modifies buckets, chain
      ensures Chained(Removed(chain, c), buckets[b])
      ensures forall a :: 0 <= a < buckets.Length && a != b ==> buckets[a] == old(buckets[a])
      ensures forall n :: n in chain ==>
                n.key == old(n.key) && n.listPrev == old(n.listPrev) && n.listNext == old(n.listNext)
    {
      hide Distinct; hide Linked; hide At; hide Removed;
      ghost var h, first := Hashes(chain), buckets[b];
      Bypassed(chain, h, first, c);
      RemovedDistinct(chain, c);
      if buckets[b] == node {
        buckets[b] := node.hashNext;
      } else {
        var prev := Previous(buckets[b], node, chain, c);
        DistinctFrom(chain, c - 1);
        prev.hashNext := node.hashNext;
      }
      RemovedLinks(chain, h, first, c, Hashes(Removed(chain, c)), buckets[b]);
    }

    /** Unlinks a member from the chain of its bucket. */
    method UnlinkChain(node: LruNode, ghost members: seq<LruNode>, ghost k: nat)
      requires ChainsOk(members) && Distinct(members) && k < |members| && members[k] == node
      modifies this`chains, buckets, members
      ensures ChainsOk(Removed(members, k))
      ensures forall n :: n in members ==>
                n.key == old(n.key) && n.listPrev == old(n.listPrev) && n.listNext == old(n.listNext)
    {
      hide Distinct; hide Linked; hide At; hide Removed; hide Contained; hide Chained;
      var b := Bucket(node.key);
      InOneChain(members, node, b);
      ghost var chain := chains[b];
      ghost var c := Position(chain, node);
      RemovedContained(chains, members, b, c, k);
      BypassChain(node, b, chain, c);
      chains := chains[b := Removed(chain, c)];
      RemovedDistinct(chain, c);
      RemovedDistinct(members, k);
      ghost var rest := Removed(members, k);
      forall a | 0 <= a < |chains| ensures BucketOk(a, rest) {
        assert old(BucketOk(a, members));
      }
    }

    /** Puts a detached node at the front of the list. */
    method PushList(node: LruNode)
      requires ListOk() && node !in order
      modifies this`head, this`tail, this`order, node, order
      ensures ListOk() && order == [node] + old(order)
      ensures node.key == old(node.key) && node.hashNext == old(node.hashNext)
      ensures forall n :: n in old(order) ==> n.key == old(n.key) && n.hashNext == old(n.hashNext)
    {
      hide Threaded; hide Distinct; hide At;
      ghost var s, p, n := order, Prevs(order), Nexts(order);
      Ends(s, p, n, head, tail);
      node.listPrev := null;
      node.listNext := head;
      if head != null {
        head.listPrev := node;
      }
      head := node;
      if tail == null {
        tail := node;
      }
      order := [node] + s;
      PushedDistinct(s, node);
      assert forall i :: 1 <= i < |order| ==> order[i] == s[i - 1] && order[i] != node;
      PushedThreads(s, p, n, old(head), old(tail), node, Prevs(order), Nexts(order), tail);
    }

    /** Puts a node at the front of the chain of its bucket. */
    method PushChain(node: LruNode, ghost members: seq<LruNode>)
      requires ChainsOk(members) && node !in members
      modifies this`chains, buckets, node
      ensures ChainsOk([node] + members)
      ensures node.key == old(node.key) && node.listPrev == old(node.listPrev) && node.listNext == old(node.listNext)
    {
      hide Distinct; hide Linked; hide At; hide Contained; hide Chained;
      var b := Bucket(node.key);
      ghost var chain := chains[b];
      AddedContained(chains, members, b, node);
      NotInChains(chains, members, node);
      node.hashNext := buckets[b];
      ghost var first := buckets[b];
      buckets[b] := node;
      chains := chains[b := [node] + chain];
      assert old(BucketOk(b, members));
      LinkedFront(chain, node, first);
      forall a | 0 <= a < |chains| ensures BucketOk(a, [node] + members) {
        assert old(BucketOk(a, members));
      }
    }

    /** Searches one chain. */
    method Find(key: real) returns (node: LruNode?)
      requires Valid()
      ensures node == null <==> key !in KeysOf(order)
      ensures node != null ==> node in order && node.key == key
    {
      hide Distinct; hide Linked; hide At; hide ListOk; hide NoRepeats;
      var b := Bucket(key);
      assert BucketOk(b, order);
      ghost var chain, i := chains[b], 0;
      node := buckets[b];
      ChainStart(chain, Hashes(chain), buckets[b]);
      while node != null
        invariant i <= |chain| && node == At(chain, i)
        invariant forall j :: 0 <= j < i ==> chain[j].key != key
        decreases |chain| - i
      {
        AtIs(chain, i);
        if node.key == key {
          KeyPresent(order, node);
          return;
        }
        ChainNext(chain, Hashes(chain), buckets[b], i);
        node := node.hashNext;
        i := i + 1;
      }
      AtIs(chain, i);
      forall n | n in order ensures n.key != key {
        if n in chain {
          var j :| 0 <= j < |chain| && chain[j] == n;
        }
      }
    }

    /** Unlinking from the list leaves the chains alone. */
    method UnlinkFromList(node: LruNode, ghost k: nat)
      requires ListOk() && ChainsOk(order) && k < |order| && order[k] == node
      modifies this`head, this`tail, this`order, order
      ensures ListOk() && ChainsOk(old(order)) && order == Removed(old(order), k)
      ensures forall n :: n in old(order) ==> n.key == old(n.key)
    {
      hide Distinct; hide Linked; hide Threaded; hide At; hide Removed; hide Contained;
      ghost var members := order;
      UnlinkList(node, k);
      forall a | 0 <= a < |chains| ensures BucketOk(a, members) {
        assert old(BucketOk(a, members));
        ChainMembers(a, members);
        assert Hashes(chains[a]) == old(Hashes(chains[a]));
      }
    }

    /** Unlinks the k-th node from the list and from its chain. */
    method Unlink(node: LruNode, ghost k: nat)
      requires ListOk() && ChainsOk(order) && k < |order| && order[k] == node
      modifies this`head, this`tail, this`order, this`chains, buckets, order
      ensures ListOk() && ChainsOk(order) && order == Removed(old(order), k)
      ensures KeysOf(order) == old(KeysOf(order))[..k] + old(KeysOf(order))[k + 1..]
      ensures node.key == old(node.key)
    {
      hide Distinct; hide Linked; hide Threaded; hide At; hide Removed; hide Contained; hide BucketOk;
      ghost var members, keys := order, KeysOf(order);
      UnlinkFromList(node, k);
      RemovedDistinct(members, k);
      assert forall i :: 0 <= i < |order| ==> order[i] in members;
      ghost var p, n := Prevs(order), Nexts(order);
      UnlinkChain(node, members, k);
      assert Prevs(order) == p && Nexts(order) == n;
      RemovedKeys(keys, k, KeysOf(order));
    }

    /** Pushing onto the list leaves the chains alone. */
    method PushOntoList(node: LruNode)
      requires ListOk() && ChainsOk(order) && node !in order
      modifies this`head, this`tail, this`order, node, order
      ensures ListOk() && ChainsOk(old(order)) && order == [node] + old(order)
      ensures node.key == old(node.key) && forall n :: n in old(order) ==> n.key == old(n.key)
    {
      hide Distinct; hide Linked; hide Threaded; hide At; hide Contained;
      ghost var members := order;
      PushList(node);
      forall a | 0 <= a < |chains| ensures BucketOk(a, members) {
        assert old(BucketOk(a, members));
        ChainMembers(a, members);
        assert Hashes(chains[a]) == old(Hashes(chains[a]));
      }
    }

    /** Puts a detached node at the front of the list and of its chain. */
    method PushFront(node: LruNode)
      requires ListOk() && ChainsOk(order) && node !in order
      modifies this`head, this`tail, this`order, this`chains, buckets, node, order
      ensures ListOk() && ChainsOk(order) && order == [node] + old(order)
      ensures KeysOf(order) == [old(node.key)] + old(KeysOf(order))
    {
      hide Distinct; hide Linked; hide Threaded; hide At; hide Contained; hide BucketOk;
      ghost var members := order;
      PushOntoList(node);
      ghost var p, n := Prevs(order), Nexts(order);
      PushChain(node, members);
      assert Prevs(order) == p && Nexts(order) == n;
    }

    lemma ChainMembers(a: nat, members: seq<LruNode>)
      requires Contained(chains, members) && a < |chains|
      ensures forall n :: n in chains[a] ==> n in members
    {
    }

    /** A hit behind the head: the node moves to the front. */
    method Relink(node: LruNode, ghost k: nat)
      requires Valid() && k < |order| && order[k] == node
      modifies this`head, this`tail, this`order, this`chains, buckets, order
      ensures Valid() && forall i :: 0 <= i < |order| ==> order[i] in old(order)
      ensures KeysOf(order) == [old(node.key)] + Without(old(KeysOf(order)), old(node.key))
    {
      hide ListOk; hide ChainsOk; hide Removed; hide NoRepeats; hide Without; hide Distinct;
      ghost var keys := KeysOf(order);
      WithoutAt(keys, k);
      EndsOf();
      RemovedDistinct(order, k);
      Unlink(node, k);
      PushFront(node);
      Prepend(keys[k], Without(keys, keys[k]));
    }

    /** A hit: a node behind the head is moved there; the head stays. */
    method MoveToFront(node: LruNode)
      requires Valid() && node in order
      modifies this`head, this`tail, this`order, this`chains, buckets, order
      ensures Valid() && forall i :: 0 <= i < |order| ==> order[i] in old(order)
      ensures KeysOf(order) == [old(node.key)] + Without(old(KeysOf(order)), old(node.key))
    {
      hide ListOk; hide ChainsOk; hide NoRepeats; hide Without; hide Distinct;
      ghost var k := Position(order, node);
      EndsOf();
      FirstStays(KeysOf(order));
      if node != head {
        Relink(node, k);
      }
    }

    /** A miss on a full list: the least recent node goes. */
    method Evict()
      requires Valid() && tail != null
      modifies this`head, this`tail, this`order, this`chains, this`size, buckets, order
      ensures Valid() && forall i :: 0 <= i < |order| ==> order[i] in old(order)
      ensures old(|order|) > 0 && size == old(size) - 1
      ensures KeysOf(order) == old(KeysOf(order))[..old(|order|) - 1]
    {
      hide ListOk; hide ChainsOk; hide Removed; hide NoRepeats; hide Without; hide Distinct;
      ghost var keys := KeysOf(order);
      EndsOf();
      WithoutAt(keys, |keys| - 1);
      RemovedDistinct(order, |order| - 1);
      Unlink(tail, |order| - 1);
      size := size - 1;
      assert keys[..|keys| - 1] + keys[|keys| - 1 + 1..] == keys[..|keys| - 1];
    }

    /** Inserts a new node for an absent key. */
    method Insert(key: real)
      requires Valid() && key !in KeysOf(order) && size < Bound(capacity)
      modifies this, buckets, order
      ensures Valid() && forall i :: 0 <= i < |order| ==> order[i] in old(order) || fresh(order[i])
      ensures KeysOf(order) == [key] + old(KeysOf(order))
      ensures peakSize == if size > old(peakSize) then size else old(peakSize)
    {
      hide ListOk; hide ChainsOk; hide NoRepeats;
      ghost var keys := KeysOf(order);
      var node := new LruNode(key);
      PushFront(node);
      Prepend(key, keys);
      size := size + 1;
      if size > peakSize {
        peakSize := size;
      }
    }

    /** Observes a key; true when it was not resident. When memory runs out the key is not
        stored, but the eviction stands and the call reports a hit. */
    method Observe(key: real, allocOk: bool) returns (novel: bool)
      requires Valid()
      modifies this, buckets, order
      ensures Valid() && forall i :: 0 <= i < |order| ==> order[i] in old(order) || fresh(order[i])
      ensures novel <==> old(key !in KeysOf(order)) && allocOk
      ensures novel || old(key in KeysOf(order)) ==> KeysOf(order) == Touch(old(KeysOf(order)), key, capacity)
      ensures old(key !in KeysOf(order)) && !allocOk ==> KeysOf(order) == MakeRoom(old(KeysOf(order)), capacity)
      ensures peakSize == if novel && size > old(peakSize) then size else old(peakSize)
    {
      hide ListOk; hide ChainsOk; hide NoRepeats; hide Without;
      var node := Find(key);
      if node != null {
        MoveToFront(node);
        return false;
      }
      EndsOf();
      if size >= capacity && tail != null {
        Evict();
      }
      if !allocOk {
        return false;
      }
      Insert(key);
      return true;
    }

    lemma EndsOf()
      requires ListOk()
      ensures Distinct(order) && (tail == null <==> order == [])
      ensures order != [] ==> head == order[0] && tail == order[|order| - 1]
      ensures forall j :: 0 <= j < |order| ==> (order[j] == head <==> j == 0)
    {
      hide Distinct; hide Threaded;
      Ends(order, Prevs(order), Nexts(order), head, tail);
    }
  }

  /** Replays a stream through a cache: every report is that of the recency list. */
  method RunLru(points: seq<real>, capacity: nat, hash: real -> nat)
    returns (novelCount: nat, peakMemory: nat, finalMemory: nat)
    ensures novelCount == Misses(points, capacity)
    ensures finalMemory == peakMemory == |Take(Recent(points), Bound(capacity))|
  {
    hide LruCache.ListOk; hide LruCache.ChainsOk; hide NoRepeats; hide Touch; hide Recent; hide Take;
    var cache := new LruCache(capacity, hash);
    novelCount := 0;
    assert points[..0] == [];
    for i := 0 to |points|
      invariant cache.Valid() && fresh(cache) && fresh(cache.buckets) && cache.capacity == capacity
      invariant forall k :: 0 <= k < |cache.order| ==> fresh(cache.order[k])
      invariant KeysOf(cache.order) == Replay(points[..i], capacity) && cache.peakSize == cache.size
      invariant novelCount == Misses(points[..i], capacity)
    {
      assert points[..i + 1][..i] == points[..i];
      TouchGrows(Replay(points[..i], capacity), points[i], capacity);
      var cacheNovel := cache.Observe(points[i], true);
      if cacheNovel {
        novelCount := novelCount + 1;
      }
    }
    assert points[..|points|] == points;
    ReplayIsRecent(points, capacity);
    return novelCount, cache.peakSize, cache.size;
  }

  lemma RemovedKeys(keys: seq<real>, k: nat, after: seq<real>)
    requires k < |keys| == |after| + 1
    requires forall i :: 0 <= i < |after| ==> after[i] == keys[if i < k then i else i + 1]
    ensures after == keys[..k] + keys[k + 1..]
  {
  }

  lemma ChainStart(s: seq<LruNode>, h: seq<LruNode?>, first: LruNode?)
    requires Linked(s, h, first)
    ensures first == At(s, 0)
  {
  }

  lemma ChainNext(s: seq<LruNode>, h: seq<LruNode?>, first: LruNode?, i: nat)
    requires Linked(s, h, first) && i < |s|
    ensures |h| == |s| && h[i] == At(s, i + 1)
  {
  }

  lemma AtIs(s: seq<LruNode>, i: nat)
    ensures At(s, i) == null <==> i >= |s|
    ensures i < |s| ==> At(s, i) == s[i]
  {
  }

  lemma KeyPresent(order: seq<LruNode>, node: LruNode)
    requires node in order
    ensures node.key in KeysOf(order)
  {
    var i :| 0 <= i < |order| && order[i] == node;
    assert KeysOf(order)[i] == node.key;
  }

  lemma Ends(s: seq<LruNode>, p: seq<LruNode?>, n: seq<LruNode?>, head: LruNode?, tail: LruNode?)
    requires Distinct(s) && Threaded(s, p, n, head, tail)
    ensures head == null <==> s == []
    ensures tail == null <==> s == []
    ensures s != [] ==> head == s[0] && tail == s[|s| - 1]
    ensures forall j :: 0 <= j < |s| ==> (s[j] == head <==> j == 0)
  {
  }

  /** The neighbours of the k-th node, and where they are. */
  lemma Neighbours(s: seq<LruNode>, p: seq<LruNode?>, n: seq<LruNode?>, head: LruNode?, tail: LruNode?, k: nat)
    requires Distinct(s) && Threaded(s, p, n, head, tail) && k < |s|
    ensures |p| == |n| == |s|
    ensures p[k] == (if k == 0 then null else s[k - 1]) && n[k] == (if k == |s| - 1 then null else s[k + 1])
    ensures forall j :: 0 <= j < |s| ==> (s[j] == p[k] <==> j == k - 1) && (s[j] == n[k] <==> j == k + 1)
  {
  }

  /** Bypassing the k-th node threads the others. */
  lemma RemovedThreads(s: seq<LruNode>, p: seq<LruNode?>, n: seq<LruNode?>, head: LruNode?, tail: LruNode?, k: nat,
                       p': seq<LruNode?>, n': seq<LruNode?>, head': LruNode?, tail': LruNode?)
    requires Threaded(s, p, n, head, tail) && k < |s| && |p'| == |n'| == |s| - 1
    requires head' == (if k == 0 then n[k] else head) && tail' == (if k == |s| - 1 then p[k] else tail)
    requires forall i :: 0 <= i < |s| - 1 ==> p'[i] == if i == k then p[k] else p[if i < k then i else i + 1]
    requires forall i :: 0 <= i < |s| - 1 ==> n'[i] == if i == k - 1 then n[k] else n[if i < k then i else i + 1]
    ensures Threaded(Removed(s, k), p', n', head', tail')
  {
  }

  lemma PushedThreads(s: seq<LruNode>, p: seq<LruNode?>, n: seq<LruNode?>, head: LruNode?, tail: LruNode?,
                      node: LruNode, p': seq<LruNode?>, n': seq<LruNode?>, tail': LruNode?)
    requires Threaded(s, p, n, head, tail) && |p'| == |n'| == |s| + 1
    requires tail' == if tail == null then node else tail
    requires p'[0] == null && n'[0] == head
    requires forall i :: 1 <= i < |p'| ==> p'[i] == (if i == 1 then node else p[i - 1]) && n'[i] == n[i - 1]
    ensures Threaded([node] + s, p', n', node, tail')
  {
  }

  ghost predicate Apart(s: seq<LruNode>, t: seq<LruNode>) {
    forall n :: n in s ==> n !in t
  }

  lemma DistinctFrom(s: seq<LruNode>, i: nat)
    requires Distinct(s) && i < |s|
    ensures forall j :: 0 <= j < |s| && j != i ==> s[j] != s[i]
  {
  }

  ghost function Position(s: seq<LruNode>, node: LruNode): (c: nat)
    requires node in s
    ensures c < |s| && s[c] == node
  {
    var c :| 0 <= c < |s| && s[c] == node;
    c
  }

  lemma Bypassed(s: seq<LruNode>, h: seq<LruNode?>, first: LruNode?, c: nat)
    requires Distinct(s) && Linked(s, h, first) && c < |s|
    ensures |h| == |s| && (first == s[c] <==> c == 0) && first == s[0]
  {
  }

  lemma RemovedLinks(s: seq<LruNode>, h: seq<LruNode?>, first: LruNode?, c: nat, h': seq<LruNode?>, first': LruNode?)
    requires Linked(s, h, first) && c < |s| && |h'| == |s| - 1
    requires first' == if c == 0 then h[0] else first
    requires forall i :: 0 <= i < |s| - 1 ==> h'[i] == if i == c - 1 then h[c] else h[if i < c then i else i + 1]
    ensures Linked(Removed(s, c), h', first')
  {
  }

  /** Walking a chain towards its c-th node. */
  lemma LinkAt(s: seq<LruNode>, h: seq<LruNode?>, first: LruNode?, c: nat, i: nat)
    requires Distinct(s) && Linked(s, h, first) && i < c < |s|
    ensures |h| == |s| && h[i] == s[i + 1] && (h[i] == s[c] <==> i == c - 1)
  {
  }

  lemma RemovedDistinct(s: seq<LruNode>, k: nat)
    requires Distinct(s) && k < |s|
    ensures Distinct(Removed(s, k)) && |Removed(s, k)| == |s| - 1
    ensures forall i :: 0 <= i < |s| - 1 ==> Removed(s, k)[i] == s[if i < k then i else i + 1]
    ensures forall n :: n in Removed(s, k) <==> n in s && n != s[k]
  {
    var t := Removed(s, k);
    forall i, j | 0 <= i < j < |t| ensures t[i] != t[j] {
      assert t[i] == s[if i < k then i else i + 1] && t[j] == s[if j < k then j else j + 1];
    }
    forall n ensures n in t <==> n in s && n != s[k] {
      if n in s && n != s[k] {
        var i :| 0 <= i < |s| && s[i] == n;
        assert t[if i < k then i else i - 1] == n;
      }
      if n in t {
        var i :| 0 <= i < |t| && t[i] == n;
        assert t[i] == s[if i < k then i else i + 1];
      }
    }
  }

  lemma PushedDistinct(s: seq<LruNode>, node: LruNode)
    requires Distinct(s) && node !in s
    ensures Distinct([node] + s)
  {
    forall i, j | 0 <= i < j < |[node] + s| ensures ([node] + s)[i] != ([node] + s)[j] {
      if i == 0 {
        assert ([node] + s)[j] == s[j - 1];
      }
    }
  }
}
