/** The hash table of hashtable.c:133-194: an array of `m` chains, where a
    key is routed to bucket `UniversalHash(key)` and the operation is
    delegated to that bucket's chain. */
module HashTables {
  import opened Chains
  import opened Hashing

  /** All keys held by a sequence of buckets, with their multiplicities. */
  ghost function Flatten(bs: seq<seq<int>>): multiset<int>
  {
    if bs == [] then multiset{} else Flatten(bs[..|bs| - 1]) + multiset(bs[|bs| - 1])
  }

  /** Replacing bucket `k` by `s` swaps that bucket's copies of `x` for
      those of `s` and leaves the others' copies in place. */
  lemma {:induction false} FlattenUpdateCount(bs: seq<seq<int>>, k: nat, s: seq<int>, x: int)
    requires k < |bs|
    ensures Flatten(bs[k := s])[x] + multiset(bs[k])[x] == Flatten(bs)[x] + multiset(s)[x]
  {
    var n := |bs| - 1;
    if k < n {
      assert bs[k := s][..n] == bs[..n][k := s];
      assert bs[..n][k] == bs[k];
      FlattenUpdateCount(bs[..n], k, s, x);
    } else {
      assert bs[k := s][..n] == bs[..n];
    }
  }

  /** Pushing `v` onto one bucket adds one copy of `v` to the table. */
  lemma FlattenPush(bs: seq<seq<int>>, k: nat, v: int)
    requires k < |bs|
    ensures Flatten(bs[k := [v] + bs[k]]) == Flatten(bs) + multiset{v}
  {
    forall x ensures Flatten(bs[k := [v] + bs[k]])[x] == (Flatten(bs) + multiset{v})[x] {
      FlattenUpdateCount(bs, k, [v] + bs[k], x);
    }
  }

  /** Deleting the first `v` from the bucket that holds every copy of `v`
      takes one copy of `v` out of the table (none if there is none). */
  lemma FlattenRemove(bs: seq<seq<int>>, k: nat, v: int)
    requires k < |bs|
    requires v in Flatten(bs) ==> v in bs[k]
    ensures Flatten(bs[k := RemoveFirst(bs[k], v)]) == Flatten(bs) - multiset{v}
  {
    RemoveFirstMultiset(bs[k], v);
    forall x ensures Flatten(bs[k := RemoveFirst(bs[k], v)])[x] == (Flatten(bs) - multiset{v})[x] {
      FlattenUpdateCount(bs, k, RemoveFirst(bs[k], v), x);
    }
  }

  /** A key is held by the buckets iff some bucket holds it. */
  lemma {:induction false} FlattenMember(bs: seq<seq<int>>, x: int)
    ensures x in Flatten(bs) <==> exists i :: 0 <= i < |bs| && x in bs[i]
  {
    if bs != [] {
      var n := |bs| - 1;
      FlattenMember(bs[..n], x);
      if x in Flatten(bs[..n]) {
        var i :| 0 <= i < n && x in bs[..n][i];
        assert x in bs[i];
      }
      if exists i :: 0 <= i < |bs| && x in bs[i] {
        var i :| 0 <= i < |bs| && x in bs[i];
        if i < n {
          assert x in bs[..n][i];
        }
      }
    }
  }

  /** `m` empty buckets hold no key. */
  lemma {:induction false} FlattenEmpty(bs: seq<seq<int>>)
    requires forall i :: 0 <= i < |bs| ==> bs[i] == []
    ensures Flatten(bs) == multiset{}
  {
    if bs != [] {
      FlattenEmpty(bs[..|bs| - 1]);
    }
  }

  /** The table invariant on the abstract buckets: every key stored in bucket
      `i` hashes to `i`. */
  ghost predicate WellPlaced(hp: HashParams, bs: seq<seq<int>>)
    requires hp.m > 0
  {
    forall i, x :: 0 <= i < |bs| && x in bs[i] ==> UniversalHash(hp, x) == i
  }

  /** The copies of `x` in the table are exactly those in its home bucket. */
  lemma {:induction false} HomeBucketCount(hp: HashParams, bs: seq<seq<int>>, x: int)
    requires hp.m > 0 && |bs| <= hp.m && WellPlaced(hp, bs)
    ensures Flatten(bs)[x] == if UniversalHash(hp, x) < |bs| then multiset(bs[UniversalHash(hp, x)])[x] else 0
  {
    if bs != [] {
      var n := |bs| - 1;
      assert WellPlaced(hp, bs[..n]) by {
        forall i, y | 0 <= i < n && y in bs[..n][i] ensures UniversalHash(hp, y) == i {
          assert bs[..n][i] == bs[i];
        }
      }
      HomeBucketCount(hp, bs[..n], x);
      if UniversalHash(hp, x) != n {
        assert x !in bs[n];
      }
    }
  }

  /** Replacing bucket `k` by a sequence whose keys are either already in
      bucket `k` or hash to `k` keeps every key in its home bucket. */
  lemma WellPlacedUpdate(hp: HashParams, bs: seq<seq<int>>, k: nat, s: seq<int>)
    requires hp.m > 0 && k < |bs| && WellPlaced(hp, bs)
    requires forall x :: x in s ==> x in bs[k] || UniversalHash(hp, x) == k
    ensures WellPlaced(hp, bs[k := s])
  {
  }

  /** The abstract effect of the table's operations on the bucket contents,
      used to state the contracts of `HashTable`'s constructor, `Insert`,
      `Remove` and `Search`: each routes the key to its home bucket
      `UniversalHash(hp, v)`. The lemmas below say what they mean.
      The constructor: `m` empty buckets. */
  function EmptyBuckets(m: nat): (bs: seq<seq<int>>)
    ensures |bs| == m && forall i :: 0 <= i < m ==> bs[i] == []
  {
    seq(m, _ => [])
  }

  /** The effect of `HashTable.Insert`: the key is pushed onto its home bucket. */
  function InsertBuckets(hp: HashParams, bs: seq<seq<int>>, v: int): (r: seq<seq<int>>)
    requires hp.m > 0 && |bs| == hp.m
    ensures |r| == hp.m
  {
    bs[UniversalHash(hp, v) := [v] + bs[UniversalHash(hp, v)]]
  }

  /** The effect of `HashTable.Remove`: the first copy of the key leaves its
      home bucket. */
  function RemoveBuckets(hp: HashParams, bs: seq<seq<int>>, v: int): (r: seq<seq<int>>)
    requires hp.m > 0 && |bs| == hp.m
    ensures |r| == hp.m
  {
    bs[UniversalHash(hp, v) := RemoveFirst(bs[UniversalHash(hp, v)], v)]
  }

  /** The result of `HashTable.Search`: is the key in its home bucket? */
  function SearchBuckets(hp: HashParams, bs: seq<seq<int>>, v: int): bool
    requires hp.m > 0 && |bs| == hp.m
  {
    v in bs[UniversalHash(hp, v)]
  }

  /** Empty buckets hold no key and satisfy the invariant. */
  lemma EmptyWellPlaced(hp: HashParams)
    requires hp.m > 0
    ensures WellPlaced(hp, EmptyBuckets(hp.m)) && Flatten(EmptyBuckets(hp.m)) == multiset{}
  {
    FlattenEmpty(EmptyBuckets(hp.m));
  }

  /** Under the invariant, searching the home bucket is exact membership in
      the table. */
  lemma SearchExact(hp: HashParams, bs: seq<seq<int>>, v: int)
    requires hp.m > 0 && |bs| == hp.m && WellPlaced(hp, bs)
    ensures SearchBuckets(hp, bs, v) <==> v in Flatten(bs)
  {
    FlattenMember(bs, v);
  }

  /** Inserting keeps every key in its home bucket and adds one copy of the
      key. */
  lemma InsertStep(hp: HashParams, bs: seq<seq<int>>, v: int)
    requires hp.m > 0 && |bs| == hp.m && WellPlaced(hp, bs)
    ensures WellPlaced(hp, InsertBuckets(hp, bs, v))
    ensures Flatten(InsertBuckets(hp, bs, v)) == Flatten(bs) + multiset{v}
  {
    var k := UniversalHash(hp, v);
    FlattenPush(bs, k, v);
    WellPlacedUpdate(hp, bs, k, [v] + bs[k]);
  }

  /** Removing keeps every key in its home bucket and takes exactly one copy
      of the key out of the table, or none when it is absent. */
  lemma RemoveStep(hp: HashParams, bs: seq<seq<int>>, v: int)
    requires hp.m > 0 && |bs| == hp.m && WellPlaced(hp, bs)
    ensures WellPlaced(hp, RemoveBuckets(hp, bs, v))
    ensures Flatten(RemoveBuckets(hp, bs, v)) == Flatten(bs) - multiset{v}
  {
    var k := UniversalHash(hp, v);
    SearchExact(hp, bs, v);
    FlattenRemove(bs, k, v);
    RemoveFirstSubset(bs[k], v);
    WellPlacedUpdate(hp, bs, k, RemoveFirst(bs[k], v));
  }

  /** Removing a key right after inserting it restores the buckets exactly. */
  lemma InsertThenRemove(hp: HashParams, bs: seq<seq<int>>, v: int)
    requires hp.m > 0 && |bs| == hp.m
    ensures RemoveBuckets(hp, InsertBuckets(hp, bs, v), v) == bs
  {
  }

  /** A key just inserted is found. */
  lemma SearchAfterInsert(hp: HashParams, bs: seq<seq<int>>, v: int)
    requires hp.m > 0 && |bs| == hp.m
    ensures SearchBuckets(hp, InsertBuckets(hp, bs, v), v)
  {
  }

  /** A key inserted once into a table that did not hold it is not found
      after it is removed. */
  lemma SearchAfterInsertRemove(hp: HashParams, bs: seq<seq<int>>, v: int)
    requires hp.m > 0 && |bs| == hp.m && WellPlaced(hp, bs) && v !in Flatten(bs)
    ensures !SearchBuckets(hp, RemoveBuckets(hp, InsertBuckets(hp, bs, v), v), v)
  {
    InsertThenRemove(hp, bs, v);
    SearchExact(hp, bs, v);
  }

  /** A key inserted twice survives one removal. */
  lemma SearchAfterDuplicateRemove(hp: HashParams, bs: seq<seq<int>>, v: int)
    requires hp.m > 0 && |bs| == hp.m
    ensures SearchBuckets(hp, RemoveBuckets(hp, InsertBuckets(hp, InsertBuckets(hp, bs, v), v), v), v)
  {
    var once := InsertBuckets(hp, bs, v);
    InsertThenRemove(hp, once, v);
    SearchAfterInsert(hp, bs, v);
  }

  /** LinkedList_push on chain `c = cs[k]` among pairwise distinct valid
      chains: the other chains keep their nodes, contents and validity. */
  method PushInBucket(c: Chain, ghost cs: seq<Chain>, ghost k: nat, v: int)
    requires k < |cs| && cs[k] == c
    requires forall i :: 0 <= i < |cs| ==> cs[i].Valid()
    requires forall i, j :: 0 <= i < j < |cs| ==> cs[i] != cs[j]
    modifies c
    ensures forall i :: 0 <= i < |cs| ==> cs[i].Valid()
    ensures forall i :: 0 <= i < |cs| && i != k ==> cs[i].Contents == old(cs[i].Contents) && cs[i].Footprint == old(cs[i].Footprint)
    ensures fresh(c.Footprint - old(c.Footprint))
    ensures c.Contents == [v] + old(c.Contents)
  {
    c.Push(v);
  }

  /** LinkedList_delete on chain `c = cs[k]` among pairwise distinct valid
      chains: the other chains keep their nodes, contents and validity. */
  method DeleteInBucket(c: Chain, ghost cs: seq<Chain>, ghost k: nat, v: int)
    requires k < |cs| && cs[k] == c
    requires forall i :: 0 <= i < |cs| ==> cs[i].Valid()
    requires forall i, j :: 0 <= i < j < |cs| ==> cs[i] != cs[j]
    modifies c, c.Footprint
    ensures forall i :: 0 <= i < |cs| ==> cs[i].Valid() && cs[i].Footprint == old(cs[i].Footprint)
    ensures forall i :: 0 <= i < |cs| && i != k ==> cs[i].Contents == old(cs[i].Contents)
    ensures c.Contents == RemoveFirst(old(c.Contents), v)
  {
    forall j | 0 <= j < |cs| && j != k {
      c.Disjoint(cs[j]);
    }
    c.Delete(v);
  }

  class HashTable {
    const params: HashParams
    const buckets: array<Chain?>
    ghost const Chains: seq<Chain>   // the chain stored in each slot of `buckets`

    /** The nodes of all chains. */
    ghost function Nodes(): set<Node>
      reads Chains
    {
      set i, n | 0 <= i < |Chains| && n in Chains[i].Footprint :: n
    }

    /** The contents of each bucket's chain. */
    ghost function Buckets(): (bs: seq<seq<int>>)
      reads Chains
      ensures |bs| == |Chains|
    {
      seq(|Chains|, i reads Chains requires 0 <= i < |Chains| => Chains[i].Contents)
    }

    /** Slot `i` of the array holds chain `Chains[i]`, no chain appears twice
        (and a chain's nodes are owned by it alone), every chain is valid, and
        every key sits in the bucket it hashes to. */
    ghost predicate Valid()
      reads buckets, Chains, Nodes()
    {
      ValidParams(params) &&
      buckets.Length == params.m && |Chains| == params.m &&
      (forall i :: 0 <= i < buckets.Length ==> buckets[i] == Chains[i]) &&
      (forall i, j :: 0 <= i < j < |Chains| ==> Chains[i] != Chains[j]) &&
      (forall i :: 0 <= i < |Chains| ==> Chains[i].Valid()) &&
      WellPlaced(params, Buckets())
    }

    /** The keys in the table, with their multiplicities. */
    ghost function Elements(): multiset<int>
      reads Chains
    {
      Flatten(Buckets())
    }

    /** create_hash_table: `m` empty chains, built one by one. */
    constructor (hp: HashParams)
      requires ValidParams(hp)
      ensures Valid() && fresh(buckets) && Nodes() == {}
      ensures forall i :: 0 <= i < |Chains| ==> fresh(Chains[i])
      ensures params == hp && Buckets() == EmptyBuckets(hp.m)
      ensures Elements() == multiset{}
    {
      var buck := new Chain?[hp.m];
      ghost var chains: seq<Chain> := [];
      for i := 0 to hp.m
        invariant |chains| == i
        invariant forall j :: 0 <= j < i ==> buck[j] == chains[j]
        invariant forall j :: 0 <= j < i ==>
          fresh(chains[j]) && chains[j].Valid() && chains[j].Contents == [] && chains[j].Footprint == {}
        invariant forall j, l :: 0 <= j < l < i ==> chains[j] != chains[l]
      {
        var c := new Chain();
        buck[i] := c;
        chains := chains + [c];
      }
      params := hp;
      buckets := buck;
      Chains := chains;
      new;
      EmptyWellPlaced(hp);
    }

    /** hash_table_insert: pushes `v` onto its home bucket's chain, the only
        object it changes. */
    method Insert(v: int)
      requires Valid()
      modifies Chains[UniversalHash(params, v)]
      ensures Valid() && fresh(Nodes() - old(Nodes()))
      ensures Buckets() == InsertBuckets(params, old(Buckets()), v)
      ensures Elements() == old(Elements()) + multiset{v}
    {
      var k := UniversalHash(params, v);
      var c := buckets[k];
      PushInBucket(c, Chains, k, v);
      InsertStep(params, old(Buckets()), v);
      assert Buckets() == old(Buckets())[k := c.Contents];
    }

    /** hash_table_search: membership in the home bucket's chain. */
    method Search(v: int) returns (found: bool)
      requires Valid()
      ensures found == SearchBuckets(params, Buckets(), v)
      ensures found <==> v in Elements()
    {
      var k := UniversalHash(params, v);
      found := buckets[k].Mem(v);
      SearchExact(params, Buckets(), v);
    }

    /** hash_table_remove: deletes one copy of `v` from its home bucket's
        chain; only that chain and its nodes change. */
    method Remove(v: int)
      requires Valid()
      modifies Chains[UniversalHash(params, v)], Chains[UniversalHash(params, v)].Footprint
      ensures Valid() && Nodes() <= old(Nodes())
      ensures Buckets() == RemoveBuckets(params, old(Buckets()), v)
      ensures Elements() == old(Elements()) - multiset{v}
    {
      var k := UniversalHash(params, v);
      var c := buckets[k];
      DeleteInBucket(c, Chains, k, v);
      RemoveStep(params, old(Buckets()), v);
      assert Buckets() == old(Buckets())[k := c.Contents];
    }
  }
}
