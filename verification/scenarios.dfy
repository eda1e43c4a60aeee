/** The demonstration run by `main` in hashtable.c, stated over the bucket
    contents the table operations produce. */
module Scenarios {
  import opened Hashing
  import opened HashTables

  /** The buckets after inserting 1, 10 and 20 into an empty table. */
  function DemoBuckets(hp: HashParams): (bs: seq<seq<int>>)
    requires hp.m > 0
    ensures |bs| == hp.m
  {
    InsertBuckets(hp, InsertBuckets(hp, InsertBuckets(hp, EmptyBuckets(hp.m), 1), 10), 20)
  }

  /** After the three insertions the table holds exactly 1, 10 and 20, each
      in its home bucket. */
  lemma DemoContents(hp: HashParams)
    requires hp.m > 0
    ensures WellPlaced(hp, DemoBuckets(hp)) && Flatten(DemoBuckets(hp)) == multiset{1, 10, 20}
  {
    var b0 := EmptyBuckets(hp.m);
    EmptyWellPlaced(hp);
    var b1 := InsertBuckets(hp, b0, 1);
    InsertStep(hp, b0, 1);
    var b2 := InsertBuckets(hp, b1, 10);
    InsertStep(hp, b1, 10);
    InsertStep(hp, b2, 20);
  }

  /** Probing 0..20 finds exactly the three inserted keys. */
  lemma DemoProbes(hp: HashParams)
    requires hp.m > 0
    ensures forall i :: 0 <= i < 21 ==> (SearchBuckets(hp, DemoBuckets(hp), i) <==> i == 1 || i == 10 || i == 20)
  {
    var bs := DemoBuckets(hp);
    DemoContents(hp);
    forall i | 0 <= i < 21
      ensures SearchBuckets(hp, bs, i) <==> i == 1 || i == 10 || i == 20
    {
      SearchExact(hp, bs, i);
    }
  }

  /** After removing 10 it is no longer found. */
  lemma DemoRemove(hp: HashParams)
    requires hp.m > 0
    ensures !SearchBuckets(hp, RemoveBuckets(hp, DemoBuckets(hp), 10), 10)
  {
    var bs := DemoBuckets(hp);
    DemoContents(hp);
    RemoveStep(hp, bs, 10);
    assert Flatten(RemoveBuckets(hp, bs, 10)) == multiset{1, 20};
    SearchExact(hp, RemoveBuckets(hp, bs, 10), 10);
  }

  /** main: a 100-bucket table receives 1, 10 and 20; probing the keys
      0..20 finds exactly those three; after removing 10 it is no longer
      found. `r1` and `r2` stand for the values `rand()` returns, so this
      holds for every choice of hash parameters. */
  lemma MainDemo(r1: nat, r2: nat)
    ensures var hp := InitializeHashParameters(100, r1, r2);
            (forall i :: 0 <= i < 21 ==> (SearchBuckets(hp, DemoBuckets(hp), i) <==> i == 1 || i == 10 || i == 20)) &&
            !SearchBuckets(hp, RemoveBuckets(hp, DemoBuckets(hp), 10), 10)
  {
    var hp := InitializeHashParameters(100, r1, r2);
    DemoProbes(hp);
    DemoRemove(hp);
  }
}
