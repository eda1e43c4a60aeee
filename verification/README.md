# A verified model of a chained hash table of integers

`hashtable.c` implements a fixed-size hash table of `int` keys. Collisions are
resolved by separate chaining: every bucket is a singly linked list, the
`LinkedList`. A key is routed to its bucket by the universal hash
`((((a * key + b) % p) + p) % p) % m`. Here `p = 15733` is prime, `a` and `b`
are drawn at random, and `m` is the number of buckets.

This project models the three parts of that file. Each part is written in the
form the C code takes.

- `chain.dfy` (module `Chains`) models the linked list.
  - `Chain` is a class with a mutable `head`. `Node` is a class with a mutable `next` link.
  - Three ghost fields hold the chain's abstract value:
    - `Contents`, the integers from head to tail;
    - `Nodes`, the nodes in the same order;
    - `Footprint`, the set of nodes the chain owns.
  - `Mem` and `Delete` are `while` loops that walk the list the way the C code
    does. `Mem` returns early on an empty chain and then walks to the last
    node. `Delete` keeps the C code's separate paths for an empty chain, a
    single node, a match at the head, a match in the middle and a match at
    the tail.
  - `Delete` is specified by the pure function `RemoveFirst`, which removes
    the first occurrence of a value from a sequence.
- `hashing.dfy` (module `Hashing`) models the hash parameters and the hash.
  - C's `%` truncates toward zero. The function `CRem` models that, so the
    `+ p) % p` normalisation of negative keys is reproduced exactly.
  - The global parameters `a`, `b` and `m` become a `HashParams` value.
- `hash_table.dfy` (module `HashTables`) models the table.
  - `HashTable` is a class holding an array of chains.
  - The ghost function `Buckets()` reads every chain's contents.
  - `Elements()` is the multiset of all stored keys.
  - The invariant `WellPlaced` says that every key stored in bucket `i`
    hashes to `i`.
  - Insert, search and remove are specified against pure functions on the
    bucket contents: `InsertBuckets`, `SearchBuckets` and `RemoveBuckets`.
    These three functions are the abstract effect of `HashTable.Insert`,
    `HashTable.Search` and `HashTable.Remove`, not separate operations. They
    have no row of their own below. Their meaning is stated by the lemmas
    about them (`InsertStep`, `RemoveStep`, `SearchExact` and those after
    them), and the methods' rows cite the C functions.
- `scenarios.dfy` (module `Scenarios`) states the demonstration in `main` over
  the same functions. It holds for every choice of `a` and `b`.

The code draws `b` as `rand() % (p - 1)`, which lies in `[0, p - 2]`. The
comment on that line says `0 <= b <= p - 1`. The model follows the code:
`ValidParams` requires `0 <= b <= p - 2`.

## Model

| member | source | states |
|---|---|---|
| Chains.RemoveFirst | hashtable.c:77-109 | deleting a value shortens the chain by one exactly when the value occurs, and leaves the length unchanged otherwise |
| Chains.RemoveFirstAt | hashtable.c:93-107 | when the first occurrence of `x` is at index `i`, deleting it leaves `s[..i] + s[i+1..]`, so the other entries keep their order |
| Chains.RemoveFirstAbsent | hashtable.c:77-109 | deleting a value that does not occur changes nothing |
| Chains.RemoveFirstSubset | hashtable.c:77-109 | deleting never introduces a value |
| Chains.RemoveFirstMultiset | hashtable.c:77-109 | as a multiset, deleting removes exactly one copy of the value, or none when it is absent |
| Chains.Chain.constructor | hashtable.c:24-28 | a new chain is valid, owns no node and is empty |
| Chains.Chain.IsEmpty | hashtable.c:30-32 | the result is true exactly when the contents are empty |
| Chains.Chain.Mem | hashtable.c:51-59 | the result is true exactly when `x` occurs in the contents, so it is false on an empty chain |
| Chains.Chain.Push | hashtable.c:61-66 | the contents become `[x] + old contents`, the only new node is fresh, and the chain stays valid |
| Chains.Chain.Pop | hashtable.c:68-75 | requires a non-empty chain, as the source's `assert` does; returns the old head value, leaves the old contents minus their first element, and keeps the chain valid |
| Chains.Chain.UnlinkAfter | hashtable.c:94-97 | redirecting the predecessor's link past node `i` removes index `i` from both the nodes and the contents and keeps the chain valid |
| Chains.Chain.Delete | hashtable.c:77-109 | the contents become `RemoveFirst(old contents, x)` on every path (empty chain, sole node, head, middle, tail), no node is added, and the chain stays valid |
| Hashing.CRem | hashtable.c:166 | C's remainder lies in `[0, d)` for a non-negative dividend and in `(-d, 0]` for a negative one |
| Hashing.CRemIsRemainder | hashtable.c:166 | the remainder is `x - trunc(x / d) * d`, C's definition, with the quotient truncated toward zero |
| Hashing.InitializeHashParameters | hashtable.c:141-149 | `a` lies in `[1, p-1]`, `b` lies in `[0, p-2]` and `m` is the requested size, whatever `rand()` returns |
| Hashing.InitializeHashParametersOnto | hashtable.c:146-147 | every admissible `(a, b, m)` is produced by some pair of `rand()` results |
| Hashing.UniversalHash | hashtable.c:165-167 | the bucket index lies in `[0, m)` for every key, negative keys included |
| Hashing.NormalizedRemainder | hashtable.c:166 | the `+ p) % p` step turns C's signed remainder into the mathematical residue modulo `p` |
| Hashing.UniversalHashIsResidue | hashtable.c:165-167 | the bucket index equals `((a * key + b) mod p) mod m` |
| HashTables.FlattenPush | hashtable.c:170-173 | pushing a key onto one bucket adds one copy of it to the table's multiset |
| HashTables.FlattenRemove | hashtable.c:182-185 | deleting the first copy of a key from the bucket that holds all its copies removes one copy from the table's multiset |
| HashTables.FlattenMember | hashtable.c:133-135 | a key is in the table exactly when some bucket holds it |
| HashTables.FlattenEmpty | hashtable.c:153-162 | buckets that are all empty hold no key |
| HashTables.HomeBucketCount | hashtable.c:170-185 | under the invariant, every copy of a key in the table lies in the key's home bucket |
| HashTables.WellPlacedUpdate | hashtable.c:170-185 | replacing one bucket with keys that already sat there or that hash there keeps the invariant |
| HashTables.EmptyBuckets | hashtable.c:153-162 | creation yields `m` buckets, each empty |
| HashTables.EmptyWellPlaced | hashtable.c:153-162 | empty buckets satisfy the invariant and hold the empty multiset |
| HashTables.SearchExact | hashtable.c:176-179 | under the invariant, searching only the home bucket finds a key exactly when the table holds it |
| HashTables.InsertStep | hashtable.c:170-173 | insertion keeps the invariant and adds one copy of the key to the table's multiset |
| HashTables.RemoveStep | hashtable.c:182-185 | removal keeps the invariant and takes one copy of the key out of the table's multiset, or none when it is absent |
| HashTables.InsertThenRemove | hashtable.c:170-185 | removing a key right after inserting it restores every bucket exactly |
| HashTables.SearchAfterInsert | hashtable.c:170-179 | a key just inserted is found |
| HashTables.SearchAfterInsertRemove | hashtable.c:170-185 | a key inserted once into a table without it is not found after one removal |
| HashTables.SearchAfterDuplicateRemove | hashtable.c:170-185 | a key inserted twice is still found after one removal |
| HashTables.PushInBucket | hashtable.c:172 | pushing onto chain `k` of a set of distinct valid chains keeps every chain valid and leaves the other chains' contents and nodes untouched |
| HashTables.DeleteInBucket | hashtable.c:184 | deleting from chain `k` of a set of distinct valid chains keeps every chain valid and keeps all nodes, and only chain `k`'s contents change |
| HashTables.HashTable.constructor | hashtable.c:153-162 | creation builds `m` distinct fresh empty chains in a loop; the table is valid, its buckets are `EmptyBuckets(m)` and it holds no key |
| HashTables.HashTable.Insert | hashtable.c:170-173 | only the home bucket's chain is modified; the buckets become `InsertBuckets(old buckets, v)`, the multiset gains one `v`, and the invariant is kept |
| HashTables.HashTable.Search | hashtable.c:176-179 | the result is `SearchBuckets(buckets, v)` and is true exactly when `v` is in the table's multiset |
| HashTables.HashTable.Remove | hashtable.c:182-185 | only the home bucket's chain and its nodes are modified; the buckets become `RemoveBuckets(old buckets, v)`, the multiset loses one `v` (none if absent), and the invariant is kept |
| Scenarios.DemoContents | hashtable.c:202-209 | after inserting 1, 10 and 20 into a new table, it holds exactly those keys, each in its home bucket |
| Scenarios.DemoProbes | hashtable.c:211-213 | probing 0..20 then finds exactly 1, 10 and 20 |
| Scenarios.DemoRemove | hashtable.c:215-218 | after removing 10, searching for 10 fails |
| Scenarios.MainDemo | hashtable.c:197-221 | the whole demonstration with 100 buckets, for every pair of `rand()` results |

## Left out

- `LinkedList_free` and `free_hash_table` (hashtable.c:35-48, 188-194) are not modelled, nor are `malloc` and `free` in general. Dafny has no manual memory management. The nodes the source unlinks without freeing are simply dropped from the chain.
- `LinkedList_printf` and every `printf` are not modelled: they only print to the console. A chain's ghost `Contents` stands in for what is printed.
- The warning that the table is bigger than `p` (hashtable.c:142-144) is not modelled: it is advisory output only.
- `rand()` is not modelled. Its two results are parameters `r1` and `r2` of `InitializeHashParameters`. They are non-negative, as `rand()`'s results are.
- `Hashing.UniversalHash`: C `int` overflow of `a * key + b` for large keys is not modelled, because that overflow is undefined behaviour in C. The model uses mathematical integers.
- The globals `a`, `b` and `m` are not modelled as globals. They become a `HashParams` value that the table captures when it is created. Calling `initialize_hash_parameters` again after creating a table, which would change the hash under an existing table in C, is not modelled.
- `HashTables.HashTable.constructor` requires `m > 0` and admissible `a` and `b`. With `m = 0`, C's `% m` divides by zero. The source requires `initialize_hash_parameters` to run first, and that produces admissible `a` and `b`.
- `main` is modelled as lemmas over `InsertBuckets`, `SearchBuckets` and `RemoveBuckets`, not as a method that calls the table's methods. Those methods' postconditions are stated with the same functions. What is not captured is that `main` calls the methods in sequence on a single table object.
