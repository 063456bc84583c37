/**
 * The malloc tracker of IFP's libc interception.  Every address that a
 * plugin obtains from `malloc`, `calloc`, `realloc`, `strdup`, `getcwd` or
 * `scandir` is recorded in a chained hash table, so that whatever the
 * plugin leaves behind can be freed when it finishes.
 *
 * The table is a pool of descriptors, `2 * buckets` of them; each bucket
 * heads a singly linked list of descriptors, and the descriptors not in use
 * form a free list.  Descriptors are named by their index in the pool and
 * a link of -1 stands for NULL; an address of 0 stands for NULL too.  The
 * ghost fields record which list each descriptor is on.
 */
module MemIntercept {
  import opened Text

  /** `struct ifp_malloc_info`: the address tracked (0 when free) and the next descriptor on its list. */
  datatype Info = Info(address: nat, next: int)

  /** `BUCKET_SIZES`, without its zero sentinel. */
  const BucketSizes: seq<nat> := [257, 521, 1049, 2099, 4201, 8419, 16843, 33703, 67409, 134837, 269683,
                                  539389, 1078787, 2157587, 4315183, 8630387, 17260781, 34521589, 69043189,
                                  138086407, 276172823, 552345671, 1104691373]

  /** `HASH_FILL_FACTOR`: descriptors per bucket. */
  const HashFillFactor: nat := 2

  /** `HASH_MULTIPLIER`: the golden ratio times 2^32. */
  const HashMultiplier: nat := 2654435761

  /** One more than the largest `glui32`. */
  const Word: nat := 0x1_0000_0000

  /**
   * The bucket of an address: the address cast to 32 bits, multiplied by
   * the golden ratio with 32-bit wrap-around, modulo the bucket count.
   */
  function Bucket(address: nat, buckets: nat): (h: nat)
    requires buckets > 0
    ensures h < buckets
  {
    (address % Word) * HashMultiplier % Word % buckets
  }

  /** `ifp_memory_malloc_hash`: `None` is the fatal error of hashing without a table. */
  function MallocHash(address: nat, buckets: nat): (r: Option<nat>)
    ensures r.None? <==> buckets == 0
    ensures r.Some? ==> r.value < buckets && r.value == Bucket(address, buckets)
  {
    if buckets == 0 then None else Some(Bucket(address, buckets))
  }

  /** The prime bucket counts rise strictly. */
  lemma {:induction false} BucketSizesAscend(i: nat, j: nat)
    requires i < j < |BucketSizes|
    ensures BucketSizes[i] < BucketSizes[j]
    decreases j - i
  {
    assert forall k :: 0 <= k < |BucketSizes| - 1 ==> BucketSizes[k] < BucketSizes[k + 1];
    if i + 1 < j {
      BucketSizesAscend(i + 1, j);
    }
  }

  /** The bucket count after `current`: the first listed prime above it, else `current * 2 + 1`. */
  function NextSizeOf(current: nat): nat
  {
    NextSizeFrom(current, 0)
  }

  function NextSizeFrom(current: nat, i: nat): nat
    requires i <= |BucketSizes|
    decreases |BucketSizes| - i
  {
    if i == |BucketSizes| then current * HashFillFactor + 1
    else if BucketSizes[i] > current then BucketSizes[i]
    else NextSizeFrom(current, i + 1)
  }

  /**
   * The next bucket count is larger than the current one; it is the
   * smallest listed prime above the current count when there is one, and
   * `current * 2 + 1` past the end of the list.
   */
  lemma NextSizeIsSmallestAbove(current: nat)
    ensures NextSizeOf(current) > current
    ensures (exists i :: 0 <= i < |BucketSizes| && BucketSizes[i] > current) ==>
            (exists k :: 0 <= k < |BucketSizes| && NextSizeOf(current) == BucketSizes[k]) &&
            forall i :: 0 <= i < |BucketSizes| && BucketSizes[i] > current ==> NextSizeOf(current) <= BucketSizes[i]
    ensures (forall i :: 0 <= i < |BucketSizes| ==> BucketSizes[i] <= current) ==>
            NextSizeOf(current) == current * HashFillFactor + 1
  {
    var k := NextSizeFromFacts(current, 0);
    if k < |BucketSizes| {
      forall i | 0 <= i < |BucketSizes| && BucketSizes[i] > current
        ensures BucketSizes[k] <= BucketSizes[i]
      {
        if k < i {
          BucketSizesAscend(k, i);
        }
      }
    }
  }

  /**
   * The scan from position `i` stops at `k`: the first listed prime above
   * `current` at or after `i`, or the end of the list.
   */
  lemma {:induction false} NextSizeFromFacts(current: nat, i: nat) returns (k: nat)
    requires i <= |BucketSizes|
    ensures i <= k <= |BucketSizes|
    ensures forall j :: i <= j < k ==> BucketSizes[j] <= current
    ensures k < |BucketSizes| ==> BucketSizes[k] > current && NextSizeFrom(current, i) == BucketSizes[k]
    ensures k == |BucketSizes| ==> NextSizeFrom(current, i) == current * HashFillFactor + 1
    decreases |BucketSizes| - i
  {
    if i == |BucketSizes| || BucketSizes[i] > current {
      k := i;
    } else {
      k := NextSizeFromFacts(current, i + 1);
    }
  }

  /**
   * `ifp_memory_malloc_next_size`: scan the primes for the first one above
   * the current count; past the end, double and add one.
   */
  method NextSize(current: nat) returns (newBuckets: nat)
    ensures newBuckets == NextSizeOf(current)
  {
    newBuckets := 0;
    var i := 0;
    while i < |BucketSizes|
      invariant i <= |BucketSizes|
      invariant newBuckets == 0 && NextSizeFrom(current, i) == NextSizeOf(current)
    {
      if BucketSizes[i] > current {
        newBuckets := BucketSizes[i];
        break;
      }
      i := i + 1;
    }
    if newBuckets == 0 {
      newBuckets := current * HashFillFactor + 1;
    }
  }

  /** The link that follows position `i` of `path`: the next position, or -1 after the last. */
  function Successor(path: seq<nat>, i: nat): int
  {
    if i + 1 < |path| then path[i + 1] else -1
  }

  /** `path` is the list of descriptors reached from `head` by following the links, ending in -1. */
  ghost predicate IsPath(head: int, path: seq<nat>, pool: seq<Info>)
  {
    (if |path| == 0 then head == -1 else head == path[0]) &&
    (forall i :: 0 <= i < |path| ==> path[i] < |pool|) &&
    (forall i {:trigger pool[path[i]]} :: 0 <= i < |path| ==> pool[path[i]].next == Successor(path, i))
  }

  /**
   * The shape of the table, for the descriptors below `placed`: each bucket
   * heads the list `chains[b]` and the free list is `free`; `owner` names
   * the list each descriptor is on (-1 for the free list).  Every placed
   * descriptor is on exactly the list its owner names: a bucket list when
   * it holds an address hashing to that bucket, the free list when it
   * holds none.
   */
  ghost predicate Shaped(buckets: nat, lists: seq<int>, freelist: int, pool: seq<Info>,
                         chains: seq<seq<nat>>, free: seq<nat>, owner: seq<int>, placed: nat)
  {
    |lists| == buckets && |chains| == buckets && |owner| == |pool| && placed <= |pool| &&
    (forall b :: 0 <= b < buckets ==> IsPath(lists[b], chains[b], pool) && Distinct(chains[b])) &&
    IsPath(freelist, free, pool) && Distinct(free) &&
    (forall b, i :: 0 <= b < buckets && 0 <= i < |chains[b]| ==> chains[b][i] < placed && owner[chains[b][i]] == b) &&
    (forall i :: 0 <= i < |free| ==> free[i] < placed && owner[free[i]] == -1) &&
    (forall k :: 0 <= k < placed ==> Placed(buckets, pool, chains, free, owner, k))
  }

  ghost predicate Placed(buckets: nat, pool: seq<Info>, chains: seq<seq<nat>>, free: seq<nat>, owner: seq<int>, k: nat)
    requires k < |pool| == |owner| && |chains| == buckets
  {
    if owner[k] == -1 then k in free && pool[k].address == 0
    else 0 <= owner[k] < buckets && k in chains[owner[k]] && pool[k].address != 0 &&
         Bucket(pool[k].address, buckets) == owner[k]
  }

  /** No address is held by two descriptors below `placed`. */
  ghost predicate DistinctAddresses(pool: seq<Info>, placed: nat)
    requires placed <= |pool|
  {
    forall j, k :: 0 <= j < placed && 0 <= k < placed && pool[j].address != 0 && pool[j].address == pool[k].address ==> j == k
  }

  /** The addresses the table tracks. */
  ghost function Tracked(pool: seq<Info>): set<nat>
  {
    set k | 0 <= k < |pool| && pool[k].address != 0 :: pool[k].address
  }

  /** Updating a descriptor that holds no address to hold `a` adds `a` to the tracked set. */
  lemma TrackedFill(pool: seq<Info>, e: nat, a: nat, next: int)
    requires e < |pool| && pool[e].address == 0 && a != 0
    ensures Tracked(pool[e := Info(a, next)]) == Tracked(pool) + {a}
  {
    var pool' := pool[e := Info(a, next)];
    assert pool'[e].address == a;
    forall x | x in Tracked(pool)
      ensures x in Tracked(pool')
    {
      var k :| 0 <= k < |pool| && pool[k].address != 0 && pool[k].address == x;
      assert pool'[k].address == x;
    }
  }

  /** Emptying the only descriptor that holds `a` removes `a` from the tracked set. */
  lemma TrackedEmpty(pool: seq<Info>, e: nat, next: int)
    requires e < |pool| && pool[e].address != 0 && DistinctAddresses(pool, |pool|)
    ensures Tracked(pool[e := Info(0, next)]) == Tracked(pool) - {pool[e].address}
  {
    var pool' := pool[e := Info(0, next)];
    forall x | x in Tracked(pool) - {pool[e].address}
      ensures x in Tracked(pool')
    {
      var k :| 0 <= k < |pool| && pool[k].address != 0 && pool[k].address == x;
      assert pool'[k].address == x;
    }
  }

  /** Changing only a link leaves the tracked set alone. */
  lemma TrackedRelink(pool: seq<Info>, e: nat, next: int)
    requires e < |pool|
    ensures Tracked(pool[e := Info(pool[e].address, next)]) == Tracked(pool)
  {
    var pool' := pool[e := Info(pool[e].address, next)];
    forall x | x in Tracked(pool)
      ensures x in Tracked(pool')
    {
      var k :| 0 <= k < |pool| && pool[k].address != 0 && pool[k].address == x;
      assert pool'[k].address == x;
    }
  }

  /** Where a tracked address must be: on the list of the bucket it hashes to. */
  lemma TrackedInBucket(buckets: nat, lists: seq<int>, freelist: int, pool: seq<Info>,
                        chains: seq<seq<nat>>, free: seq<nat>, owner: seq<int>, a: nat)
    requires Shaped(buckets, lists, freelist, pool, chains, free, owner, |pool|) && buckets > 0
    ensures a in Tracked(pool) <==>
            exists i :: 0 <= i < |chains[Bucket(a, buckets)]| && pool[chains[Bucket(a, buckets)][i]].address == a
  {
    var h := Bucket(a, buckets);
    if a in Tracked(pool) {
      var k :| 0 <= k < |pool| && pool[k].address != 0 && pool[k].address == a;
      assert Placed(buckets, pool, chains, free, owner, k);
      var i :| 0 <= i < |chains[h]| && chains[h][i] == k;
    }
    if exists i :: 0 <= i < |chains[h]| && pool[chains[h][i]].address == a {
      var i :| 0 <= i < |chains[h]| && pool[chains[h][i]].address == a;
      var k := chains[h][i];
      assert owner[k] == h;
      assert Placed(buckets, pool, chains, free, owner, k);
    }
  }

  /** Changing a descriptor that is not on a list leaves the list a path. */
  lemma PathUpdate(head: int, path: seq<nat>, pool: seq<Info>, x: nat, v: Info)
    requires IsPath(head, path, pool) && x < |pool| && x !in path
    ensures IsPath(head, path, pool[x := v])
  {
    forall i | 0 <= i < |path|
      ensures pool[x := v][path[i]] == pool[path[i]]
    {
      assert path[i] in path;
    }
  }

  /** Linking a descriptor in front of a list. */
  lemma PathPush(head: int, path: seq<nat>, pool: seq<Info>, x: nat, v: Info)
    requires IsPath(head, path, pool) && Distinct(path) && x < |pool| && x !in path && v.next == head
    ensures IsPath(x, [x] + path, pool[x := v]) && Distinct([x] + path)
  {
    var path' := [x] + path;
    PathUpdate(head, path, pool, x, v);
    forall i | 0 <= i < |path'|
      ensures pool[x := v][path'[i]].next == Successor(path', i)
    {
      if i > 0 {
        assert path'[i] == path[i - 1];
        assert pool[x := v][path[i - 1]].next == Successor(path, i - 1);
      }
    }
    forall i, j | 0 <= i < j < |path'|
      ensures path'[i] != path'[j]
    {
      assert path'[j] == path[j - 1];
      if i > 0 {
        assert path'[i] == path[i - 1];
      }
    }
  }

  /** Taking the first descriptor off a list. */
  lemma PathPop(head: int, path: seq<nat>, pool: seq<Info>, v: Info)
    requires IsPath(head, path, pool) && Distinct(path) && |path| > 0
    ensures IsPath(pool[path[0]].next, path[1..], pool[path[0] := v]) && Distinct(path[1..])
  {
    var path' := path[1..];
    assert pool[path[0]].next == Successor(path, 0);
    forall i | 0 <= i < |path'|
      ensures path'[i] < |pool| && pool[path[0] := v][path'[i]].next == Successor(path', i)
    {
      assert path'[i] == path[i + 1] != path[0];
      assert pool[path[i + 1]].next == Successor(path, i + 1);
    }
  }

  /**
   * Cutting descriptor `path[f]` out of a list: the descriptor before it
   * (or the head, when it is first) takes over its successor.
   */
  lemma PathCut(head: int, path: seq<nat>, pool: seq<Info>, f: nat)
    requires IsPath(head, path, pool) && Distinct(path) && f < |path|
    ensures var succ := pool[path[f]].next;
            IsPath(if f == 0 then succ else head, path[..f] + path[f + 1..],
                   if f == 0 then pool else pool[path[f - 1] := pool[path[f - 1]].(next := succ)]) &&
            Distinct(path[..f] + path[f + 1..]) && path[f] !in path[..f] + path[f + 1..]
  {
    CutLinks(head, path, pool, f);
    CutDistinct(path, f);
  }

  /** The entries of a list with `path[f]` cut out. */
  lemma CutAt(path: seq<nat>, f: nat, i: nat)
    requires f < |path| && i < |path| - 1
    ensures (path[..f] + path[f + 1..])[i] == if i < f then path[i] else path[i + 1]
  {
  }

  lemma CutDistinct(path: seq<nat>, f: nat)
    requires Distinct(path) && f < |path|
    ensures Distinct(path[..f] + path[f + 1..]) && path[f] !in path[..f] + path[f + 1..]
  {
    var path' := path[..f] + path[f + 1..];
    forall i, j | 0 <= i < j < |path'|
      ensures path'[i] != path'[j] && path'[i] != path[f]
    {
      CutAt(path, f, i);
      CutAt(path, f, j);
    }
    forall i | 0 <= i < |path'|
      ensures path'[i] != path[f]
    {
      CutAt(path, f, i);
    }
  }

  lemma CutLinks(head: int, path: seq<nat>, pool: seq<Info>, f: nat)
    requires IsPath(head, path, pool) && Distinct(path) && f < |path|
    ensures var succ := pool[path[f]].next;
            IsPath(if f == 0 then succ else head, path[..f] + path[f + 1..],
                   if f == 0 then pool else pool[path[f - 1] := pool[path[f - 1]].(next := succ)])
  {
    var succ := pool[path[f]].next;
    assert succ == Successor(path, f);
    var pool1 := if f == 0 then pool else pool[path[f - 1] := pool[path[f - 1]].(next := succ)];
    var path' := path[..f] + path[f + 1..];
    forall i | 0 <= i < |path'|
      ensures path'[i] < |pool| && pool1[path'[i]].next == Successor(path', i)
    {
      CutAt(path, f, i);
      if i + 1 < |path'| {
        CutAt(path, f, i + 1);
      }
      if i < f - 1 {
        assert pool[path[i]].next == Successor(path, i);
      } else if i >= f {
        assert pool[path[i + 1]].next == Successor(path, i + 1);
      }
    }
    if |path'| > 0 {
      CutAt(path, f, 0);
    }
  }

  /** Placing descriptor `k`, which holds an address, at the head of its bucket's list. */
  lemma PlaceUsed(buckets: nat, lists: seq<int>, freelist: int, pool: seq<Info>,
                  chains: seq<seq<nat>>, free: seq<nat>, owner: seq<int>, k: nat, h: nat)
    requires Shaped(buckets, lists, freelist, pool, chains, free, owner, k)
    requires k < |pool| && pool[k].address != 0 && buckets > 0 && h == Bucket(pool[k].address, buckets)
    ensures Shaped(buckets, lists[h := k], freelist, pool[k := Info(pool[k].address, lists[h])],
                   chains[h := [k] + chains[h]], free, owner[k := h], k + 1)
  {
    var v := Info(pool[k].address, lists[h]);
    var lists', pool' := lists[h := k], pool[k := v];
    var chains', owner' := chains[h := [k] + chains[h]], owner[k := h];
    forall b | 0 <= b < buckets
      ensures IsPath(lists'[b], chains'[b], pool') && Distinct(chains'[b])
    {
      assert IsPath(lists[b], chains[b], pool) && Distinct(chains[b]);
      assert k !in chains[b];
      if b == h {
        PathPush(lists[b], chains[b], pool, k, v);
      } else {
        PathUpdate(lists[b], chains[b], pool, k, v);
      }
    }
    assert k !in free;
    PathUpdate(freelist, free, pool, k, v);
    forall b, i | 0 <= b < buckets && 0 <= i < |chains'[b]|
      ensures chains'[b][i] < k + 1 && owner'[chains'[b][i]] == b
    {
      if b == h && i > 0 {
        assert chains'[b][i] == chains[b][i - 1];
      }
    }
    forall j | 0 <= j < k + 1
      ensures Placed(buckets, pool', chains', free, owner', j)
    {
      if j < k {
        assert Placed(buckets, pool, chains, free, owner, j);
        if owner[j] != -1 {
          assert j in chains'[owner[j]];
        }
      } else {
        assert chains'[h][0] == k;
      }
    }
  }

  /** Placing descriptor `k` at the head of the free list, holding no address. */
  lemma PlaceFree(buckets: nat, lists: seq<int>, freelist: int, pool: seq<Info>,
                  chains: seq<seq<nat>>, free: seq<nat>, owner: seq<int>, k: nat)
    requires Shaped(buckets, lists, freelist, pool, chains, free, owner, k) && k < |pool|
    ensures Shaped(buckets, lists, k, pool[k := Info(0, freelist)], chains, [k] + free, owner[k := -1], k + 1)
  {
    var v := Info(0, freelist);
    var pool', free', owner' := pool[k := v], [k] + free, owner[k := -1];
    forall b | 0 <= b < buckets
      ensures IsPath(lists[b], chains[b], pool')
    {
      assert k !in chains[b];
      PathUpdate(lists[b], chains[b], pool, k, v);
    }
    assert k !in free;
    PathPush(freelist, free, pool, k, v);
    forall i | 0 <= i < |free'|
      ensures free'[i] < k + 1 && owner'[free'[i]] == -1
    {
      if i > 0 {
        assert free'[i] == free[i - 1];
      }
    }
    forall b, i | 0 <= b < buckets && 0 <= i < |chains[b]|
      ensures owner'[chains[b][i]] == b
    {
      assert chains[b][i] < k;
    }
    forall j | 0 <= j < k + 1
      ensures Placed(buckets, pool', chains, free', owner', j)
    {
      if j < k {
        assert Placed(buckets, pool, chains, free, owner, j);
      }
    }
  }

  /**
   * The last step of `ifp_memory_malloc_add_address`: take the head of the
   * free list, give it the address and push it on the address's bucket.
   */
  lemma Push(buckets: nat, lists: seq<int>, freelist: int, pool: seq<Info>,
             chains: seq<seq<nat>>, free: seq<nat>, owner: seq<int>, a: nat, h: nat)
    requires Shaped(buckets, lists, freelist, pool, chains, free, owner, |pool|) && DistinctAddresses(pool, |pool|)
    requires freelist != -1 && a != 0 && a !in Tracked(pool) && buckets > 0 && h == Bucket(a, buckets)
    ensures |free| > 0 && free[0] == freelist && freelist < |pool|
    ensures Shaped(buckets, lists[h := freelist], pool[freelist].next, pool[freelist := Info(a, lists[h])],
                   chains[h := [freelist] + chains[h]], free[1..], owner[freelist := h], |pool|)
    ensures DistinctAddresses(pool[freelist := Info(a, lists[h])], |pool|)
    ensures Tracked(pool[freelist := Info(a, lists[h])]) == Tracked(pool) + {a}
  {
    var e := freelist;
    assert free[0] == e && owner[e] == -1;
    assert Placed(buckets, pool, chains, free, owner, e);
    var v := Info(a, lists[h]);
    var lists', pool' := lists[h := e], pool[e := v];
    var chains', free', owner' := chains[h := [e] + chains[h]], free[1..], owner[e := h];
    forall b | 0 <= b < buckets
      ensures IsPath(lists'[b], chains'[b], pool') && Distinct(chains'[b])
    {
      assert IsPath(lists[b], chains[b], pool) && Distinct(chains[b]);
      assert e !in chains[b];
      if b == h {
        PathPush(lists[b], chains[b], pool, e, v);
      } else {
        PathUpdate(lists[b], chains[b], pool, e, v);
      }
    }
    PathPop(freelist, free, pool, v);
    PushOwners(buckets, pool, chains, free, owner, a, h, v);
    assert forall j :: 0 <= j < |pool| && pool[j].address != 0 ==> pool[j].address in Tracked(pool);
    TrackedFill(pool, e, a, lists[h]);
  }

  /** The ownership half of `Push`. */
  lemma PushOwners(buckets: nat, pool: seq<Info>, chains: seq<seq<nat>>, free: seq<nat>, owner: seq<int>,
                   a: nat, h: nat, v: Info)
    requires |chains| == buckets && |owner| == |pool| && h < buckets && |free| > 0 && Distinct(free)
    requires v.address == a && a != 0 && h == Bucket(a, buckets)
    requires forall b, i :: 0 <= b < buckets && 0 <= i < |chains[b]| ==> chains[b][i] < |pool| && owner[chains[b][i]] == b
    requires forall i :: 0 <= i < |free| ==> free[i] < |pool| && owner[free[i]] == -1
    requires forall k :: 0 <= k < |pool| ==> Placed(buckets, pool, chains, free, owner, k)
    ensures var e := free[0];
            var pool', chains', free', owner' := pool[e := v], chains[h := [e] + chains[h]], free[1..], owner[e := h];
            (forall b, i :: 0 <= b < buckets && 0 <= i < |chains'[b]| ==> chains'[b][i] < |pool| && owner'[chains'[b][i]] == b) &&
            (forall i :: 0 <= i < |free'| ==> free'[i] < |pool| && owner'[free'[i]] == -1) &&
            (forall k :: 0 <= k < |pool| ==> Placed(buckets, pool', chains', free', owner', k))
  {
    var e := free[0];
    var pool', chains', free', owner' := pool[e := v], chains[h := [e] + chains[h]], free[1..], owner[e := h];
    forall b, i | 0 <= b < buckets && 0 <= i < |chains'[b]|
      ensures chains'[b][i] < |pool| && owner'[chains'[b][i]] == b
    {
      if b == h && i > 0 {
        assert chains'[b][i] == chains[b][i - 1];
      }
      if !(b == h && i == 0) {
        assert owner[chains'[b][i]] == b;
      }
    }
    forall i | 0 <= i < |free'|
      ensures free'[i] < |pool| && owner'[free'[i]] == -1
    {
      assert free'[i] == free[i + 1] != e;
    }
    forall j | 0 <= j < |pool|
      ensures Placed(buckets, pool', chains', free', owner', j)
    {
      if j != e {
        assert Placed(buckets, pool, chains, free, owner, j);
        if owner[j] == -1 {
          var i :| 0 <= i < |free| && free[i] == j;
          assert free'[i - 1] == j;
        } else {
          assert j in chains'[owner[j]];
        }
      } else {
        assert chains'[h][0] == e;
      }
    }
  }

  /** The pool after the unlinking step of a removal (see `Unlink`). */
  function Unlinked(pool: seq<Info>, freelist: int, e: nat, prior: int, succ: int): seq<Info>
    requires e < |pool| && prior < |pool|
  {
    (if prior < 0 then pool else pool[prior := pool[prior].(next := succ)])[e := Info(0, freelist)]
  }

  /**
   * The unlinking step of `ifp_memory_malloc_remove_address`: descriptor
   * `chains[h][f]` is cut out of its bucket's list (through the bucket
   * head, or through `prior`, the descriptor before it), loses its
   * address and is pushed on the free list.
   */
  lemma Unlink(buckets: nat, lists: seq<int>, freelist: int, pool: seq<Info>,
               chains: seq<seq<nat>>, free: seq<nat>, owner: seq<int>, h: nat, f: nat, prior: int)
    requires Shaped(buckets, lists, freelist, pool, chains, free, owner, |pool|) && DistinctAddresses(pool, |pool|)
    requires h < buckets && f < |chains[h]| && prior == (if f == 0 then -1 else chains[h][f - 1])
    ensures chains[h][f] < |pool| && pool[chains[h][f]].next == Successor(chains[h], f) && prior < |pool|
    ensures var e, succ := chains[h][f], pool[chains[h][f]].next;
            var pool' := Unlinked(pool, freelist, e, prior, succ);
            Shaped(buckets, if prior < 0 then lists[h := succ] else lists, e, pool',
                   chains[h := chains[h][..f] + chains[h][f + 1..]], [e] + free, owner[e := -1], |pool|) &&
            DistinctAddresses(pool', |pool|) &&
            Tracked(pool') == Tracked(pool) - {pool[e].address}
  {
    var c := chains[h];
    var e := c[f];
    assert IsPath(lists[h], c, pool) && Distinct(c);
    assert pool[c[f]].next == Successor(c, f);
    var succ := pool[e].next;
    assert owner[e] == h;
    assert Placed(buckets, pool, chains, free, owner, e);
    assert prior != -1 ==> prior == c[f - 1] && owner[prior] == h;
    var v := Info(0, freelist);
    var pool1 := if prior < 0 then pool else pool[prior := pool[prior].(next := succ)];
    var pool' := pool1[e := v];
    var lists' := if prior < 0 then lists[h := succ] else lists;
    var c' := c[..f] + c[f + 1..];
    var chains' := chains[h := c'];
    forall b | 0 <= b < buckets
      ensures IsPath(lists'[b], chains'[b], pool') && Distinct(chains'[b])
    {
      assert IsPath(lists[b], chains[b], pool) && Distinct(chains[b]);
      if b == h {
        PathCut(lists[h], c, pool, f);
        PathUpdate(lists'[h], c', pool1, e, v);
      } else {
        assert e !in chains[b];
        if prior != -1 {
          assert prior !in chains[b];
          PathUpdate(lists[b], chains[b], pool, prior, pool[prior].(next := succ));
        }
        PathUpdate(lists[b], chains[b], pool1, e, v);
      }
    }
    assert e !in free;
    if prior != -1 {
      assert prior !in free;
      PathUpdate(freelist, free, pool, prior, pool[prior].(next := succ));
    }
    PathPush(freelist, free, pool1, e, v);
    UnlinkOwners(buckets, lists, freelist, pool, chains, free, owner, h, f, pool');
    if prior != -1 {
      TrackedRelink(pool, prior, succ);
    }
    assert DistinctAddresses(pool1, |pool|);
    TrackedEmpty(pool1, e, freelist);
  }

  /** Every descriptor is still on the list its owner names after unlinking. */
  lemma UnlinkOwners(buckets: nat, lists: seq<int>, freelist: int, pool: seq<Info>,
                     chains: seq<seq<nat>>, free: seq<nat>, owner: seq<int>, h: nat, f: nat, pool': seq<Info>)
    requires Shaped(buckets, lists, freelist, pool, chains, free, owner, |pool|)
    requires h < buckets && f < |chains[h]| && chains[h][f] < |pool| && |pool'| == |pool|
    requires pool'[chains[h][f]] == Info(0, freelist)
    requires forall x :: 0 <= x < |pool| && x != chains[h][f] ==> pool'[x].address == pool[x].address
    ensures var c, e := chains[h], chains[h][f];
            var chains', free', owner' := chains[h := c[..f] + c[f + 1..]], [e] + free, owner[e := -1];
            (forall b, i :: 0 <= b < buckets && 0 <= i < |chains'[b]| ==> chains'[b][i] < |pool| && owner'[chains'[b][i]] == b) &&
            (forall i :: 0 <= i < |free'| ==> free'[i] < |pool| && owner'[free'[i]] == -1) &&
            (forall k :: 0 <= k < |pool| ==> Placed(buckets, pool', chains', free', owner', k))
  {
    var c := chains[h];
    var e := c[f];
    assert IsPath(lists[h], c, pool) && Distinct(c);
    var c' := c[..f] + c[f + 1..];
    var chains', free', owner' := chains[h := c'], [e] + free, owner[e := -1];
    forall i | 0 <= i < |c'|
      ensures c'[i] == (if i < f then c[i] else c[i + 1]) && c'[i] != e
    {
    }
    forall b, i | 0 <= b < buckets && 0 <= i < |chains'[b]|
      ensures chains'[b][i] < |pool| && owner'[chains'[b][i]] == b
    {
      if b != h {
        assert owner[chains[b][i]] == b;
      }
    }
    forall i | 0 <= i < |free'|
      ensures free'[i] < |pool| && owner'[free'[i]] == -1
    {
      if i > 0 {
        assert free'[i] == free[i - 1];
      }
    }
    forall j | 0 <= j < |pool|
      ensures Placed(buckets, pool', chains', free', owner', j)
    {
      if j != e {
        assert Placed(buckets, pool, chains, free, owner, j);
        if owner[j] == h {
          var i :| 0 <= i < |c| && c[i] == j;
          if i < f {
            assert c'[i] == j;
          } else {
            assert c'[i - 1] == j;
          }
        }
      }
    }
  }

  /** A pool grown by descriptors holding no address tracks the same addresses. */
  lemma SameAddresses(pool: seq<Info>, pool': seq<Info>)
    requires |pool| <= |pool'| && DistinctAddresses(pool, |pool|)
    requires forall j :: 0 <= j < |pool'| ==> pool'[j].address == if j < |pool| then pool[j].address else 0
    ensures DistinctAddresses(pool', |pool'|) && Tracked(pool') == Tracked(pool)
  {
    forall x | x in Tracked(pool)
      ensures x in Tracked(pool')
    {
      var k :| 0 <= k < |pool| && pool[k].address != 0 && pool[k].address == x;
      assert pool'[k].address == x;
    }
  }

  /**
   * One step of the first loop of `ifp_memory_malloc_rehash`: descriptor
   * `k` goes on the head of its address's bucket if it holds one, else on
   * the head of the free list.
   */
  method Place(buckets: nat, lists: seq<int>, freelist: int, pool: seq<Info>,
               ghost chains: seq<seq<nat>>, ghost free: seq<nat>, ghost owner: seq<int>, k: nat)
    returns (lists': seq<int>, freelist': int, pool': seq<Info>,
             ghost chains': seq<seq<nat>>, ghost free': seq<nat>, ghost owner': seq<int>)
    requires Shaped(buckets, lists, freelist, pool, chains, free, owner, k) && k < |pool| && buckets > 0
    ensures Shaped(buckets, lists', freelist', pool', chains', free', owner', k + 1)
    ensures |pool'| == |pool| && forall j :: 0 <= j < |pool| ==> pool'[j].address == pool[j].address
  {
    var address := pool[k].address;
    if address != 0 {
      var h := MallocHash(address, buckets).value;
      PlaceUsed(buckets, lists, freelist, pool, chains, free, owner, k, h);
      pool' := pool[k := Info(address, lists[h])];
      lists', freelist' := lists[h := k], freelist;
      chains', free', owner' := chains[h := [k] + chains[h]], free, owner[k := h];
    } else {
      PlaceFree(buckets, lists, freelist, pool, chains, free, owner, k);
      pool' := pool[k := Info(0, freelist)];
      lists', freelist' := lists, k;
      chains', free', owner' := chains, [k] + free, owner[k := -1];
    }
  }

  /** The whole invariant of the table: shaped, `2 * buckets` descriptors, and no address held twice. */
  ghost predicate Good(buckets: nat, lists: seq<int>, freelist: int, pool: seq<Info>,
                       chains: seq<seq<nat>>, free: seq<nat>, owner: seq<int>)
  {
    Shaped(buckets, lists, freelist, pool, chains, free, owner, |pool|) &&
    |pool| == HashFillFactor * buckets && DistinctAddresses(pool, |pool|)
  }

  /**
   * The duplicate scan of `ifp_memory_malloc_add_address`: walk the list
   * from `head` looking for `p`.
   */
  method Find(head: int, pool: seq<Info>, ghost path: seq<nat>, p: nat) returns (found: bool)
    requires IsPath(head, path, pool)
    ensures found <==> exists i :: 0 <= i < |path| && pool[path[i]].address == p
  {
    var entry := head;
    ghost var i := 0;
    while entry != -1
      invariant i <= |path| && entry == if i < |path| then path[i] else -1
      invariant forall j :: 0 <= j < i ==> pool[path[j]].address != p
      decreases |path| - i
    {
      if pool[entry].address == p {
        return true;
      }
      entry := pool[entry].next;
      i := i + 1;
    }
    return false;
  }

  /**
   * `ifp_memory_malloc_rehash` on the table's values: move to the next
   * bucket count, grow the pool to twice that, rehash every occupied
   * descriptor of the old pool onto the head of its new bucket, and push
   * every other descriptor, old ones first, onto a new free list.  Only
   * the addresses of the old pool matter; its links are all rewritten.
   */
  method Rehashed(buckets: nat, pool: seq<Info>)
    returns (buckets': nat, lists': seq<int>, freelist': int, pool': seq<Info>,
             ghost chains': seq<seq<nat>>, ghost free': seq<nat>, ghost owner': seq<int>)
    requires |pool| == HashFillFactor * buckets && DistinctAddresses(pool, |pool|)
    ensures Good(buckets', lists', freelist', pool', chains', free', owner')
    ensures buckets' == NextSizeOf(buckets) && freelist' != -1
    ensures Tracked(pool') == Tracked(pool)
  {
    var oldSize := buckets * HashFillFactor;
    buckets' := NextSize(buckets);
    NextSizeIsSmallestAbove(buckets);
    var size := buckets' * HashFillFactor;
    pool' := pool + seq(size - oldSize, _ => Info(0, -1));
    lists' := seq(buckets', _ => -1);
    freelist' := -1;
    chains' := seq(buckets', _ => []);
    free' := [];
    owner' := seq(size, _ => -1);
    for k := 0 to oldSize
      invariant |pool'| == size
      invariant Shaped(buckets', lists', freelist', pool', chains', free', owner', k)
      invariant forall j :: 0 <= j < size ==> pool'[j].address == if j < oldSize then pool[j].address else 0
    {
      lists', freelist', pool', chains', free', owner' :=
        Place(buckets', lists', freelist', pool', chains', free', owner', k);
    }
    for k := oldSize to size
      invariant |pool'| == size && (k > oldSize ==> freelist' != -1)
      invariant Shaped(buckets', lists', freelist', pool', chains', free', owner', k)
      invariant forall j :: 0 <= j < size ==> pool'[j].address == if j < oldSize then pool[j].address else 0
    {
      PlaceFree(buckets', lists', freelist', pool', chains', free', owner', k);
      pool' := pool'[k := Info(0, freelist')];
      free' := [k] + free';
      owner' := owner'[k := -1];
      freelist' := k;
    }
    SameAddresses(pool, pool');
  }

  /**
   * The rest of `ifp_memory_malloc_add_address`, once the free list is
   * not empty: fail fatally if `p` is already listed in its bucket, else
   * move the head of the free list onto the bucket, holding `p`.
   */
  method Inserted(buckets: nat, lists: seq<int>, freelist: int, pool: seq<Info>,
                  ghost chains: seq<seq<nat>>, ghost free: seq<nat>, ghost owner: seq<int>, p: nat)
    returns (fatal: bool, lists': seq<int>, freelist': int, pool': seq<Info>,
             ghost chains': seq<seq<nat>>, ghost free': seq<nat>, ghost owner': seq<int>)
    requires Good(buckets, lists, freelist, pool, chains, free, owner) && freelist != -1 && p != 0
    ensures Good(buckets, lists', freelist', pool', chains', free', owner')
    ensures fatal <==> p in Tracked(pool)
    ensures Tracked(pool') == Tracked(pool) + {p}
  {
    assert |free| > 0;
    var h := MallocHash(p, buckets).value;
    assert IsPath(lists[h], chains[h], pool);
    var found := Find(lists[h], pool, chains[h], p);
    TrackedInBucket(buckets, lists, freelist, pool, chains, free, owner, p);
    if found {
      return true, lists, freelist, pool, chains, free, owner;
    }
    Push(buckets, lists, freelist, pool, chains, free, owner, p, h);
    fatal := false;
    lists', freelist', pool' := lists[h := freelist], pool[freelist].next, pool[freelist := Info(p, lists[h])];
    chains', free', owner' := chains[h := [free[0]] + chains[h]], free[1..], owner[free[0] := h];
  }

  /** A list with position `f` cut out. */
  function Cut(c: seq<nat>, f: nat): seq<nat>
    requires f < |c|
  {
    c[..f] + c[f + 1..]
  }

  /** After unlinking, no descriptor left on the bucket's list holds the address removed. */
  lemma UnlinkClears(pool: seq<Info>, freelist: int, c: seq<nat>, f: nat, prior: int)
    requires DistinctAddresses(pool, |pool|) && Distinct(c) && f < |c| && prior < |pool|
    requires forall j :: 0 <= j < |c| ==> c[j] < |pool|
    requires pool[c[f]].address != 0
    ensures var pool' := Unlinked(pool, freelist, c[f], prior, pool[c[f]].next);
            forall j :: 0 <= j < |Cut(c, f)| ==> pool'[Cut(c, f)[j]].address != pool[c[f]].address
  {
    var pool' := Unlinked(pool, freelist, c[f], prior, pool[c[f]].next);
    forall j | 0 <= j < |Cut(c, f)|
      ensures pool'[Cut(c, f)[j]].address != pool[c[f]].address
    {
      CutAt(c, f, j);
      var x := if j < f then c[j] else c[j + 1];
      assert x != c[f];
      assert pool'[x].address == pool[x].address;
    }
  }

  /**
   * The unlinking step of `ifp_memory_malloc_remove_address`: descriptor
   * `entry`, at position `f` of bucket `h`'s list, is cut out through the
   * bucket head or through `prior`, loses its address and goes on the head
   * of the free list.
   */
  method Unlinking(buckets: nat, lists: seq<int>, freelist: int, pool: seq<Info>,
                   ghost chains: seq<seq<nat>>, ghost free: seq<nat>, ghost owner: seq<int>,
                   h: nat, ghost f: nat, entry: nat, next: int, prior: int)
    returns (lists': seq<int>, freelist': int, pool': seq<Info>,
             ghost chains': seq<seq<nat>>, ghost free': seq<nat>, ghost owner': seq<int>)
    requires Good(buckets, lists, freelist, pool, chains, free, owner)
    requires h < buckets && f < |chains[h]| && entry == chains[h][f] && prior == (if f == 0 then -1 else chains[h][f - 1])
    requires entry < |pool| && next == pool[entry].next
    ensures Good(buckets, lists', freelist', pool', chains', free', owner')
    ensures chains' == chains[h := chains[h][..f] + chains[h][f + 1..]]
    ensures pool[entry].address in Tracked(pool) && Tracked(pool') == Tracked(pool) - {pool[entry].address}
    ensures forall j :: 0 <= j < |chains'[h]| ==> pool'[chains'[h][j]].address != pool[entry].address
  {
    Unlink(buckets, lists, freelist, pool, chains, free, owner, h, f, prior);
    assert owner[entry] == h && Placed(buckets, pool, chains, free, owner, entry);
    assert IsPath(lists[h], chains[h], pool) && Distinct(chains[h]);
    UnlinkClears(pool, freelist, chains[h], f, prior);
    if prior == -1 {
      lists', pool' := lists[h := next], pool;
    } else {
      lists', pool' := lists, pool[prior := pool[prior].(next := next)];
    }
    pool' := pool'[entry := Info(0, freelist)];
    freelist' := entry;
    chains', free', owner' := chains[h := chains[h][..f] + chains[h][f + 1..]], [entry] + free, owner[entry := -1];
  }

  /**
   * The invariant of the walk in `ifp_memory_malloc_remove_address`, at
   * position `i` of bucket `h`'s list: `entry` is the descriptor there and
   * `prior` the one before it; none before it holds `p`; once `p` has been
   * unlinked none on the list holds it; until then the table is as it was
   * (`pool0`, `chains0`).
   */
  ghost predicate Scanning(buckets: nat, lists: seq<int>, freelist: int, pool: seq<Info>,
                           chains: seq<seq<nat>>, free: seq<nat>, owner: seq<int>,
                           h: nat, p: nat, i: nat, entry: int, prior: int, found: bool,
                           pool0: seq<Info>, chains0: seq<seq<nat>>)
  {
    Good(buckets, lists, freelist, pool, chains, free, owner) && h < buckets &&
    i <= |chains[h]| && entry == (if i < |chains[h]| then chains[h][i] else -1) &&
    prior == (if i == 0 then -1 else chains[h][i - 1]) &&
    (forall j :: 0 <= j < i ==> pool[chains[h][j]].address != p) &&
    (found ==> forall j :: 0 <= j < |chains[h]| ==> pool[chains[h][j]].address != p) &&
    (found ==> p in Tracked(pool0) && Tracked(pool) == Tracked(pool0) - {p}) &&
    (!found ==> pool == pool0 && chains == chains0)
  }

  /**
   * One turn of the walk in `ifp_memory_malloc_remove_address`: unlink
   * `entry` if it holds `p`, else step `prior` on to it; then move to the
   * successor.
   */
  method ScanStep(buckets: nat, lists: seq<int>, freelist: int, pool: seq<Info>,
                  ghost chains: seq<seq<nat>>, ghost free: seq<nat>, ghost owner: seq<int>,
                  h: nat, p: nat, ghost i: nat, entry: int, prior: int, found: bool,
                  ghost pool0: seq<Info>, ghost chains0: seq<seq<nat>>)
    returns (lists': seq<int>, freelist': int, pool': seq<Info>,
             ghost chains': seq<seq<nat>>, ghost free': seq<nat>, ghost owner': seq<int>,
             ghost i': nat, entry': int, prior': int, found': bool)
    requires Scanning(buckets, lists, freelist, pool, chains, free, owner, h, p, i, entry, prior, found, pool0, chains0)
    requires entry != -1
    ensures Scanning(buckets, lists', freelist', pool', chains', free', owner', h, p, i', entry', prior', found', pool0, chains0)
    ensures |chains'[h]| - i' < |chains[h]| - i
  {
    assert IsPath(lists[h], chains[h], pool);
    var next := pool[entry].next;
    if pool[entry].address == p {
      if found {
        assert false;
      }
      found' := true;
      ghost var c := chains[h];
      lists', freelist', pool', chains', free', owner' :=
        Unlinking(buckets, lists, freelist, pool, chains, free, owner, h, i, entry, next, prior);
      RemovedStep(c, i);
      i', prior' := i, prior;
    } else {
      lists', freelist', pool', chains', free', owner' := lists, freelist, pool, chains, free, owner;
      found', prior' := found, entry;
      i' := i + 1;
    }
    entry' := next;
  }

  /**
   * `ifp_memory_malloc_remove_address` once the lists exist: walk `p`'s
   * bucket, unlinking every descriptor that holds `p` (a second one would
   * be fatal, and cannot occur since no address is held twice).
   */
  method Removed(buckets: nat, lists: seq<int>, freelist: int, pool: seq<Info>,
                 ghost chains: seq<seq<nat>>, ghost free: seq<nat>, ghost owner: seq<int>, p: nat)
    returns (found: bool, lists': seq<int>, freelist': int, pool': seq<Info>,
             ghost chains': seq<seq<nat>>, ghost free': seq<nat>, ghost owner': seq<int>)
    requires Good(buckets, lists, freelist, pool, chains, free, owner) && buckets > 0 && p != 0
    ensures Good(buckets, lists', freelist', pool', chains', free', owner')
    ensures found <==> p in Tracked(pool)
    ensures Tracked(pool') == Tracked(pool) - {p}
  {
    var h := MallocHash(p, buckets).value;
    found := false;
    lists', freelist', pool', chains', free', owner' := lists, freelist, pool, chains, free, owner;
    var prior := -1;
    var entry := lists[h];
    ghost var i := 0;
    assert IsPath(lists[h], chains[h], pool);
    while entry != -1
      invariant Scanning(buckets, lists', freelist', pool', chains', free', owner', h, p, i, entry, prior, found, pool, chains)
      decreases |chains'[h]| - i
    {
      lists', freelist', pool', chains', free', owner', i, entry, prior, found :=
        ScanStep(buckets, lists', freelist', pool', chains', free', owner', h, p, i, entry, prior, found, pool, chains);
    }
    if !found {
      TrackedInBucket(buckets, lists, freelist, pool, chains, free, owner, p);
    }
  }

  /** Positions before and at the cut keep their neighbours in the list with `c[f]` cut out. */
  lemma RemovedStep(c: seq<nat>, f: nat)
    requires f < |c|
    ensures f > 0 ==> (c[..f] + c[f + 1..])[f - 1] == c[f - 1]
    ensures f + 1 < |c| ==> (c[..f] + c[f + 1..])[f] == c[f + 1]
    ensures forall j :: 0 <= j < f ==> (c[..f] + c[f + 1..])[j] == c[j]
  {
  }

  /** The elements of a sequence. */
  ghost function Elements(s: seq<nat>): set<nat>
  {
    set x | x in s
  }

  /** A sequence without repeats has as many elements as its set. */
  lemma {:induction false} DistinctCardinality(s: seq<nat>)
    requires Distinct(s)
    ensures |Elements(s)| == |s|
  {
    if |s| > 0 {
      var front := s[..|s| - 1];
      assert Distinct(front);
      DistinctCardinality(front);
      var last := s[|s| - 1];
      assert s == front + [last];
      assert Elements(s) == Elements(front) + {last};
      assert last !in Elements(front);
    } else {
      assert Elements(s) == {};
    }
  }

  /**
   * What the walk of `ifp_memory_malloc_garbage_collect` has freed: the
   * addresses of descriptors `from`, all on buckets below `hash`, without
   * repeats.
   */
  ghost predicate FreedBelow(buckets: nat, pool: seq<Info>, owner: seq<int>,
                             freed: seq<nat>, from: seq<nat>, hash: nat)
  {
    |from| == |freed| && |owner| == |pool| && Distinct(freed) &&
    (forall j :: 0 <= j < |from| ==> from[j] < |pool| && freed[j] == pool[from[j]].address && 0 <= owner[from[j]] <= hash)
  }

  /**
   * One bucket of `ifp_memory_malloc_garbage_collect`: free the address of
   * every descriptor on bucket `hash`'s list.
   */
  method CollectChain(buckets: nat, lists: seq<int>, freelist: int, pool: seq<Info>,
                      ghost chains: seq<seq<nat>>, ghost free: seq<nat>, ghost owner: seq<int>,
                      hash: nat, freed: seq<nat>, ghost from: seq<nat>)
    returns (freed': seq<nat>, ghost from': seq<nat>)
    requires Good(buckets, lists, freelist, pool, chains, free, owner) && hash < buckets
    requires FreedBelow(buckets, pool, owner, freed, from, hash)
    requires forall j :: 0 <= j < |from| ==> owner[from[j]] < hash
    requires forall k :: 0 <= k < |pool| && 0 <= owner[k] < hash ==> pool[k].address in freed
    ensures FreedBelow(buckets, pool, owner, freed', from', hash)
    ensures forall k :: 0 <= k < |pool| && 0 <= owner[k] <= hash ==> pool[k].address in freed'
  {
    ghost var c := chains[hash];
    assert IsPath(lists[hash], c, pool) && Distinct(c);
    freed', from' := freed, from;
    var entry := lists[hash];
    ghost var i := 0;
    while entry != -1
      invariant i <= |c| && entry == (if i < |c| then c[i] else -1)
      invariant FreedBelow(buckets, pool, owner, freed', from', hash)
      invariant forall j :: 0 <= j < |from'| ==> owner[from'[j]] < hash || from'[j] in c[..i]
      invariant forall k :: 0 <= k < |pool| && 0 <= owner[k] < hash ==> pool[k].address in freed'
      invariant forall j :: 0 <= j < i ==> pool[c[j]].address in freed'
      decreases |c| - i
    {
      CollectStep(buckets, lists, freelist, pool, chains, free, owner, hash, freed', from', i);
      freed', from' := freed' + [pool[entry].address], from' + [entry];
      entry := pool[entry].next;
      i := i + 1;
    }
    forall k | 0 <= k < |pool| && owner[k] == hash
      ensures pool[k].address in freed'
    {
      assert Placed(buckets, pool, chains, free, owner, k);
    }
  }

  /** The address freed next is not freed already, and freeing it keeps the walk's invariant. */
  lemma CollectStep(buckets: nat, lists: seq<int>, freelist: int, pool: seq<Info>,
                    chains: seq<seq<nat>>, free: seq<nat>, owner: seq<int>,
                    hash: nat, freed: seq<nat>, from: seq<nat>, i: nat)
    requires Good(buckets, lists, freelist, pool, chains, free, owner) && hash < buckets && i < |chains[hash]|
    requires FreedBelow(buckets, pool, owner, freed, from, hash)
    requires forall j :: 0 <= j < |from| ==> owner[from[j]] < hash || from[j] in chains[hash][..i]
    ensures var e := chains[hash][i];
            e < |pool| &&
            FreedBelow(buckets, pool, owner, freed + [pool[e].address], from + [e], hash) &&
            (forall j :: 0 <= j < |from| + 1 ==> owner[(from + [e])[j]] < hash || (from + [e])[j] in chains[hash][..i + 1])
  {
    var c := chains[hash];
    var e := c[i];
    assert IsPath(lists[hash], c, pool) && Distinct(c);
    assert owner[e] == hash && Placed(buckets, pool, chains, free, owner, e);
    assert c[..i + 1] == c[..i] + [e];
    assert forall m :: 0 <= m < i ==> c[..i][m] != e;
    forall j | 0 <= j < |freed|
      ensures freed[j] != pool[e].address
    {
      assert from[j] != e;
      assert pool[from[j]].address != pool[e].address;
    }
    var freed', from' := freed + [pool[e].address], from + [e];
    forall j, k | 0 <= j < k < |freed'|
      ensures freed'[j] != freed'[k]
    {
      if k < |freed| {
        assert freed'[j] == freed[j] && freed'[k] == freed[k];
      }
    }
  }

  /**
   * The walk of `ifp_memory_malloc_garbage_collect`: every bucket's list
   * in turn, freeing each descriptor's address.  Every tracked address is
   * freed, once.
   */
  method Collected(buckets: nat, lists: seq<int>, freelist: int, pool: seq<Info>,
                   ghost chains: seq<seq<nat>>, ghost free: seq<nat>, ghost owner: seq<int>)
    returns (freed: seq<nat>)
    requires Good(buckets, lists, freelist, pool, chains, free, owner)
    ensures Distinct(freed) && |freed| == |Tracked(pool)|
    ensures forall x :: x in freed <==> x in Tracked(pool)
  {
    freed := [];
    ghost var from := [];
    for hash := 0 to buckets
      invariant FreedBelow(buckets, pool, owner, freed, from, hash)
      invariant forall j :: 0 <= j < |from| ==> owner[from[j]] < hash
      invariant forall k :: 0 <= k < |pool| && 0 <= owner[k] < hash ==> pool[k].address in freed
    {
      freed, from := CollectChain(buckets, lists, freelist, pool, chains, free, owner, hash, freed, from);
    }
    forall x | x in Tracked(pool)
      ensures x in freed
    {
      var k :| 0 <= k < |pool| && pool[k].address != 0 && pool[k].address == x;
      assert Placed(buckets, pool, chains, free, owner, k);
    }
    forall x | x in freed
      ensures x in Tracked(pool)
    {
      var j :| 0 <= j < |freed| && freed[j] == x;
      assert Placed(buckets, pool, chains, free, owner, from[j]);
    }
    assert Elements(freed) == Tracked(pool);
    DistinctCardinality(freed);
  }

  /** How `ifp_memory_malloc_remove_address` ends. */
  datatype Removal =
    | Untracked      // the address was listed and is now free
    | NotListed      // the error "not listed as malloced"
    | NoLists        // the error "no lists to remove address from"

  /** The address a pointer adds to the table: none for NULL. */
  function NonNull(p: nat): (r: set<nat>)
    ensures p == 0 ==> r == {}
    ensures p != 0 ==> r == {p}
  {
    if p == 0 then {} else {p}
  }

  /** The non-NULL pointers of a list. */
  ghost function NonNullAll(pointers: seq<nat>): set<nat>
  {
    set x | x in pointers && x != 0
  }

  /** Adding these pointers in order never meets one already tracked: none is tracked, and none repeats. */
  ghost predicate FreshPointers(tracked: set<nat>, pointers: seq<nat>)
  {
    forall i :: 0 <= i < |pointers| && pointers[i] != 0 ==>
      pointers[i] !in tracked && forall j :: 0 <= j < i ==> pointers[j] != pointers[i]
  }

  /** The malloc tracker: `ifp_malloc_buckets`, `ifp_malloc_lists`, `ifp_malloc_pool` and `ifp_malloc_freelist`. */
  class MallocTable {
    var buckets: nat
    var lists: seq<int>
    var pool: seq<Info>
    var freelist: int
    ghost var chains: seq<seq<nat>>
    ghost var free: seq<nat>
    ghost var owner: seq<int>

    /** Every descriptor on exactly one list, `2 * buckets` descriptors, and no address held twice. */
    ghost predicate Valid()
      reads this
    {
      Good(buckets, lists, freelist, pool, chains, free, owner)
    }

    /** The addresses the table tracks. */
    ghost function Addresses(): set<nat>
      reads this
    {
      Tracked(pool)
    }

    /** The initial state: no buckets, no pool, an empty free list. */
    constructor ()
      ensures Valid() && buckets == 0 && Addresses() == {}
    {
      buckets, lists, pool, freelist := 0, [], [], -1;
      chains, free, owner := [], [], [];
    }

    /** `ifp_memory_malloc_rehash`: the table grows to the next bucket count, tracking the same addresses. */
    method Rehash()
      requires Valid()
      modifies this
      ensures Valid() && buckets == NextSizeOf(old(buckets)) && freelist != -1
      ensures Addresses() == old(Addresses())
    {
      buckets, lists, freelist, pool, chains, free, owner := Rehashed(buckets, pool);
    }

    /**
     * `ifp_memory_malloc_add_address`: rehash when the free list is empty,
     * then add `p`; adding an address already tracked is fatal.
     */
    method AddAddress(p: nat) returns (fatal: bool)
      requires Valid() && p != 0
      modifies this
      ensures Valid()
      ensures fatal <==> p in old(Addresses())
      ensures Addresses() == old(Addresses()) + {p}
      ensures buckets == if old(freelist) == -1 then NextSizeOf(old(buckets)) else old(buckets)
    {
      if freelist == -1 {
        Rehash();
      }
      fatal, lists, freelist, pool, chains, free, owner := Inserted(buckets, lists, freelist, pool, chains, free, owner, p);
    }

    /**
     * `ifp_memory_malloc_remove_address`: an error when there are no lists
     * or `p` is not listed; otherwise `p` is untracked and its descriptor
     * returns to the free list.
     */
    method RemoveAddress(p: nat) returns (outcome: Removal)
      requires Valid() && p != 0
      modifies this
      ensures Valid() && buckets == old(buckets)
      ensures outcome == NoLists <==> old(buckets) == 0
      ensures outcome == NotListed <==> old(buckets) != 0 && p !in old(Addresses())
      ensures Addresses() == old(Addresses()) - {p}
    {
      if buckets == 0 {
        assert |pool| == 0;
        assert Addresses() == {};
        return NoLists;
      }
      var found;
      found, lists, freelist, pool, chains, free, owner := Removed(buckets, lists, freelist, pool, chains, free, owner, p);
      outcome := if found then Untracked else NotListed;
    }

    /**
     * `ifp_memory_malloc_garbage_collect`: free every tracked address, each
     * once, and reset the table to no buckets and no pool.
     */
    method GarbageCollect() returns (freed: seq<nat>)
      requires Valid()
      modifies this
      ensures Valid() && buckets == 0 && Addresses() == {}
      ensures Distinct(freed) && |freed| == |old(Addresses())|
      ensures forall x :: x in freed <==> x in old(Addresses())
    {
      freed := Collected(buckets, lists, freelist, pool, chains, free, owner);
      buckets, lists, pool, freelist := 0, [], [], -1;
      chains, free, owner := [], [], [];
    }

    /**
     * `ifp_libc_intercept_malloc`, `ifp_libc_intercept_calloc` and
     * `ifp_libc_intercept_strdup`: `pointer` is what the C library returned;
     * a non-NULL result is added.
     */
    method Allocate(pointer: nat) returns (fatal: bool)
      requires Valid()
      modifies this
      ensures Valid()
      ensures fatal <==> pointer != 0 && pointer in old(Addresses())
      ensures Addresses() == old(Addresses()) + NonNull(pointer)
    {
      fatal := false;
      if pointer != 0 {
        fatal := AddAddress(pointer);
      }
    }

    /**
     * `ifp_libc_intercept_getcwd`: the result `buffer` was allocated by the
     * C library only when the caller passed no buffer; a successful such
     * call is added.
     */
    method Getcwd(buf: nat, buffer: nat) returns (fatal: bool)
      requires Valid()
      modifies this
      ensures Valid()
      ensures fatal <==> buf == 0 && buffer != 0 && buffer in old(Addresses())
      ensures Addresses() == old(Addresses()) + (if buf == 0 then NonNull(buffer) else {})
    {
      fatal := false;
      if buf == 0 && buffer != 0 {
        fatal := AddAddress(buffer);
      }
    }

    /**
     * `ifp_libc_intercept_realloc`: `pointer` is what the C library's
     * `realloc(ptr)` returned.  When the block moved, the old address is
     * removed and the new one added; an unmoved block changes nothing.
     */
    method Realloc(ptr: nat, pointer: nat) returns (outcome: Option<Removal>, fatal: bool)
      requires Valid()
      modifies this
      ensures Valid()
      ensures outcome.Some? <==> pointer != ptr && ptr != 0
      ensures fatal <==> pointer != ptr && pointer != 0 && pointer in old(Addresses()) - NonNull(ptr)
      ensures Addresses() == if pointer == ptr then old(Addresses())
                             else old(Addresses()) - NonNull(ptr) + NonNull(pointer)
    {
      outcome, fatal := None, false;
      if pointer != ptr {
        if ptr != 0 {
          var removal := RemoveAddress(ptr);
          outcome := Some(removal);
        }
        if pointer != 0 {
          fatal := AddAddress(pointer);
        }
      }
    }

    /**
     * `ifp_libc_intercept_scandir`: `listing` is `None` when the C library's
     * `scandir` failed, else the entry pointers it returned and the pointer
     * to the array holding them.  Each non-NULL entry is added, then the
     * array; adding stops at the first fatal error.
     */
    method Scandir(listing: Option<(seq<nat>, nat)>) returns (fatal: bool)
      requires Valid()
      modifies this
      ensures Valid()
      ensures listing.None? ==> !fatal && Addresses() == old(Addresses())
      ensures listing.Some? ==>
              var pointers := listing.value.0 + [listing.value.1];
              (fatal <==> !FreshPointers(old(Addresses()), pointers)) &&
              (!fatal ==> Addresses() == old(Addresses()) + NonNullAll(pointers))
    {
      fatal := false;
      if listing.None? {
        return;
      }
      var pointers := listing.value.0 + [listing.value.1];
      for k := 0 to |pointers|
        invariant Valid()
        invariant FreshPointers(old(Addresses()), pointers[..k])
        invariant Addresses() == old(Addresses()) + NonNullAll(pointers[..k])
      {
        if pointers[k] != 0 {
          fatal := AddAddress(pointers[k]);
          if fatal {
            FreshPointersStops(old(Addresses()), pointers, k);
            return;
          }
        }
        FreshPointersStep(old(Addresses()), pointers, k);
      }
      assert pointers[..|pointers|] == pointers;
    }

    /**
     * `ifp_libc_intercept_free`: a non-NULL pointer is removed before the
     * C library frees it.
     */
    method Free(ptr: nat) returns (outcome: Option<Removal>)
      requires Valid()
      modifies this
      ensures Valid()
      ensures outcome.Some? <==> ptr != 0
      ensures Addresses() == old(Addresses()) - NonNull(ptr)
    {
      outcome := None;
      if ptr != 0 {
        var removal := RemoveAddress(ptr);
        outcome := Some(removal);
      }
    }
  }

  /** Adding one more pointer that is not tracked and does not repeat keeps the run fresh. */
  lemma FreshPointersStep(tracked: set<nat>, pointers: seq<nat>, k: nat)
    requires k < |pointers| && FreshPointers(tracked, pointers[..k])
    requires pointers[k] != 0 ==> pointers[k] !in tracked + NonNullAll(pointers[..k])
    ensures FreshPointers(tracked, pointers[..k + 1])
    ensures NonNullAll(pointers[..k + 1]) == NonNullAll(pointers[..k]) + NonNull(pointers[k])
  {
    assert pointers[..k + 1] == pointers[..k] + [pointers[k]];
    if pointers[k] != 0 {
      forall j | 0 <= j < k
        ensures pointers[j] != pointers[k]
      {
        assert pointers[..k][j] == pointers[j];
      }
    }
  }

  /** A pointer already tracked, or repeating an earlier one, makes the whole run not fresh. */
  lemma FreshPointersStops(tracked: set<nat>, pointers: seq<nat>, k: nat)
    requires k < |pointers| && pointers[k] != 0 && pointers[k] in tracked + NonNullAll(pointers[..k])
    ensures !FreshPointers(tracked, pointers)
  {
    if pointers[k] !in tracked {
      var j :| 0 <= j < k && pointers[..k][j] == pointers[k];
      assert pointers[j] == pointers[k];
    }
  }
}
