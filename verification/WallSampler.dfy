/** The wall sampler's table of stacks (wallSampler in profile_wall.go): a capped table kept
    online, against a plain count over everything sampled since the last drain. The stack hash
    is a parameter. */
module WallSampler {
  import opened Bytes

  /** Program counters, leaf first. */
  type Stack = seq<int>

  type Hash = Stack -> nat

  datatype Bucket = Bucket(pcs: Stack, ticks: nat)

  const DEFAULT_MAX_STACKS := 4096

  // ----- The plain count ---------------------------------------------------------------------

  /** The stacks of a snapshot that are counted. */
  function Live(records: seq<Stack>): seq<Stack> {
    if records == [] then []
    else
      var last := records[|records| - 1];
      Live(records[..|records| - 1]) + (if last == [] then [] else [last])
  }

  function Count(seen: seq<Stack>, hash: Hash, key: nat): nat {
    if seen == [] then 0
    else Count(seen[..|seen| - 1], hash, key) + (if hash(seen[|seen| - 1]) == key then 1 else 0)
  }

  /** Where a hash first appears, |seen| if it does not. */
  function First(seen: seq<Stack>, hash: Hash, key: nat): (i: nat)
    ensures i <= |seen|
    ensures i < |seen| ==> hash(seen[i]) == key
    ensures forall j :: 0 <= j < i ==> hash(seen[j]) != key
  {
    if seen == [] then 0
    else
      var i := First(seen[..|seen| - 1], hash, key);
      if i < |seen| - 1 || hash(seen[|seen| - 1]) == key then i else |seen|
  }

  /** The hashes seen, in order of first appearance. */
  function Keys(seen: seq<Stack>, hash: Hash): (keys: seq<nat>)
    ensures Distinct(keys)
  {
    if seen == [] then []
    else
      var keys, key := Keys(seen[..|seen| - 1], hash), hash(seen[|seen| - 1]);
      if key in keys then keys else keys + [key]
  }

  /** The first `max` of them. */
  function Kept(seen: seq<Stack>, hash: Hash, max: nat): (keys: seq<nat>)
    ensures Distinct(keys) && |keys| <= max
  {
    var keys := Keys(seen, hash);
    if |keys| <= max then keys else keys[..max]
  }

  /** How many stacks hash to none of the keys. */
  function Missed(seen: seq<Stack>, hash: Hash, keys: seq<nat>): nat {
    if seen == [] then 0
    else Missed(seen[..|seen| - 1], hash, keys) + (if hash(seen[|seen| - 1]) in keys then 0 else 1)
  }

  lemma {:induction false} KeySeen(seen: seq<Stack>, hash: Hash, key: nat)
    ensures key in Keys(seen, hash) <==> First(seen, hash, key) < |seen|
  {
    if seen != [] {
      KeySeen(seen[..|seen| - 1], hash, key);
    }
  }

  function BucketOf(seen: seq<Stack>, hash: Hash, key: nat): Bucket {
    var i := First(seen, hash, key);
    Bucket(if i < |seen| then seen[i] else [], Count(seen, hash, key))
  }

  function Table(seen: seq<Stack>, hash: Hash, max: nat): map<nat, Bucket> {
    map key | key in Kept(seen, hash, max) :: BucketOf(seen, hash, key)
  }

  function Dropped(seen: seq<Stack>, hash: Hash, max: nat): nat {
    Missed(seen, hash, Kept(seen, hash, max))
  }

  /** The buckets in order of first appearance. */
  function Buckets(seen: seq<Stack>, hash: Hash, keys: seq<nat>): (buckets: seq<Bucket>)
    ensures |buckets| == |keys|
  {
    seq(|keys|, i requires 0 <= i < |keys| => BucketOf(seen, hash, keys[i]))
  }

  function Total(buckets: seq<Bucket>): nat {
    if buckets == [] then 0 else Total(buckets[..|buckets| - 1]) + buckets[|buckets| - 1].ticks
  }

  /** Every stack but the empty one is counted, as often as it was sampled and in that order. */
  lemma {:induction false} LiveIsAllButEmpty(records: seq<Stack>)
    ensures Subsequence(Live(records), records)
    ensures forall stack :: multiset(Live(records))[stack] == if stack == [] then 0 else multiset(records)[stack]
  {
    if records != [] {
      var init, last := records[..|records| - 1], records[|records| - 1];
      LiveIsAllButEmpty(init);
      assert records == init + [last];
      var kept: seq<Stack> := if last == [] then [] else [last];
      SubsequenceRefl(kept);
      assert Subsequence(kept, [last]) by { if last == [] { assert Subsequence<Stack>([], [last]); } }
      SubsequenceConcat(Live(init), init, kept, [last]);
    }
  }

  // ----- What the count says -----------------------------------------------------------------

  /** The keys are the hashes seen, each once, and an earlier key appeared earlier. */
  lemma {:induction false} KeysByFirstAppearance(seen: seq<Stack>, hash: Hash)
    ensures forall key :: key in Keys(seen, hash) <==> exists i :: 0 <= i < |seen| && hash(seen[i]) == key
    ensures var keys := Keys(seen, hash);
      forall i, j :: 0 <= i < j < |keys| ==> First(seen, hash, keys[i]) < First(seen, hash, keys[j])
  {
    forall key ensures key in Keys(seen, hash) <==> exists i :: 0 <= i < |seen| && hash(seen[i]) == key {
      KeySeen(seen, hash, key);
    }
    if seen != [] {
      var init := seen[..|seen| - 1];
      KeysByFirstAppearance(init, hash);
      forall key | key in Keys(init, hash) ensures First(seen, hash, key) == First(init, hash, key) < |init| {
        KeySeen(init, hash, key);
      }
      KeySeen(init, hash, hash(seen[|init|]));
    }
  }

  /** One more stack: the key is known, or the table has room, or it is full. */
  lemma KeptSnoc(seen: seq<Stack>, hash: Hash, max: nat, stack: Stack)
    ensures var keys, key := Kept(seen, hash, max), hash(stack);
      Kept(seen + [stack], hash, max) == if key in keys || |keys| == max then keys else keys + [key]
  {
    assert (seen + [stack])[..|seen|] == seen;
  }

  lemma BucketSnoc(seen: seq<Stack>, hash: Hash, key: nat, stack: Stack)
    ensures var before, after := BucketOf(seen, hash, key), BucketOf(seen + [stack], hash, key);
      if hash(stack) != key then after == before
      else if First(seen, hash, key) < |seen| then after == before.(ticks := before.ticks + 1)
      else after == before.(pcs := stack, ticks := before.ticks + 1)
  {
    assert (seen + [stack])[..|seen|] == seen;
  }

  lemma {:induction false} Unseen(seen: seq<Stack>, hash: Hash, key: nat)
    requires First(seen, hash, key) == |seen|
    ensures Count(seen, hash, key) == 0
  {
    if seen != [] {
      Unseen(seen[..|seen| - 1], hash, key);
    }
  }

  lemma {:induction false} MissedNone(seen: seq<Stack>, hash: Hash, keys: seq<nat>)
    requires forall key :: key in Keys(seen, hash) ==> key in keys
    ensures Missed(seen, hash, keys) == 0
  {
    if seen != [] {
      MissedNone(seen[..|seen| - 1], hash, keys);
    }
  }

  lemma TableSnoc(seen: seq<Stack>, hash: Hash, max: nat, stack: Stack)
    ensures var table, key := Table(seen, hash, max), hash(stack);
      Table(seen + [stack], hash, max) ==
        if key in table then table[key := table[key].(ticks := table[key].ticks + 1)]
        else if |Kept(seen, hash, max)| == max then table
        else table[key := Bucket(stack, 1)]
  {
    hide BucketOf, Kept;
    var keys, key := Kept(seen, hash, max), hash(stack);
    var after := Table(seen + [stack], hash, max);
    KeptSnoc(seen, hash, max, stack);
    forall k | k in after ensures k != key ==> after[k] == BucketOf(seen, hash, k) {
      BucketSnoc(seen, hash, k, stack);
    }
    KeyBucket(seen, hash, max, stack);
  }

  lemma KeyBucket(seen: seq<Stack>, hash: Hash, max: nat, stack: Stack)
    ensures var before, after := BucketOf(seen, hash, hash(stack)), BucketOf(seen + [stack], hash, hash(stack));
      if hash(stack) in Kept(seen, hash, max) then after == before.(ticks := before.ticks + 1)
      else |Kept(seen, hash, max)| < max ==> after == Bucket(stack, 1)
  {
    hide BucketOf, Keys;
    KeySeen(seen, hash, hash(stack));
    BucketSnoc(seen, hash, hash(stack), stack);
    if hash(stack) !in Keys(seen, hash) {
      Unseen(seen, hash, hash(stack));
      NoBucket(seen, hash, hash(stack));
    }
  }

  lemma NoBucket(seen: seq<Stack>, hash: Hash, key: nat)
    requires First(seen, hash, key) == |seen|
    ensures BucketOf(seen, hash, key) == Bucket([], 0)
  {
    Unseen(seen, hash, key);
  }

  lemma DroppedSnoc(seen: seq<Stack>, hash: Hash, max: nat, stack: Stack)
    ensures var keys := Kept(seen, hash, max);
      Dropped(seen + [stack], hash, max) ==
        Dropped(seen, hash, max) + (if hash(stack) !in keys && |keys| == max then 1 else 0)
  {
    var keys := Kept(seen, hash, max);
    assert (seen + [stack])[..|seen|] == seen;
    KeptSnoc(seen, hash, max, stack);
    if hash(stack) !in keys && |keys| < max {
      MissedNone(seen, hash, keys);
      MissedNone(seen, hash, keys + [hash(stack)]);
    }
  }

  // ----- Conservation --------------------------------------------------------------------------

  lemma {:induction false} TotalCounts(seen: seq<Stack>, hash: Hash, keys: seq<nat>)
    requires Distinct(keys)
    ensures Total(Buckets(seen, hash, keys)) + Missed(seen, hash, keys) == |seen|
  {
    if seen == [] {
      TotalOfNone(hash, keys);
    } else {
      var init, stack := seen[..|seen| - 1], seen[|seen| - 1];
      assert seen == init + [stack];
      TotalCounts(init, hash, keys);
      TotalSnoc(init, hash, keys, stack);
    }
  }

  lemma {:induction false} TotalOfNone(hash: Hash, keys: seq<nat>)
    ensures Total(Buckets([], hash, keys)) == 0
  {
    if keys != [] {
      var b := Buckets([], hash, keys);
      assert b[..|b| - 1] == Buckets([], hash, keys[..|keys| - 1]);
      TotalOfNone(hash, keys[..|keys| - 1]);
    }
  }

  lemma {:induction false} TotalSnoc(seen: seq<Stack>, hash: Hash, keys: seq<nat>, stack: Stack)
    requires Distinct(keys)
    ensures Total(Buckets(seen + [stack], hash, keys)) ==
      Total(Buckets(seen, hash, keys)) + (if hash(stack) in keys then 1 else 0)
  {
    hide BucketOf;
    if keys != [] {
      var init, key := keys[..|keys| - 1], keys[|keys| - 1];
      var a, b := Buckets(seen, hash, keys), Buckets(seen + [stack], hash, keys);
      assert a[..|a| - 1] == Buckets(seen, hash, init) && b[..|b| - 1] == Buckets(seen + [stack], hash, init);
      TotalSnoc(seen, hash, init, stack);
      BucketSnoc(seen, hash, key, stack);
      assert keys == init + [key];
    }
  }

  /** Every non-empty stack seen is a tick of one bucket or one drop. */
  lemma Conservation(seen: seq<Stack>, hash: Hash, max: nat)
    ensures Total(Buckets(seen, hash, Kept(seen, hash, max))) + Dropped(seen, hash, max) == |seen|
  {
    TotalCounts(seen, hash, Kept(seen, hash, max));
  }

  /** Nothing is dropped exactly when the distinct stacks fit. */
  lemma DropsOnlyWhenFull(seen: seq<Stack>, hash: Hash, max: nat)
    ensures Dropped(seen, hash, max) == 0 <==> |Keys(seen, hash)| <= max
  {
    var keys := Keys(seen, hash);
    if |keys| <= max {
      MissedNone(seen, hash, keys);
    } else {
      var key := keys[max];
      KeySeen(seen, hash, key);
      MissedSome(seen, hash, keys[..max], First(seen, hash, key));
    }
  }

  lemma {:induction false} MissedSome(seen: seq<Stack>, hash: Hash, keys: seq<nat>, i: nat)
    requires i < |seen| && hash(seen[i]) !in keys
    ensures Missed(seen, hash, keys) > 0
  {
    if i < |seen| - 1 {
      MissedSome(seen[..|seen| - 1], hash, keys, i);
    }
  }

  // ----- Draining ------------------------------------------------------------------------------

  predicate Descending(buckets: seq<Bucket>) {
    forall i, j :: 0 <= i < j < |buckets| ==> buckets[i].ticks >= buckets[j].ticks
  }

  function Place(sorted: seq<Bucket>, ticks: nat): (i: nat)
    requires Descending(sorted)
    ensures i <= |sorted|
    ensures forall j :: 0 <= j < i ==> sorted[j].ticks > ticks
    ensures forall j :: i <= j < |sorted| ==> sorted[j].ticks <= ticks
  {
    if sorted == [] || sorted[0].ticks <= ticks then 0 else 1 + Place(sorted[1..], ticks)
  }

  function Insert(sorted: seq<Bucket>, bucket: Bucket): (r: seq<Bucket>)
    requires Descending(sorted)
    ensures Descending(r)
    ensures multiset(r) == multiset(sorted) + multiset{bucket}
  {
    var i := Place(sorted, bucket.ticks);
    Inserted(sorted, i, bucket);
    sorted[..i] + [bucket] + sorted[i..]
  }

  lemma Inserted(s: seq<Bucket>, i: nat, bucket: Bucket)
    requires i <= |s|
    ensures multiset(s[..i] + [bucket] + s[i..]) == multiset(s) + multiset{bucket}
  {
    assert s == s[..i] + s[i..];
  }

  function SortByTicks(buckets: seq<Bucket>): (r: seq<Bucket>)
    ensures Descending(r) && multiset(r) == multiset(buckets)
  {
    if buckets == [] then []
    else
      assert buckets == [buckets[0]] + buckets[1..];
      Insert(SortByTicks(buckets[1..]), buckets[0])
  }

  // ----- The object ----------------------------------------------------------------------------

  class Sampler {
    const hash: Hash
    const maxStacks: nat
    var buckets: map<nat, Bucket>
    var ticks: nat
    var dropped: nat
    /** The non-empty stacks sampled since the last drain. */
    ghost var seen: seq<Stack>

    ghost predicate Valid()
      reads this
    {
      maxStacks > 0 && buckets == Table(seen, hash, maxStacks) && dropped == Dropped(seen, hash, maxStacks)
    }

    constructor (maxStacks: int, hash: Hash)
      ensures Valid() && seen == [] && ticks == 0 && this.hash == hash
      ensures this.maxStacks == if maxStacks <= 0 then DEFAULT_MAX_STACKS else maxStacks
    {
      this.maxStacks := if maxStacks <= 0 then DEFAULT_MAX_STACKS else maxStacks;
      this.hash := hash;
      buckets, ticks, dropped, seen := map[], 0, 0, [];
    }

    /** Banks a tick against each live stack of one snapshot. */
    method Sample(records: seq<Stack>)
      requires Valid()
      modifies this
      ensures Valid() && ticks == old(ticks) + 1 && seen == old(seen) + Live(records)
    {
      hide Table, Dropped, Kept;
      ticks := ticks + 1;
      assert records[..0] == [];
      for i := 0 to |records|
        invariant Valid() && ticks == old(ticks) + 1 && seen == old(seen) + Live(records[..i])
      {
        assert records[..i + 1][..i] == records[..i];
        var pcs := records[i];
        if pcs == [] {
          continue;
        }
        var key := hash(pcs);
        TableKeys(seen, hash, maxStacks);
        TableSnoc(seen, hash, maxStacks, pcs);
        DroppedSnoc(seen, hash, maxStacks, pcs);
        seen := seen + [pcs];
        if key in buckets {
          buckets := buckets[key := buckets[key].(ticks := buckets[key].ticks + 1)];
          continue;
        }
        if |buckets| >= maxStacks {
          dropped := dropped + 1;
          continue;
        }
        buckets := buckets[key := Bucket(pcs, 1)];
      }
      assert records[..|records|] == records;
    }

    /** Hands over the buckets, most ticks first, and starts again. */
    method Drain() returns (out: seq<Bucket>, ticksOut: nat, droppedOut: nat)
      requires Valid()
      modifies this
      ensures Descending(out)
      ensures multiset(out) == multiset(Buckets(old(seen), hash, Kept(old(seen), hash, maxStacks)))
      ensures ticksOut == old(ticks) && droppedOut == Dropped(old(seen), hash, maxStacks)
      ensures Valid() && seen == [] && buckets == map[] && ticks == 0 && dropped == 0
    {
      hide Table, Dropped, Kept, Buckets;
      out := [];
      var left := buckets.Keys;
      TableKeys(seen, hash, maxStacks);
      ghost var keys := Kept(seen, hash, maxStacks);
      ghost var taken: seq<nat> := [];
      while left != {}
        invariant left <= buckets.Keys && Distinct(taken)
        invariant forall key :: key in buckets.Keys <==> key in left || key in taken
        invariant forall key :: key in left ==> key !in taken
        invariant out == Buckets(seen, hash, taken)
        invariant buckets == old(buckets) && ticks == old(ticks) && dropped == old(dropped) && seen == old(seen) && Valid()
        decreases |left|
      {
        var key :| key in left;
        BucketsSnoc(seen, hash, taken, key);
        TableAt(seen, hash, maxStacks, key);
        out := out + [buckets[key]];
        taken := taken + [key];
        left := left - {key};
      }
      SameBuckets(seen, hash, taken, keys);
      out := SortByTicks(out);
      ticksOut, droppedOut := ticks, dropped;
      buckets, ticks, dropped, seen := map[], 0, 0, [];
      NothingSeen(hash, maxStacks);
    }
  }

  lemma NothingSeen(hash: Hash, max: nat)
    ensures Table([], hash, max) == map[] && Dropped([], hash, max) == 0
  {
  }

  lemma TableKeys(seen: seq<Stack>, hash: Hash, max: nat)
    ensures var keys, table := Kept(seen, hash, max), Table(seen, hash, max);
      |table| == |keys| <= max && Distinct(keys) && forall key :: key in table <==> key in keys
  {
    hide Kept, BucketOf;
    var keys, table := Kept(seen, hash, max), Table(seen, hash, max);
    DistinctCount(keys);
    assert table.Keys == KeySet(keys);
    assert |table| == |table.Keys|;
  }

  function KeySet(keys: seq<nat>): set<nat> {
    set key | key in keys
  }

  lemma {:induction false} DistinctCount(keys: seq<nat>)
    requires Distinct(keys)
    ensures |KeySet(keys)| == |keys|
  {
    if keys != [] {
      var init, last := keys[..|keys| - 1], keys[|keys| - 1];
      DistinctCount(init);
      assert keys == init + [last] && last !in init;
      assert KeySet(keys) == KeySet(init) + {last};
    }
  }

  lemma TableAt(seen: seq<Stack>, hash: Hash, max: nat, key: nat)
    requires key in Table(seen, hash, max)
    ensures Table(seen, hash, max)[key] == BucketOf(seen, hash, key)
  {
    hide Kept, BucketOf;
  }

  lemma BucketsSnoc(seen: seq<Stack>, hash: Hash, keys: seq<nat>, key: nat)
    ensures Buckets(seen, hash, keys + [key]) == Buckets(seen, hash, keys) + [BucketOf(seen, hash, key)]
  {
  }

  ghost predicate SameKeys(a: seq<nat>, b: seq<nat>) {
    forall key: nat :: key in a <==> key in b
  }

  /** The bag of buckets does not depend on the order the keys are taken in. */
  lemma {:induction false} SameBuckets(seen: seq<Stack>, hash: Hash, a: seq<nat>, b: seq<nat>)
    requires Distinct(a) && Distinct(b) && SameKeys(a, b)
    ensures multiset(Buckets(seen, hash, a)) == multiset(Buckets(seen, hash, b))
    decreases |a|
  {
    hide BucketOf, Buckets;
    assert b == [] || b[0] in b;
    if a != [] {
      assert a[|a| - 1] in b;
      var init, last := a[..|a| - 1], a[|a| - 1];
      assert a == init + [last];
      var i :| 0 <= i < |b| && b[i] == last;
      var rest := b[..i] + b[i + 1..];
      assert b == b[..i] + [last] + b[i + 1..];
      Without(a, b, i);
      SameBuckets(seen, hash, init, rest);
      BucketsSnoc(seen, hash, init, last);
      BucketsAppend(seen, hash, b[..i] + [last], b[i + 1..]);
      BucketsAppend(seen, hash, b[..i], b[i + 1..]);
      BucketsSnoc(seen, hash, b[..i], last);
    }
  }

  lemma BucketsAppend(seen: seq<Stack>, hash: Hash, a: seq<nat>, b: seq<nat>)
    ensures Buckets(seen, hash, a + b) == Buckets(seen, hash, a) + Buckets(seen, hash, b)
  {
  }

  lemma Without(a: seq<nat>, b: seq<nat>, i: nat)
    requires Distinct(a) && Distinct(b) && SameKeys(a, b)
    requires i < |b| && a != [] && b[i] == a[|a| - 1]
    ensures Distinct(b[..i] + b[i + 1..])
    ensures SameKeys(a[..|a| - 1], b[..i] + b[i + 1..])
  {
    var init, last, rest := a[..|a| - 1], a[|a| - 1], b[..i] + b[i + 1..];
    assert a == init + [last] && b == b[..i] + [last] + b[i + 1..];
    assert last !in init && last !in b[..i] && last !in b[i + 1..];
    forall key ensures key in init <==> key in rest {
      assert key in a <==> key in init || key == last;
      assert key in b <==> key in rest || key == last;
    }
  }
}
