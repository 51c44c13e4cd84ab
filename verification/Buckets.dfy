/** hash.h `put`: every key's hits are counted in the chain of its bucket, kept in order of value. */
module Buckets {
  import opened Chains
  import opened Pointers

  /** The entries of bucket `b`: no key twice, every value the count of its key. */
  ghost predicate KeysOk(cells: seq<Entry>, c: set<nat>, counts: map<nat, nat>, bucketOf: nat -> nat, b: nat) {
    && (forall x :: x in c ==>
          x < |cells| && bucketOf(cells[x].key) == b && cells[x].key in counts &&
            cells[x].value == counts[cells[x].key])
    && (forall x, y :: x in c && y in c && x != y ==> cells[x].key != cells[y].key)
  }

  ghost function Ids(c: seq<nat>): set<nat> {
    set x | x in c
  }

  /** A bucket: an ordered chain of entries that count their keys. */
  ghost predicate IsBucket(cells: seq<Entry>, head: Ptr, c: seq<nat>, counts: map<nat, nat>, bucketOf: nat -> nat,
                           b: nat) {
    IsChain(cells, head, c) && Ordered(cells, c) && KeysOk(cells, Ids(c), counts, bucketOf, b)
  }

  /** Every entry is in the chain of its key's bucket. */
  ghost predicate Covered(cells: seq<Entry>, chains: seq<seq<nat>>, bucketOf: nat -> nat) {
    forall id :: 0 <= id < |cells| ==> bucketOf(cells[id].key) < |chains| && id in chains[bucketOf(cells[id].key)]
  }

  /** Every counted key has been hit and has an entry. */
  ghost predicate KeysCovered(cells: seq<Entry>, counts: map<nat, nat>) {
    forall k :: k in counts ==> counts[k] > 0 && exists id :: 0 <= id < |cells| && cells[id].key == k
  }

  ghost predicate Buckets(cells: seq<Entry>, heads: seq<Ptr>, chains: seq<seq<nat>>, counts: map<nat, nat>,
                          bucketOf: nat -> nat) {
    |heads| == |chains| && forall b :: 0 <= b < |chains| ==> IsBucket(cells, heads[b], chains[b], counts, bucketOf, b)
  }

  ghost predicate TableOk(cells: seq<Entry>, heads: seq<Ptr>, chains: seq<seq<nat>>, counts: map<nat, nat>,
                          bucketOf: nat -> nat) {
    && 0 < |heads| == |chains|
    && (forall k :: bucketOf(k) < |heads|)
    && Buckets(cells, heads, chains, counts, bucketOf)
    && Covered(cells, chains, bucketOf)
    && KeysCovered(cells, counts)
  }

  /** Buckets other than `pos` do not notice that a key of bucket `pos` is counted. */
  lemma OtherBuckets(before: seq<Entry>, after: seq<Entry>, heads: seq<Ptr>, chains: seq<seq<nat>>,
                     counts: map<nat, nat>, bucketOf: nat -> nat, pos: nat, key: nat, n: nat, b: nat)
    requires Buckets(before, heads, chains, counts, bucketOf) && pos < |chains| && b < |chains| && b != pos
    requires bucketOf(key) == pos && |before| <= |after|
    requires forall id :: 0 <= id < |before| && bucketOf(before[id].key) != pos ==> after[id] == before[id]
    ensures IsBucket(after, heads[b], chains[b], counts[key := n], bucketOf, b)
  {
  }

  /** A key that is in no entry of its bucket has not been counted. */
  lemma AbsentKey(cells: seq<Entry>, heads: seq<Ptr>, chains: seq<seq<nat>>, counts: map<nat, nat>,
                  bucketOf: nat -> nat, key: nat)
    requires TableOk(cells, heads, chains, counts, bucketOf)
    requires var c := chains[bucketOf(key)];
             InArena(cells, c) && forall i :: 0 <= i < |c| ==> cells[c[i]].key != key
    ensures key !in counts
  {
  }

  /** `after` is the arena with one new entry for `key`, hung behind the chain `c`. */
  ghost predicate AppendedTo(cells: seq<Entry>, after: seq<Entry>, head: Ptr, c: seq<nat>, key: nat) {
    && |after| == |cells| + 1
    && IsChain(after, head, c + [|cells|])
    && after[|cells|].key == key && after[|cells|].value == 1
    && (forall i :: 0 <= i < |cells| ==> after[i].key == cells[i].key && after[i].value == cells[i].value)
    && (forall i :: 0 <= i < |cells| && i !in c ==> after[i] == cells[i])
  }

  lemma InFrontOfAll(cells: seq<Entry>, c: seq<nat>, k: nat)
    requires k < |c| && InArena(cells, c) && OrderedBut(cells, c, k) && cells[c[0]].value < cells[c[k]].value
    ensures forall i :: 0 <= i < k ==> cells[c[k]].value >= cells[c[i]].value
  {
  }

  /** Once the next entry is no larger than the grown one, or the grown one is only level with
      entry `l`, everything in between is no larger either. */
  lemma SmallerBehind(cells: seq<Entry>, c: seq<nat>, k: nat, l: nat)
    requires l < k < |c| && InArena(cells, c) && OrderedBut(cells, c, k)
    requires cells[c[l]].value <= cells[c[k]].value || cells[c[l + 1]].value <= cells[c[k]].value
    requires cells[c[l]].value >= cells[c[k]].value
    ensures forall i :: 0 <= i <= l ==> cells[c[i]].value >= cells[c[k]].value
    ensures forall i :: l < i < k ==> cells[c[k]].value >= cells[c[i]].value
  {
  }

  /** The stores of put for a new key: the entry becomes the head of an empty bucket, or is linked
      behind the tail. */
  lemma StoresAppend(cells: seq<Entry>, head: Ptr, c: seq<nat>, key: nat)
    requires IsChain(cells, head, c)
    ensures c == [] ==> AppendedTo(cells, cells + [Entry(key, 1, head)], At(|cells|), c, key)
    ensures c != [] ==>
              var tail := c[|c| - 1];
              AppendedTo(cells, SetNext(cells + [Entry(key, 1, cells[tail].next)], tail, At(|cells|)), head, c, key)
  {
  }

  lemma AppendedKeys(cells: seq<Entry>, after: seq<Entry>, c: set<nat>, counts: map<nat, nat>,
                     bucketOf: nat -> nat, b: nat, key: nat)
    requires KeysOk(cells, c, counts, bucketOf, b) && bucketOf(key) == b && key !in counts
    requires |after| == |cells| + 1 && after[|cells|].key == key && after[|cells|].value == 1
    requires forall i :: 0 <= i < |cells| ==> after[i].key == cells[i].key && after[i].value == cells[i].value
    ensures KeysOk(after, c + {|cells|}, counts[key := 1], bucketOf, b)
  {
  }

  lemma AppendedOrder(cells: seq<Entry>, after: seq<Entry>, c: seq<nat>)
    requires InArena(cells, c) && Ordered(cells, c) && forall i :: 0 <= i < |c| ==> cells[c[i]].value >= 1
    requires |after| == |cells| + 1 && after[|cells|].value == 1
    requires forall i :: 0 <= i < |cells| ==> after[i].value == cells[i].value
    ensures InArena(after, c + [|cells|]) && Ordered(after, c + [|cells|])
  {
  }

  lemma AppendedBucket(cells: seq<Entry>, after: seq<Entry>, head: Ptr, head': Ptr, c: seq<nat>, counts: map<nat, nat>,
                       bucketOf: nat -> nat, b: nat, key: nat)
    requires IsBucket(cells, head, c, counts, bucketOf, b) && bucketOf(key) == b && key !in counts
    requires forall k :: k in counts ==> counts[k] > 0
    requires AppendedTo(cells, after, head', c, key)
    ensures IsBucket(after, head', c + [|cells|], counts[key := 1], bucketOf, b)
  {
    assert InArena(cells, c);
    assert forall i :: 0 <= i < |c| ==> c[i] in Ids(c);
    hide IsChain, Ordered;
    AppendedOrder(cells, after, c);
    AppendedKeys(cells, after, Ids(c), counts, bucketOf, b, key);
    assert Ids(c + [|cells|]) == Ids(c) + {|cells|};
  }

  lemma PutNewKeepsTable(cells: seq<Entry>, after: seq<Entry>, heads: seq<Ptr>, head': Ptr, chains: seq<seq<nat>>,
                         counts: map<nat, nat>, bucketOf: nat -> nat, pos: nat, key: nat)
    requires TableOk(cells, heads, chains, counts, bucketOf) && key !in counts && pos == bucketOf(key)
    requires AppendedTo(cells, after, head', chains[pos], key)
    ensures TableOk(after, heads[pos := head'], chains[pos := chains[pos] + [|cells|]], counts[key := 1], bucketOf)
  {
    var c := chains[pos];
    assert IsBucket(cells, heads[pos], c, counts, bucketOf, pos);
    AppendedBucket(cells, after, heads[pos], head', c, counts, bucketOf, pos, key);
    BucketReplaced(cells, after, heads, head', chains, c + [|cells|], counts, bucketOf, pos, key, 1);
  }

  lemma NotInChain(cells: seq<Entry>, heads: seq<Ptr>, chains: seq<seq<nat>>, counts: map<nat, nat>,
                   bucketOf: nat -> nat, pos: nat)
    requires Buckets(cells, heads, chains, counts, bucketOf) && pos < |chains|
    ensures forall id :: id in chains[pos] ==> id < |cells| && bucketOf(cells[id].key) == pos
  {
  }

  // ---- a hit of a key that is already there ----

  function Bump(cells: seq<Entry>, id: nat): seq<Entry>
    requires id < |cells|
  {
    cells[id := cells[id].(value := cells[id].value + 1)]
  }

  lemma BumpAlmostOrdered(cells: seq<Entry>, head: Ptr, c: seq<nat>, k: nat)
    requires IsChain(cells, head, c) && Ordered(cells, c) && k < |c|
    ensures IsChain(Bump(cells, c[k]), head, c) && OrderedBut(Bump(cells, c[k]), c, k)
  {
  }

  /** A permutation of a chain has the same entries. */
  lemma SameEntries(c: seq<nat>, d: seq<nat>)
    requires multiset(c) == multiset(d)
    ensures forall id :: id in c <==> id in d
  {
    assert forall id :: id in c <==> id in multiset(c);
    assert forall id :: id in d <==> id in multiset(d);
  }

  lemma PromotedBucket(cells: seq<Entry>, after: seq<Entry>, head: Ptr, head': Ptr, c: seq<nat>, d: seq<nat>, k: nat,
                       counts: map<nat, nat>, bucketOf: nat -> nat, b: nat)
    requires IsBucket(cells, head, c, counts, bucketOf, b) && k < |c| && c[k] < |cells|
    requires Reordered(Bump(cells, c[k]), after, head', c, d)
    ensures cells[c[k]].key in counts
    ensures var key := cells[c[k]].key; IsBucket(after, head', d, counts[key := counts[key] + 1], bucketOf, b)
  {
    hide IsChain, Ordered;
    SameEntries(c, d);
    assert Ids(c) == Ids(d) && c[k] in Ids(c);
    hide KeysOk;
  }

  /** One bucket and the counts have changed, and nothing outside that bucket. */
  lemma BucketReplaced(cells: seq<Entry>, after: seq<Entry>, heads: seq<Ptr>, head': Ptr, chains: seq<seq<nat>>,
                       d: seq<nat>, counts: map<nat, nat>, bucketOf: nat -> nat, pos: nat, key: nat, n: nat)
    requires TableOk(cells, heads, chains, counts, bucketOf) && pos == bucketOf(key) && n > 0
    requires |after| >= |cells| && forall id :: 0 <= id < |cells| ==> after[id].key == cells[id].key
    requires forall id :: 0 <= id < |cells| && id !in chains[pos] ==> after[id] == cells[id]
    requires forall id :: id in chains[pos] ==> id in d
    requires forall id :: |cells| <= id < |after| ==> after[id].key == key && id in d
    requires exists id :: 0 <= id < |after| && after[id].key == key
    requires IsBucket(after, head', d, counts[key := n], bucketOf, pos)
    ensures TableOk(after, heads[pos := head'], chains[pos := d], counts[key := n], bucketOf)
  {
    hide IsBucket;
    NotInChain(cells, heads, chains, counts, bucketOf, pos);
    forall b | 0 <= b < |chains| && b != pos
      ensures IsBucket(after, heads[b], chains[b], counts[key := n], bucketOf, b)
    {
      OtherBuckets(cells, after, heads, chains, counts, bucketOf, pos, key, n, b);
    }
  }

  lemma PutKnownKeepsTable(cells: seq<Entry>, after: seq<Entry>, heads: seq<Ptr>, head': Ptr, chains: seq<seq<nat>>,
                           d: seq<nat>, k: nat, counts: map<nat, nat>, bucketOf: nat -> nat, pos: nat, key: nat)
    requires TableOk(cells, heads, chains, counts, bucketOf) && pos == bucketOf(key)
    requires k < |chains[pos]| && chains[pos][k] < |cells| && cells[chains[pos][k]].key == key
    requires Reordered(Bump(cells, chains[pos][k]), after, head', chains[pos], d)
    ensures key in counts
    ensures TableOk(after, heads[pos := head'], chains[pos := d], counts[key := counts[key] + 1], bucketOf)
  {
    hide IsBucket, IsChain, Ordered, Ids;
    var c := chains[pos];
    assert IsBucket(cells, heads[pos], c, counts, bucketOf, pos);
    PromotedBucket(cells, after, heads[pos], head', c, d, k, counts, bucketOf, pos);
    SameEntries(c, d);
    assert after[c[k]].key == key;
    BucketReplaced(cells, after, heads, head', chains, d, counts, bucketOf, pos, key, counts[key] + 1);
  }

  lemma BucketIsChain(cells: seq<Entry>, heads: seq<Ptr>, chains: seq<seq<nat>>, counts: map<nat, nat>,
                      bucketOf: nat -> nat, pos: nat)
    requires Buckets(cells, heads, chains, counts, bucketOf) && pos < |chains|
    ensures IsChain(cells, heads[pos], chains[pos]) && InArena(cells, chains[pos]) && Ordered(cells, chains[pos])
    ensures heads[pos] == PtrAt(chains[pos], 0)
  {
  }
}
