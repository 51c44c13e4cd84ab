/** hash.h and the reduction loop of ac_auto.c, as operations of one table. */
module CountTable {
  import opened Chains
  import opened Pointers
  import opened Buckets
  import opened Merging
  import opened Reduction

  /** The entries count what the table counted: every key once, with its value. */
  ghost predicate CountsExactly(cells: seq<Entry>, counts: map<nat, nat>) {
    && (forall i, j :: 0 <= i < j < |cells| ==> cells[i].key != cells[j].key)
    && (forall i :: 0 <= i < |cells| ==> cells[i].key in counts && cells[i].value == counts[cells[i].key])
    && (forall k :: k in counts ==> counts[k] > 0 && exists id :: 0 <= id < |cells| && cells[id].key == k)
  }

  lemma CountsIgnoreLinks(before: seq<Entry>, after: seq<Entry>, a: seq<nat>, b: seq<nat>, counts: map<nat, nat>)
    requires CountsExactly(before, counts) && Rewired(before, after, a, b) && |after| == |before|
    ensures CountsExactly(after, counts)
  {
  }

  /** At stride 1 every entry is at home in its own bucket. */
  ghost function HomeOf(cells: seq<Entry>, bucketOf: nat -> nat): seq<nat> {
    seq<nat>(|cells|, id requires 0 <= id < |cells| => bucketOf(cells[id].key))
  }

  lemma FirstRound(cells: seq<Entry>, heads: seq<Ptr>, chains: seq<seq<nat>>, counts: map<nat, nat>,
                   bucketOf: nat -> nat)
    requires TableOk(cells, heads, chains, counts, bucketOf)
    ensures |heads| > 0 && Round(cells, heads, HomeOf(cells, bucketOf), |heads|, 1, chains, [])
  {
    var home := HomeOf(cells, bucketOf);
    forall b: nat | b < |heads|
      ensures Slot(b, 1) == b && Holds(cells, heads[b], chains[b], home, 1, b)
    {
      assert IsBucket(cells, heads[b], chains[b], counts, bucketOf, b);
      forall id: nat
        ensures id in chains[b] <==> id < |home| && home[id] / 1 == b
      {
        assert id in chains[b] <==> id in Ids(chains[b]);
      }
    }
    assert Slot(|heads| - 1, 1) == |heads| - 1 && Slot(|heads|, 1) == |heads|;
  }

  lemma TableCounts(cells: seq<Entry>, heads: seq<Ptr>, chains: seq<seq<nat>>, counts: map<nat, nat>,
                    bucketOf: nat -> nat)
    requires TableOk(cells, heads, chains, counts, bucketOf)
    ensures CountsExactly(cells, counts)
  {
  }

  /** What the result file lists: every counted key once with its count, largest counts first. */
  ghost predicate SortedReport(rows: seq<(nat, nat)>, counts: map<nat, nat>) {
    && (forall i, j :: 0 <= i < j < |rows| ==> rows[i].1 >= rows[j].1 && rows[i].0 != rows[j].0)
    && (forall i :: 0 <= i < |rows| ==> rows[i].0 in counts && rows[i].1 == counts[rows[i].0] > 0)
    && (forall k :: k in counts ==> (k, counts[k]) in rows)
  }

  lemma ReportOfChain(cells: seq<Entry>, list: seq<nat>, counts: map<nat, nat>, rows: seq<(nat, nat)>)
    requires CountsExactly(cells, counts) && InArena(cells, list) && Distinct(list) && Ordered(cells, list)
    requires forall id :: 0 <= id < |cells| ==> id in list
    requires |rows| == |list| && forall i :: 0 <= i < |list| ==> rows[i] == (cells[list[i]].key, cells[list[i]].value)
    ensures SortedReport(rows, counts)
  {
    forall k | k in counts
      ensures (k, counts[k]) in rows
    {
      var id: nat :| 0 <= id < |cells| && cells[id].key == k;
      assert id in list;
      var i :| 0 <= i < |list| && list[i] == id;
      assert rows[i] == (k, counts[k]);
    }
    forall i, j | 0 <= i < j < |rows|
      ensures rows[i].1 >= rows[j].1 && rows[i].0 != rows[j].0
    {
      assert list[i] != list[j];
      assert list[i] < list[j] || list[j] < list[i];
    }
  }

  ghost function RowKeys(rows: seq<(nat, nat)>): set<nat> {
    set i | 0 <= i < |rows| :: rows[i].0
  }

  lemma {:induction false} DistinctRows(rows: seq<(nat, nat)>)
    requires forall i, j :: 0 <= i < j < |rows| ==> rows[i].0 != rows[j].0
    ensures |RowKeys(rows)| == |rows|
  {
    if rows != [] {
      var n := |rows| - 1;
      DistinctRows(rows[..n]);
      assert rows[n].0 !in RowKeys(rows[..n]);
      assert RowKeys(rows) == RowKeys(rows[..n]) + {rows[n].0};
    }
  }

  lemma ReportSize(rows: seq<(nat, nat)>, counts: map<nat, nat>)
    requires SortedReport(rows, counts)
    ensures |rows| == |counts|
  {
    DistinctRows(rows);
    forall k | k in counts
      ensures k in RowKeys(rows)
    {
      var i :| 0 <= i < |rows| && rows[i] == (k, counts[k]);
      assert rows[i].0 in RowKeys(rows);
    }
    assert RowKeys(rows) == counts.Keys;
    assert |counts| == |counts.Keys|;
  }

  lemma EmptyTableOk(heads: seq<Ptr>, chains: seq<seq<nat>>, bucketOf: nat -> nat)
    requires 0 < |heads| == |chains| && forall k :: bucketOf(k) < |heads|
    requires forall b :: 0 <= b < |heads| ==> heads[b] == Null && chains[b] == []
    ensures TableOk([], heads, chains, map[], bucketOf)
  {
    forall b: nat | b < |heads|
      ensures IsBucket([], heads[b], chains[b], map[], bucketOf, b)
    {
      EmptyBucket(bucketOf, b);
    }
    hide IsBucket;
  }

  lemma EmptyBucket(bucketOf: nat -> nat, b: nat)
    ensures IsBucket([], Null, [], map[], bucketOf, b)
  {
  }

  class Table {
    const bucketOf: nat -> nat
    const table: array<Ptr>
    var cells: seq<Entry>
    ghost var chains: seq<seq<nat>>
    ghost var counts: map<nat, nat>

    ghost predicate Valid()
      reads this, table
    {
      TableOk(cells, table[..], chains, counts, bucketOf)
    }

    /** The zero-initialised hash table. `bucketOf` stands for hashing the string at a pointer. */
    constructor (length: nat, bucketOf: nat -> nat)
      requires 0 < length && forall k :: bucketOf(k) < length
      ensures Valid() && fresh(table) && counts == map[] && cells == []
      ensures this.bucketOf == bucketOf && table.Length == length
    {
      this.bucketOf := bucketOf;
      table := new Ptr[length](_ => Null);
      cells, chains, counts := [], seq(length, _ => []), map[];
      new;
      EmptyTableOk(table[..], chains, bucketOf);
    }

    /** The first loop of put: the entry with this key, or null. */
    method FindEntry(head: Ptr, key: nat, ghost c: seq<nat>) returns (ep: Ptr, ghost k: nat)
      requires IsChain(cells, head, c)
      ensures k <= |c| && ep == PtrAt(c, k)
      ensures ep != Null ==> cells[ep.id].key == key
      ensures forall i :: 0 <= i < k ==> cells[c[i]].key != key
    {
      ep, k := head, 0;
      while ep != Null && cells[ep.id].key != key
        invariant k <= |c| && ep == PtrAt(c, k)
        invariant forall i :: 0 <= i < k ==> cells[c[i]].key != key
        decreases |c| - k
      {
        ep, k := cells[ep.id].next, k + 1;
      }
    }

    /** put for a new key: walk to the tail and hang the new entry behind it. */
    method AppendEntry(head: Ptr, key: nat, ghost c: seq<nat>) returns (newHead: Ptr)
      requires IsChain(cells, head, c)
      modifies this`cells
      ensures AppendedTo(old(cells), cells, newHead, c, key)
    {
      var e := |cells|;
      var tail := head;
      ghost var k: nat := 0;
      while tail != Null && cells[tail.id].next != Null
        invariant k <= |c| && tail == PtrAt(c, k)
        invariant c == [] || k < |c|
        decreases |c| - k
      {
        tail, k := cells[tail.id].next, k + 1;
      }
      StoresAppend(cells, head, c, key);
      if tail == Null {
        cells := cells + [Entry(key, 1, head)];
        newHead := At(e);
      } else {
        cells := cells + [Entry(key, 1, cells[tail.id].next)];
        cells := SetNext(cells, tail.id, At(e));
        newHead := head;
      }
    }

    /** The loop that finds the entry in front of `ep`, starting at the `l`-th entry. */
    method Predecessor(pre: nat, ep: nat, ghost c: seq<nat>, ghost k: nat, ghost l: nat) returns (last: nat)
      requires l < k < |c| && IsChain(cells, At(c[0]), c) && pre == c[l] && ep == c[k]
      ensures last == c[k - 1]
    {
      ghost var i: nat := l;
      last := pre;
      while cells[last].next != At(ep)
        invariant l <= i < k && last == c[i]
        decreases k - i
      {
        last, i := cells[last].next.id, i + 1;
      }
    }

    /** The loop that finds the last entry the grown one must stay behind. */
    method FindSlot(head: nat, ep: nat, ghost c: seq<nat>, ghost k: nat) returns (pre: nat, ghost l: nat)
      requires 0 < k < |c| && IsChain(cells, At(head), c) && c[k] == ep
      requires OrderedBut(cells, c, k) && cells[head].value >= cells[ep].value
      ensures l < k && pre == c[l]
      ensures forall i :: 0 <= i <= l ==> cells[c[i]].value >= cells[ep].value
      ensures forall i :: l < i < k ==> cells[ep].value >= cells[c[i]].value
    {
      hide Distinct;
      pre, l := head, 0;
      while cells[pre].value > cells[ep].value && cells[cells[pre].next.id].value > cells[ep].value
        invariant l < k && pre == c[l] && cells[pre].next == At(c[l + 1]) && cells[pre].value >= cells[ep].value
        decreases k - l
      {
        pre, l := cells[pre].next.id, l + 1;
      }
      SmallerBehind(cells, c, k, l);
    }

    /** put for a known key, after `value++`: relink the entry so that the chain is ordered again. */
    method Promote(head: nat, ep: nat, ghost c: seq<nat>, ghost k: nat) returns (newHead: Ptr, ghost d: seq<nat>)
      requires k < |c| && c[0] == head && IsChain(cells, At(head), c) && c[k] == ep && OrderedBut(cells, c, k)
      modifies this`cells
      ensures Reordered(old(cells), cells, newHead, c, d)
    {
      ChainFacts(cells, c, k);
      hide MovedTo, Relinked, SetNext, Ordered, Reordered, OrderedBut, IsChain, Distinct;
      var pre := head;
      ghost var before := cells;
      if pre == ep {
        newHead, d := At(head), c;
        FrontIsReordered(cells, c);
      } else if cells[pre].value < cells[ep].value {
        RelinkInFront(head, ep, c, k);
        newHead, d := At(ep), MovedTo(c, k, 0);
        InFrontOfAll(before, c, k);
        MovedIsReordered(before, cells, newHead, c, k, 0);
      } else {
        ghost var l;
        pre, l := FindSlot(head, ep, c, k);
        RelinkBehind(pre, ep, c, k, l);
        newHead, d := At(head), MovedTo(c, k, l + 1);
        MovedIsReordered(before, cells, newHead, c, k, l + 1);
      }
    }

    method RelinkInFront(head: nat, ep: nat, ghost c: seq<nat>, ghost k: nat)
      requires 0 < k < |c| && head == c[0] && ep == c[k] && IsChain(cells, At(head), c)
      modifies this`cells
      ensures IsChain(cells, At(ep), MovedTo(c, k, 0)) && Relinked(old(cells), cells, c)
    {
      var last := Predecessor(head, ep, c, k, 0);
      MovedInFront(cells, c, k);
      hide MovedTo, Relinked, IsChain, Distinct;
      cells := SetNext(cells, last, cells[ep].next);
      cells := SetNext(cells, ep, At(head));
    }

    method RelinkBehind(pre: nat, ep: nat, ghost c: seq<nat>, ghost k: nat, ghost l: nat)
      requires l < k < |c| && IsChain(cells, At(c[0]), c) && pre == c[l] && ep == c[k]
      modifies this`cells
      ensures IsChain(cells, At(c[0]), MovedTo(c, k, l + 1)) && Relinked(old(cells), cells, c)
    {
      var last := Predecessor(pre, ep, c, k, l);
      MovedBehind(cells, c, k, l);
      hide MovedTo, Relinked, IsChain, Distinct;
      cells := SetNext(cells, last, cells[ep].next);
      cells := SetNext(cells, ep, cells[pre].next);
      cells := SetNext(cells, pre, At(ep));
    }

    /** put: counts one more hit of the key; the answer tells whether the key is new. */
    method Put(key: nat) returns (isNew: bool)
      requires Valid()
      modifies this, table
      ensures Valid()
      ensures isNew <==> key !in old(counts)
      ensures counts == old(counts)[key := if isNew then 1 else old(counts)[key] + 1]
    {
      hide IsBucket, Covered, KeysCovered, IsChain, Ordered, OrderedBut, AppendedTo, Reordered;
      var pos := bucketOf(key);
      ghost var c := chains[pos];
      ghost var before, heads := cells, table[..];
      assert heads[pos] == table[pos];
      BucketIsChain(cells, heads, chains, counts, bucketOf, pos);
      var ep, k := FindEntry(table[pos], key, c);
      if ep == Null {
        AbsentKey(cells, heads, chains, counts, bucketOf, key);
        var head := AppendEntry(table[pos], key, c);
        PutNewKeepsTable(before, cells, heads, head, chains, counts, bucketOf, pos, key);
        table[pos] := head;
        assert table[..] == heads[pos := head];
        chains, counts, isNew := chains[pos := c + [|before|]], counts[key := 1], true;
      } else {
        BumpAlmostOrdered(cells, table[pos], c, k);
        cells := Bump(cells, ep.id);
        var head, d := Promote(table[pos].id, ep.id, c, k);
        PutKnownKeepsTable(before, cells, heads, head, chains, d, k, counts, bucketOf, pos, key);
        table[pos] := head;
        assert table[..] == heads[pos := head];
        chains, counts, isNew := chains[pos := d], counts[key := counts[key] + 1], false;
      }
    }

    /** The loop of merge, for a non-empty first chain: entries are relinked behind a head node,
        which is freed at the end. */
    method MergeLoop(ea: Ptr, eb: Ptr, ghost a: seq<nat>, ghost b: seq<nat>) returns (head: Ptr)
      requires IsChain(cells, ea, a) && IsChain(cells, eb, b) && Disjoint(a, b)
      modifies this`cells
      ensures |cells| == old(|cells|) && Rewired(old(cells), cells, a, b)
      ensures InArena(old(cells), a) && InArena(old(cells), b)
      ensures IsChain(cells, head, MergeSeq(old(cells), a, b))
    {
      hide MergeSeq, MergeState, Rewired;
      ghost var before := cells;
      MergeStarts(cells, ea, a, eb, b);
      var pa, pb := ea, eb;
      var lc := |cells|;
      cells := cells + [Entry(0, 0, Null)];
      var pc := lc;
      ghost var done, ra, rb := [], a, b;
      MergeStateChains(before, cells, a, b, done, pa, ra, pb, rb);
      while pa != Null && pb != Null
        invariant |cells| == lc + 1 && pc == Last(lc, done) && pc < |cells|
        invariant IsChain(cells, pa, ra) && IsChain(cells, pb, rb)
        invariant MergeState(before, cells, a, b, done, pa, ra, pb, rb)
        decreases |ra| + |rb|
      {
        if cells[pa.id].value > cells[pb.id].value {
          TakeFromA(before, cells, a, b, done, pa, ra, pb, rb);
          cells := SetNext(cells, pc, pa);
          pc := pa.id;
          pa := cells[pa.id].next;
          done, ra := done + [ra[0]], ra[1..];
        } else {
          TakeFromB(before, cells, a, b, done, pa, ra, pb, rb);
          cells := SetNext(cells, pc, pb);
          pc := pb.id;
          pb := cells[pb.id].next;
          done, rb := done + [rb[0]], rb[1..];
        }
        MergeStateChains(before, cells, a, b, done, pa, ra, pb, rb);
      }
      MergeCloses(before, cells, a, b, done, pa, ra, pb, rb);
      cells := SetNext(cells, pc, if pa != Null then pa else pb);
      head := cells[lc].next;
      cells := cells[..lc];
    }

    /** merge: the chain of bucket `j` is merged into bucket `i`. When bucket `i` was not empty, the
        head of bucket `j` keeps its old, now meaningless value. */
    method Merge(i: nat, j: nat, ghost a: seq<nat>, ghost b: seq<nat>) returns (ghost c: seq<nat>)
      requires i < table.Length && j < table.Length && i != j && Disjoint(a, b)
      requires IsChain(cells, table[i], a) && Ordered(cells, a)
      requires IsChain(cells, table[j], b) && Ordered(cells, b)
      modifies this`cells, table
      ensures multiset(c) == multiset(a) + multiset(b)
      ensures IsChain(cells, table[i], c) && Ordered(cells, c)
      ensures |cells| == old(|cells|) && Rewired(old(cells), cells, a, b)
      ensures forall x :: 0 <= x < table.Length && x != i && x != j ==> table[x] == old(table[x])
      ensures table[j] == if a == [] then Null else old(table[j])
    {
      assert table[i] == PtrAt(a, 0);
      hide Ordered, MergeSeq, Rewired;
      ghost var before := cells;
      c := MergeSeq(cells, a, b);
      MergePermutes(cells, a, b);
      MergeOrdered(cells, a, b);
      if table[i] == Null {
        MergeRest(cells, a, b);
        table[i] := table[j];
        table[j] := Null;
        RewiredRefl(cells, a, b);
      } else {
        var head := MergeLoop(table[i], table[j], a, b);
        table[i] := head;
        RewiredOrdered(before, cells, a, b, c);
      }
    }

    /** The stride-doubling loop: afterwards bucket 0 links all entries, largest values first. Each
        merge is asked only of two buckets that are still alive. */
    method FoldBuckets() returns (ghost list: seq<nat>)
      requires Valid()
      modifies this`cells, table
      ensures 0 < table.Length && IsChain(cells, table[0], list) && Ordered(cells, list)
      ensures forall id :: 0 <= id < |cells| ==> id in list
      ensures CountsExactly(cells, counts)
    {
      hide HomeOf, Halved, Round, TableOk, CountsExactly, IsChain, Ordered;
      var stride := 1;
      var group := table.Length;
      ghost var live := chains;
      ghost var home := HomeOf(cells, bucketOf);
      TableCounts(cells, table[..], chains, counts, bucketOf);
      FirstRound(cells, table[..], chains, counts, bucketOf);
      while group != 1
        invariant 0 < group && 0 < stride
        invariant Round(cells, table[..], home, group, stride, live, [])
        invariant CountsExactly(cells, counts)
        decreases group
      {
        ghost var g := group;
        group := (group + 1) / 2;
        ghost var merged := MergePairs(stride, group, g, live, home);
        NextRound(cells, table[..], home, g, stride, live, merged);
        live, home := merged, Halved(home);
        stride := 2 * stride;
      }
      LastRound(cells, table[..], home, stride, live);
      list := live[0];
    }

    /** The inner for loop of the reduction: one round over all pairs of live buckets. */
    method MergePairs(stride: nat, group: nat, ghost g: nat, ghost live: seq<seq<nat>>, ghost home: seq<nat>)
      returns (ghost merged: seq<seq<nat>>)
      requires group == (g + 1) / 2
      requires Round(cells, table[..], home, g, stride, live, []) && CountsExactly(cells, counts)
      modifies this`cells, table
      ensures |merged| == group && Round(cells, table[..], home, g, stride, live, merged)
      ensures CountsExactly(cells, counts)
    {
      hide Round, CountsExactly, IsChain, Ordered, Rewired, Slot;
      merged := [];
      var i := 0;
      while i < group
        invariant 0 <= i == |merged| <= group
        invariant Round(cells, table[..], home, g, stride, live, merged) && CountsExactly(cells, counts)
      {
        ghost var before, heads := cells, table[..];
        PairToMerge(cells, heads, home, g, stride, live, merged);
        if i * 2 * stride + stride < table.Length {
          ghost var c := Merge(i * 2 * stride, i * 2 * stride + stride, live[2 * i], live[2 * i + 1]);
          PairMerged(before, cells, heads, table[..], home, g, stride, live, merged, c);
          CountsIgnoreLinks(before, cells, live[2 * i], live[2 * i + 1], counts);
          merged := merged + [c];
        } else {
          OddBucketStays(cells, heads, home, g, stride, live, merged);
          merged := merged + [live[2 * i]];
        }
        i := i + 1;
      }
    }

    /** The sorted counts, as the last loop of main writes them. */
    method Report() returns (rows: seq<(nat, nat)>)
      requires Valid()
      modifies this`cells, table
      ensures SortedReport(rows, counts)
    {
      hide Ordered, Distinct, CountsExactly, SortedReport, TableOk;
      ghost var list := FoldBuckets();
      rows := [];
      var entry := table[0];
      while entry != Null
        invariant |rows| <= |list| && entry == PtrAt(list, |rows|)
        invariant forall i :: 0 <= i < |rows| ==> rows[i] == (cells[list[i]].key, cells[list[i]].value)
        decreases |list| - |rows|
      {
        rows := rows + [(cells[entry.id].key, cells[entry.id].value)];
        entry := cells[entry.id].next;
      }
      ReportOfChain(cells, list, counts, rows);
    }
  }
}
