/** hash.h `merge`: two ordered chains become one by relinking their entries behind a head node. */
module Merging {
  import opened Chains
  import opened Pointers

  ghost predicate Disjoint(c: seq<nat>, d: seq<nat>) {
    forall i, j :: 0 <= i < |c| && 0 <= j < |d| ==> c[i] != d[j]
  }

  /** The order in which merge takes the entries: from the first chain only when strictly larger. */
  ghost function MergeSeq(cells: seq<Entry>, a: seq<nat>, b: seq<nat>): seq<nat>
    requires InArena(cells, a) && InArena(cells, b)
  {
    if a == [] then b
    else if b == [] then a
    else if cells[a[0]].value > cells[b[0]].value then [a[0]] + MergeSeq(cells, a[1..], b)
    else [b[0]] + MergeSeq(cells, a, b[1..])
  }

  /** Merging loses no entry and invents none. */
  lemma {:induction false} MergePermutes(cells: seq<Entry>, a: seq<nat>, b: seq<nat>)
    requires InArena(cells, a) && InArena(cells, b)
    ensures multiset(MergeSeq(cells, a, b)) == multiset(a) + multiset(b)
  {
    if a != [] && b != [] {
      assert a == [a[0]] + a[1..] && b == [b[0]] + b[1..];
      if cells[a[0]].value > cells[b[0]].value {
        MergePermutes(cells, a[1..], b);
      } else {
        MergePermutes(cells, a, b[1..]);
      }
    }
  }

  ghost predicate AtMost(cells: seq<Entry>, c: seq<nat>, v: nat)
    requires InArena(cells, c)
  {
    forall i :: 0 <= i < |c| ==> cells[c[i]].value <= v
  }

  lemma {:induction false} MergeBounded(cells: seq<Entry>, a: seq<nat>, b: seq<nat>, v: nat)
    requires InArena(cells, a) && InArena(cells, b) && AtMost(cells, a, v) && AtMost(cells, b, v)
    ensures InArena(cells, MergeSeq(cells, a, b)) && AtMost(cells, MergeSeq(cells, a, b), v)
  {
    if a != [] && b != [] {
      if cells[a[0]].value > cells[b[0]].value {
        MergeBounded(cells, a[1..], b, v);
      } else {
        MergeBounded(cells, a, b[1..], v);
      }
    }
  }

  lemma OrderedCons(cells: seq<Entry>, x: nat, c: seq<nat>)
    requires x < |cells| && InArena(cells, c) && Ordered(cells, c) && AtMost(cells, c, cells[x].value)
    ensures InArena(cells, [x] + c) && Ordered(cells, [x] + c)
  {
  }

  lemma OrderedHead(cells: seq<Entry>, c: seq<nat>)
    requires InArena(cells, c) && Ordered(cells, c) && c != []
    ensures InArena(cells, c[1..]) && Ordered(cells, c[1..]) && AtMost(cells, c, cells[c[0]].value)
  {
  }

  /** Merging two ordered chains gives an ordered one. */
  lemma {:induction false} MergeOrdered(cells: seq<Entry>, a: seq<nat>, b: seq<nat>)
    requires InArena(cells, a) && InArena(cells, b) && Ordered(cells, a) && Ordered(cells, b)
    ensures InArena(cells, MergeSeq(cells, a, b)) && Ordered(cells, MergeSeq(cells, a, b))
  {
    hide Ordered;
    if a != [] && b != [] {
      OrderedHead(cells, a);
      OrderedHead(cells, b);
      if cells[a[0]].value > cells[b[0]].value {
        MergeOrdered(cells, a[1..], b);
        MergeBounded(cells, a[1..], b, cells[a[0]].value);
        OrderedCons(cells, a[0], MergeSeq(cells, a[1..], b));
      } else {
        MergeOrdered(cells, a, b[1..]);
        MergeBounded(cells, a, b[1..], cells[b[0]].value);
        OrderedCons(cells, b[0], MergeSeq(cells, a, b[1..]));
      }
    }
  }

  lemma {:induction false} MergeIgnoresLinks(before: seq<Entry>, after: seq<Entry>, a: seq<nat>, b: seq<nat>)
    requires InArena(before, a) && InArena(before, b) && |before| <= |after|
    requires forall i :: 0 <= i < |before| ==> after[i].value == before[i].value
    ensures MergeSeq(before, a, b) == MergeSeq(after, a, b)
  {
    if a != [] && b != [] {
      if before[a[0]].value > before[b[0]].value {
        MergeIgnoresLinks(before, after, a[1..], b);
      } else {
        MergeIgnoresLinks(before, after, a, b[1..]);
      }
    }
  }

  /** `d` starts at the head node and is linked up to its last entry, whose link is still open;
      what is left of the two chains hangs untouched at `pa` and `pb`. */
  ghost predicate Linking(cells: seq<Entry>, d: seq<nat>, pa: Ptr, ra: seq<nat>, pb: Ptr, rb: seq<nat>) {
    && |d| > 0 && InArena(cells, d) && Distinct(d)
    && (forall t {:trigger cells[d[t]]} :: 0 <= t < |d| - 1 ==> cells[d[t]].next == PtrAt(d, t + 1))
    && IsChain(cells, pa, ra) && IsChain(cells, pb, rb)
    && Disjoint(d, ra) && Disjoint(d, rb) && Disjoint(ra, rb)
  }

  lemma LinkingSymmetric(cells: seq<Entry>, d: seq<nat>, pa: Ptr, ra: seq<nat>, pb: Ptr, rb: seq<nat>)
    requires Linking(cells, d, pa, ra, pb, rb)
    ensures Linking(cells, d, pb, rb, pa, ra)
  {
  }

  /** Taking the first entry of one chain: the open link is set and the entry becomes the last. */
  lemma TakeFirst(cells: seq<Entry>, d: seq<nat>, pa: Ptr, ra: seq<nat>, pb: Ptr, rb: seq<nat>)
    requires Linking(cells, d, pa, ra, pb, rb) && ra != []
    ensures d[|d| - 1] < |cells| && pa == At(ra[0]) && ra[0] < |cells|
    ensures var after := SetNext(cells, d[|d| - 1], pa);
            after[ra[0]].next == cells[ra[0]].next &&
            Linking(after, d + [ra[0]], after[ra[0]].next, ra[1..], pb, rb)
  {
    var last := d[|d| - 1];
    var after := SetNext(cells, last, pa);
    var e := d + [ra[0]];
    forall t | 0 <= t < |e| - 1
      ensures after[e[t]].next == PtrAt(e, t + 1)
    {
      assert t < |d| - 1 ==> cells[d[t]].next == PtrAt(d, t + 1);
    }
    assert Disjoint(e, ra[1..]) && Disjoint(e, rb) && Disjoint(ra[1..], rb);
  }

  /** Closing the open link with what is left of one chain. */
  lemma CloseLink(cells: seq<Entry>, d: seq<nat>, pa: Ptr, ra: seq<nat>, pb: Ptr, rb: seq<nat>)
    requires Linking(cells, d, pa, ra, pb, rb)
    ensures d[|d| - 1] < |cells|
    ensures IsChain(SetNext(cells, d[|d| - 1], pa), At(d[0]), d + ra)
  {
  }

  /** Freeing the head node. */
  lemma DropHead(cells: seq<Entry>, n: nat, c: seq<nat>)
    requires |cells| == n + 1 && IsChain(cells, At(n), [n] + c)
    ensures IsChain(cells[..n], cells[n].next, c)
  {
    var e := [n] + c;
    assert e[1..] == c;
    forall i | 0 <= i < |c|
      ensures c[i] < n && cells[..n][c[i]].next == PtrAt(c, i + 1)
    {
      assert e[i + 1] != e[0];
    }
  }

  /** Keys and values are as before, and entries outside `a` and `b` are untouched. */
  ghost predicate Rewired(before: seq<Entry>, after: seq<Entry>, a: seq<nat>, b: seq<nat>) {
    && |before| <= |after|
    && (forall i :: 0 <= i < |before| ==> after[i].key == before[i].key && after[i].value == before[i].value)
    && (forall i :: 0 <= i < |before| && i !in a && i !in b ==> after[i] == before[i])
  }

  lemma RewiredRefl(cells: seq<Entry>, a: seq<nat>, b: seq<nat>)
    ensures Rewired(cells, cells, a, b)
  {
  }

  lemma SetNextRewires(before: seq<Entry>, cells: seq<Entry>, p: nat, q: Ptr, a: seq<nat>, b: seq<nat>)
    requires Rewired(before, cells, a, b) && p < |cells| && (p in a || p in b || p >= |before|)
    ensures Rewired(before, SetNext(cells, p, q), a, b)
  {
  }

  lemma RewiredOrdered(before: seq<Entry>, after: seq<Entry>, a: seq<nat>, b: seq<nat>, c: seq<nat>)
    requires Rewired(before, after, a, b) && InArena(before, c) && Ordered(before, c)
    ensures InArena(after, c) && Ordered(after, c)
  {
  }

  /** `done` has been taken, `ra` and `rb` are left, and taking goes in the order of MergeSeq. */
  ghost predicate Progress(cells: seq<Entry>, a: seq<nat>, b: seq<nat>, done: seq<nat>, ra: seq<nat>, rb: seq<nat>) {
    && InArena(cells, a) && InArena(cells, b) && InArena(cells, ra) && InArena(cells, rb)
    && MergeSeq(cells, a, b) == done + MergeSeq(cells, ra, rb)
    && (forall x :: x in done ==> x in a || x in b)
    && (forall x :: x in ra ==> x in a) && (forall x :: x in rb ==> x in b)
  }

  lemma ProgressFromA(cells: seq<Entry>, a: seq<nat>, b: seq<nat>, done: seq<nat>, ra: seq<nat>, rb: seq<nat>)
    requires Progress(cells, a, b, done, ra, rb) && ra != [] && rb != [] && cells[ra[0]].value > cells[rb[0]].value
    ensures Progress(cells, a, b, done + [ra[0]], ra[1..], rb)
  {
  }

  lemma ProgressFromB(cells: seq<Entry>, a: seq<nat>, b: seq<nat>, done: seq<nat>, ra: seq<nat>, rb: seq<nat>)
    requires Progress(cells, a, b, done, ra, rb) && ra != [] && rb != [] && cells[ra[0]].value <= cells[rb[0]].value
    ensures Progress(cells, a, b, done + [rb[0]], ra, rb[1..])
  {
  }

  lemma ProgressWithin(cells: seq<Entry>, a: seq<nat>, b: seq<nat>, done: seq<nat>, ra: seq<nat>, rb: seq<nat>)
    requires Progress(cells, a, b, done, ra, rb)
    ensures forall x :: x in done ==> x in a || x in b
    ensures InArena(cells, ra) && InArena(cells, rb)
  {
  }

  /** The state of the merge loop; the head node is the last cell of the arena. */
  ghost predicate MergeState(before: seq<Entry>, cells: seq<Entry>, a: seq<nat>, b: seq<nat>, done: seq<nat>,
                             pa: Ptr, ra: seq<nat>, pb: Ptr, rb: seq<nat>) {
    && |cells| == |before| + 1
    && Linking(cells, [|before|] + done, pa, ra, pb, rb)
    && Rewired(before, cells, a, b)
    && Progress(before, a, b, done, ra, rb)
  }

  /** The entry whose link is open. */
  function Last(head: nat, done: seq<nat>): nat {
    if done == [] then head else done[|done| - 1]
  }

  lemma TakeKeepsLinking(before: seq<Entry>, cells: seq<Entry>, a: seq<nat>, b: seq<nat>, done: seq<nat>,
                         pa: Ptr, ra: seq<nat>, pb: Ptr, rb: seq<nat>)
    requires |cells| == |before| + 1 && Linking(cells, [|before|] + done, pa, ra, pb, rb) && ra != []
    requires Rewired(before, cells, a, b) && forall x :: x in done ==> x in a || x in b
    ensures pa == At(ra[0]) && ra[0] < |cells| && Last(|before|, done) < |cells|
    ensures var after := SetNext(cells, Last(|before|, done), pa);
            && Linking(after, [|before|] + (done + [ra[0]]), after[ra[0]].next, ra[1..], pb, rb)
            && Rewired(before, after, a, b)
  {
    var d := [|before|] + done;
    assert d[|d| - 1] == Last(|before|, done);
    TakeFirst(cells, d, pa, ra, pb, rb);
    assert d + [ra[0]] == [|before|] + (done + [ra[0]]);
    hide Linking;
    assert done != [] ==> done[|done| - 1] in done;
    SetNextRewires(before, cells, Last(|before|, done), pa, a, b);
  }

  lemma MergeStarts(before: seq<Entry>, pa: Ptr, a: seq<nat>, pb: Ptr, b: seq<nat>)
    requires IsChain(before, pa, a) && IsChain(before, pb, b) && Disjoint(a, b)
    ensures MergeState(before, before + [Entry(0, 0, Null)], a, b, [], pa, a, pb, b)
  {
    var cells := before + [Entry(0, 0, Null)];
    forall i | 0 <= i < |a|
      ensures cells[a[i]].next == PtrAt(a, i + 1)
    {
    }
    forall i | 0 <= i < |b|
      ensures cells[b[i]].next == PtrAt(b, i + 1)
    {
    }
    assert [|before|] + [] == [|before|];
  }

  /** One round of the merge loop, when the first chain has the larger head. */
  lemma TakeFromA(before: seq<Entry>, cells: seq<Entry>, a: seq<nat>, b: seq<nat>, done: seq<nat>,
                  pa: Ptr, ra: seq<nat>, pb: Ptr, rb: seq<nat>)
    requires MergeState(before, cells, a, b, done, pa, ra, pb, rb) && ra != [] && rb != []
    requires InArena(cells, ra) && InArena(cells, rb) && cells[ra[0]].value > cells[rb[0]].value
    ensures Last(|before|, done) < |cells|
    ensures var after := SetNext(cells, Last(|before|, done), pa);
            MergeState(before, after, a, b, done + [ra[0]], after[ra[0]].next, ra[1..], pb, rb)
  {
    hide Linking, Progress;
    ProgressWithin(before, a, b, done, ra, rb);
    ProgressFromA(before, a, b, done, ra, rb);
    hide Rewired;
    TakeKeepsLinking(before, cells, a, b, done, pa, ra, pb, rb);
  }

  /** One round of the merge loop otherwise. */
  lemma TakeFromB(before: seq<Entry>, cells: seq<Entry>, a: seq<nat>, b: seq<nat>, done: seq<nat>,
                  pa: Ptr, ra: seq<nat>, pb: Ptr, rb: seq<nat>)
    requires MergeState(before, cells, a, b, done, pa, ra, pb, rb) && ra != [] && rb != []
    requires InArena(cells, ra) && InArena(cells, rb) && cells[ra[0]].value <= cells[rb[0]].value
    ensures Last(|before|, done) < |cells|
    ensures var after := SetNext(cells, Last(|before|, done), pb);
            MergeState(before, after, a, b, done + [rb[0]], pa, ra, after[rb[0]].next, rb[1..])
  {
    hide Linking, Progress;
    ProgressWithin(before, a, b, done, ra, rb);
    ProgressFromB(before, a, b, done, ra, rb);
    hide Rewired;
    LinkingSymmetric(cells, [|before|] + done, pa, ra, pb, rb);
    TakeKeepsLinking(before, cells, a, b, done, pb, rb, pa, ra);
    var after := SetNext(cells, Last(|before|, done), pb);
    LinkingSymmetric(after, [|before|] + (done + [rb[0]]), after[rb[0]].next, rb[1..], pa, ra);
  }

  lemma MergeStateChains(before: seq<Entry>, cells: seq<Entry>, a: seq<nat>, b: seq<nat>, done: seq<nat>,
                         pa: Ptr, ra: seq<nat>, pb: Ptr, rb: seq<nat>)
    requires MergeState(before, cells, a, b, done, pa, ra, pb, rb)
    ensures IsChain(cells, pa, ra) && IsChain(cells, pb, rb) && Last(|before|, done) < |cells|
  {
    assert ([|before|] + done)[|done|] == Last(|before|, done);
  }

  /** Closing the loop: one chain is exhausted, the rest of the other is linked as a whole. */
  lemma MergeCloses(before: seq<Entry>, cells: seq<Entry>, a: seq<nat>, b: seq<nat>, done: seq<nat>,
                    pa: Ptr, ra: seq<nat>, pb: Ptr, rb: seq<nat>)
    requires MergeState(before, cells, a, b, done, pa, ra, pb, rb) && (ra == [] || rb == [])
    ensures Last(|before|, done) < |cells|
    ensures var after := SetNext(cells, Last(|before|, done), if pa != Null then pa else pb);
            && IsChain(after[..|before|], after[|before|].next, MergeSeq(before, a, b))
            && Rewired(before, after[..|before|], a, b)
  {
    hide Linking, IsChain;
    MergeRest(before, ra, rb);
    hide MergeSeq;
    var rest := if ra == [] then rb else ra;
    CloseRest(before, cells, a, b, done, pa, ra, pb, rb, rest);
    var after := SetNext(cells, Last(|before|, done), if pa != Null then pa else pb);
    DropHead(after, |before|, done + rest);
    hide SetNext;
  }

  lemma MergeRest(cells: seq<Entry>, a: seq<nat>, b: seq<nat>)
    requires InArena(cells, a) && InArena(cells, b) && (a == [] || b == [])
    ensures MergeSeq(cells, a, b) == if a == [] then b else a
  {
  }

  lemma CloseRest(before: seq<Entry>, cells: seq<Entry>, a: seq<nat>, b: seq<nat>, done: seq<nat>,
                  pa: Ptr, ra: seq<nat>, pb: Ptr, rb: seq<nat>, rest: seq<nat>)
    requires MergeState(before, cells, a, b, done, pa, ra, pb, rb) && (ra == [] || rb == [])
    requires rest == if ra == [] then rb else ra
    ensures Last(|before|, done) < |cells|
    ensures var after := SetNext(cells, Last(|before|, done), if pa != Null then pa else pb);
            IsChain(after, At(|before|), [|before|] + (done + rest)) && Rewired(before, after, a, b)
  {
    hide MergeSeq, Rewired;
    var d := [|before|] + done;
    LinkingSymmetric(cells, d, pa, ra, pb, rb);
    hide Linking;
    if ra == [] {
      CloseOnto(before, cells, a, b, done, pb, rb, pa, ra);
    } else {
      CloseOnto(before, cells, a, b, done, pa, ra, pb, rb);
    }
  }

  lemma CloseOnto(before: seq<Entry>, cells: seq<Entry>, a: seq<nat>, b: seq<nat>, done: seq<nat>,
                  p: Ptr, r: seq<nat>, o: Ptr, s: seq<nat>)
    requires Linking(cells, [|before|] + done, p, r, o, s) && |cells| == |before| + 1 && Rewired(before, cells, a, b)
    requires forall x :: x in done ==> x in a || x in b
    ensures Last(|before|, done) < |cells|
    ensures var after := SetNext(cells, Last(|before|, done), p);
            IsChain(after, At(|before|), [|before|] + (done + r)) && Rewired(before, after, a, b)
  {
    var d := [|before|] + done;
    assert d[|d| - 1] == Last(|before|, done);
    CloseLink(cells, d, p, r, o, s);
    hide Linking, IsChain;
    assert d + r == [|before|] + (done + r);
    assert done != [] ==> done[|done| - 1] in done;
    SetNextRewires(before, cells, Last(|before|, done), p, a, b);
  }
}
