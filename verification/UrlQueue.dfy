/** bcrawler.h: the linked queue with its dummy front node, and what its two stores do to the list. */
module UrlQueue {
  import opened Strings
  import opened Pointers

  datatype Item = Item(id: int, url: Str)

  datatype Cell = Cell(item: Item, next: Ptr)

  ghost predicate LinkAt(cells: seq<Cell>, c: seq<nat>, i: nat)
    requires i < |c|
  {
    0 < c[i] < |cells| && cells[c[i]].next == PtrAt(c, i + 1)
  }

  /** `c` lists the cells behind the dummy cell 0, in order. */
  ghost predicate Links(cells: seq<Cell>, c: seq<nat>) {
    && cells != [] && Distinct(c)
    && (forall i :: 0 <= i < |c| ==> 0 < c[i] < |cells|)
    && cells[0].next == PtrAt(c, 0)
    && (forall i {:trigger LinkAt(cells, c, i)} :: 0 <= i < |c| ==> LinkAt(cells, c, i))
  }

  /** The rear of a queue at rest: its last cell, or the dummy. */
  function LastOf(c: seq<nat>): nat {
    if c == [] then 0 else c[|c| - 1]
  }

  ghost function Items(cells: seq<Cell>, c: seq<nat>): seq<Item>
    requires forall i :: 0 <= i < |c| ==> c[i] < |cells|
  {
    seq(|c|, i requires 0 <= i < |c| => cells[c[i]].item)
  }

  /** `rear->next = new_node`, the new cell holding `x`. */
  function Linked(cells: seq<Cell>, r: nat, x: Item): seq<Cell>
    requires r < |cells|
  {
    (cells + [Cell(x, Null)])[r := cells[r].(next := At(|cells|))]
  }

  /** `front->next = p->next`. */
  function Unlinked(cells: seq<Cell>, p: nat): seq<Cell>
    requires p < |cells|
  {
    cells[0 := cells[0].(next := cells[p].next)]
  }

  lemma LinkAppends(cells: seq<Cell>, c: seq<nat>, x: Item)
    requires Links(cells, c)
    ensures Links(Linked(cells, LastOf(c), x), c + [|cells|])
    ensures Items(Linked(cells, LastOf(c), x), c + [|cells|]) == Items(cells, c) + [x]
  {
    var cells', c' := Linked(cells, LastOf(c), x), c + [|cells|];
    forall i: nat | i < |c'|
      ensures LinkAt(cells', c', i)
    {
      assert i < |c| ==> LinkAt(cells, c, i);
    }
  }

  lemma UnlinkRemovesFirst(cells: seq<Cell>, c: seq<nat>)
    requires Links(cells, c) && c != []
    ensures cells[0].next == At(c[0]) && c[0] < |cells|
    ensures Links(Unlinked(cells, c[0]), c[1..]) && Items(Unlinked(cells, c[0]), c[1..]) == Items(cells, c)[1..]
  {
    var cells', c' := Unlinked(cells, c[0]), c[1..];
    assert LinkAt(cells, c, 0);
    forall i: nat | i < |c'|
      ensures LinkAt(cells', c', i)
    {
      assert LinkAt(cells, c, i + 1);
    }
  }
}
