/**
  Mac OS queues in memory: singly linked lists threaded through the elements' own first long
  word, with a head and a tail cell in the queue header.

  Elements are named by address. The cell that points to element `i` of a queue is the head cell
  or the link cell of element `i - 1`; the code works on such cell addresses throughout.
 */
module DriveQueue {
  import opened Bytes
  import opened MacMemory

  // Offsets in a queue header and a queue element
  const Q_LINK := 0
  const Q_HEAD := 2
  const Q_TAIL := 6

  // Offsets in a drive status record, which embeds its queue element
  const DS_Q_LINK := 6
  const DS_Q_DRIVE := 12
  const DS_Q_REF_NUM := 14

  /** Address of the drive queue's header. */
  const DRV_Q_HDR := 0x308

  /** From an element's link to the end of its driver reference number. */
  const ELEM_SIZE := 10

  // ---------- Queues in memory ----------

  /** Two elements do not share memory. */
  predicate Apart(a: int, b: int) {
    a + ELEM_SIZE <= b || b + ELEM_SIZE <= a
  }

  /** `e` is an address an element can have: not nil, and clear of the header and of address 0. */
  predicate Placed(list: int, e: int) {
    4 <= e < 0x1_0000_0000 && (e + ELEM_SIZE <= list || list + 10 <= e)
  }

  ghost predicate Separate(list: int, elems: seq<int>) {
    && 4 <= list && list + 10 < 0x1_0000_0000
    && (forall i :: 0 <= i < |elems| ==> Placed(list, elems[i]))
    && (forall i, j :: 0 <= i < j < |elems| ==> Apart(elems[i], elems[j]))
  }

  /** The address of the cell that points to element `i`, or holds the final nil. */
  function Cell(list: int, q: seq<int>, i: nat): (at: int)
    requires i <= |q|
  {
    if i == 0 then list + Q_HEAD else q[i - 1] + Q_LINK
  }

  function ElemAt(q: seq<int>, i: nat): (e: int) {
    if i < |q| then q[i] else 0
  }

  /** The head cell and the links lead through exactly `q`. */
  ghost predicate Chained(mem: Memory, list: int, q: seq<int>) {
    forall i :: 0 <= i <= |q| ==> Read32(mem, Cell(list, q, i)) == ElemAt(q, i)
  }

  /** The header and the elements form the queue `q`: the chain, and the tail cell. */
  ghost predicate IsQueue(mem: Memory, list: int, q: seq<int>) {
    && Separate(list, q)
    && Chained(mem, list, q)
    && Read32(mem, list + Q_TAIL) == (if q == [] then 0 else q[|q| - 1])
  }

  // ---------- The three operations, on memory ----------

  function Insert(mem: Memory, elem: Word32, at: int, list: int): (mem': Memory) {
    var next := Read32(mem, at);
    var linked := Write32(Write32(mem, at, elem), elem + Q_LINK, next);
    if next == 0 then Write32(linked, list + Q_TAIL, elem) else linked
  }

  function Remove(mem: Memory, at: Word32, list: int): (mem': Memory) {
    var e := Read32(mem, at);
    var next := Read32(mem, e + Q_LINK);
    var tailed :=
      if next == 0 then Write32(mem, list + Q_TAIL, if at == list + Q_HEAD then 0 else at - Q_LINK)
      else mem;
    Write32(Write32(tailed, at, next), e + Q_LINK, 0)
  }

  function Inserted(q: seq<int>, i: nat, e: int): (q': seq<int>)
    requires i <= |q|
  {
    q[..i] + [e] + q[i..]
  }

  function Removed(q: seq<int>, i: nat): (q': seq<int>)
    requires i < |q|
  {
    q[..i] + q[i + 1..]
  }

  lemma CellPlaces(list: int, q: seq<int>, i: nat)
    requires Separate(list, q) && i <= |q|
    ensures CellsApart(Cell(list, q, i), list + Q_TAIL)
    ensures 0 < Cell(list, q, i) < 0x1_0000_0000
    ensures forall j :: 0 <= j <= |q| && j != i ==> CellsApart(Cell(list, q, i), Cell(list, q, j))
    ensures forall j :: 0 <= j <= |q| && j != i ==> Cell(list, q, i) != Cell(list, q, j)
  {
  }

  /** What it means for `e` to be a possible further element. */
  lemma NewPlace(list: int, q: seq<int>, e: int)
    requires Separate(list, q + [e])
    ensures Separate(list, q) && Placed(list, e)
    ensures forall j :: 0 <= j < |q| ==> Apart(q[j], e)
    ensures forall j :: 0 <= j <= |q| ==> CellsApart(Cell(list, q, j), e + Q_LINK)
    ensures CellsApart(e + Q_LINK, list + Q_TAIL)
  {
    var longer := q + [e];
    assert longer[|q|] == e;
    assert forall j :: 0 <= j < |q| ==> longer[j] == q[j];
    forall j | 0 <= j < |q|
      ensures Apart(q[j], e)
    {
      assert Apart(longer[j], longer[|q|]);
    }
  }

  lemma SeparateInserted(list: int, q: seq<int>, i: nat, e: int)
    requires i <= |q| && Separate(list, q + [e])
    ensures Separate(list, Inserted(q, i, e))
  {
    NewPlace(list, q, e);
    var q' := Inserted(q, i, e);
    assert forall j :: 0 <= j < |q'| ==> q'[j] == if j < i then q[j] else if j == i then e else q[j - 1];
  }

  /** The cells of a queue after an insertion. */
  lemma InsertedCells(list: int, q: seq<int>, i: nat, e: int, j: nat)
    requires i <= |q| && j <= |q| + 1
    ensures var q' := Inserted(q, i, e);
      && |q'| == |q| + 1
      && Cell(list, q', j) ==
           (if j <= i then Cell(list, q, j) else if j == i + 1 then e + Q_LINK else Cell(list, q, j - 1))
      && ElemAt(q', j) == (if j < i then ElemAt(q, j) else if j == i then e else ElemAt(q, j - 1))
  {
  }

  /** Inserting an element at the cell that points to position `i` puts it there. */
  lemma InsertIntoQueue(mem: Memory, list: int, q: seq<int>, i: nat, e: Word32)
    requires i <= |q| && IsQueue(mem, list, q) && Separate(list, q + [e])
    ensures IsQueue(Insert(mem, e, Cell(list, q, i), list), list, Inserted(q, i, e))
  {
    hide Read32, Write32, Cell, ElemAt, Inserted;
    SeparateInserted(list, q, i, e);
    NewPlace(list, q, e);
    CellPlaces(list, q, i);
    var at, next, q' := Cell(list, q, i), ElemAt(q, i), Inserted(q, i, e);
    var m1 := Write32(mem, at, e);
    var m2 := Write32(m1, e + Q_LINK, next);
    WriteCell(mem, at, e);
    WriteCell(m1, e + Q_LINK, next);
    WriteCell(m2, list + Q_TAIL, e);
    var m' := Insert(mem, e, at, list);
    InsertedCells(list, q, i, e, 0);
    InsertedTail(q, i, e);
    forall j | 0 <= j <= |q| + 1
      ensures Read32(m', Cell(list, q', j)) == ElemAt(q', j)
    {
      InsertedCells(list, q, i, e, j);
      CellPlaces(list, q, if j <= i then j else j - 1);
    }
  }

  lemma NilAtEnd(list: int, q: seq<int>, k: nat)
    requires Separate(list, q) && k <= |q|
    ensures ElemAt(q, k) == 0 <==> k == |q|
  {
    assert k < |q| ==> Placed(list, q[k]);
  }

  lemma InsertedTail(q: seq<int>, i: nat, e: int)
    requires i <= |q| && forall j :: 0 <= j < |q| ==> q[j] != 0
    ensures ElemAt(q, i) != 0 ==> q != []
    ensures var q' := Inserted(q, i, e);
      && q' != []
      && q'[|q'| - 1] == (if ElemAt(q, i) == 0 then e else q[|q| - 1])
  {
  }

  lemma RemovedCells(list: int, q: seq<int>, i: nat, j: nat)
    requires i < |q| && j < |q|
    ensures var q' := Removed(q, i);
      && |q'| == |q| - 1
      && Cell(list, q', j) == (if j <= i then Cell(list, q, j) else Cell(list, q, j + 1))
      && ElemAt(q', j) == (if j < i then ElemAt(q, j) else ElemAt(q, j + 1))
  {
  }

  lemma RemovedTail(list: int, q: seq<int>, i: nat)
    requires i < |q| && Separate(list, q)
    ensures var q' := Removed(q, i);
      (if q' == [] then 0 else q'[|q'| - 1])
      == (if ElemAt(q, i + 1) != 0 then q[|q| - 1]
          else if Cell(list, q, i) == list + Q_HEAD then 0
          else Cell(list, q, i) - Q_LINK)
  {
    CellPlaces(list, q, i);
  }

  lemma SeparateRemoved(list: int, q: seq<int>, i: nat)
    requires i < |q| && Separate(list, q)
    ensures Separate(list, Removed(q, i))
    ensures Removed(q, i) + [q[i]] != [] && Separate(list, Removed(q, i) + [q[i]])
  {
    var q' := Removed(q, i);
    assert forall j :: 0 <= j < |q'| ==> q'[j] == if j < i then q[j] else q[j + 1];
    var q'' := q' + [q[i]];
    assert q''[|q'|] == q[i];
    assert forall j :: 0 <= j < |q'| ==> q''[j] == q'[j];
  }

  /** Removing at the cell that points to position `i` takes that element out, and nils its link. */
  lemma RemoveFromQueue(mem: Memory, list: int, q: seq<int>, i: nat)
    requires i < |q| && IsQueue(mem, list, q)
    ensures 0 <= Cell(list, q, i) < 0x1_0000_0000
    ensures var mem' := Remove(mem, Cell(list, q, i), list);
      IsQueue(mem', list, Removed(q, i)) && Read32(mem', q[i] + Q_LINK) == 0
  {
    hide Read32, Write32, Cell, ElemAt, Removed;
    SeparateRemoved(list, q, i);
    CellPlaces(list, q, i);
    LinkIsCell(list, q, i);
    CellPlaces(list, q, i + 1);
    RemovedTail(list, q, i);
    RemovedCells(list, q, i, 0);
    var at, e, next, q' := Cell(list, q, i), q[i], ElemAt(q, i + 1), Removed(q, i);
    var tail := if at == list + Q_HEAD then 0 else at - Q_LINK;
    var m1 := if next == 0 then Write32(mem, list + Q_TAIL, tail) else mem;
    var m2 := Write32(m1, at, next);
    WriteCell(mem, list + Q_TAIL, tail);
    WriteCell(m1, at, next);
    WriteCell(m2, e + Q_LINK, 0);
    var m' := Remove(mem, at, list);
    forall j | 0 <= j <= |q'|
      ensures Read32(m', Cell(list, q', j)) == ElemAt(q', j)
    {
      RemovedCells(list, q, i, j);
      CellPlaces(list, q, if j <= i then j else j + 1);
    }
  }

  lemma LinkIsCell(list: int, q: seq<int>, i: nat)
    requires i < |q|
    ensures q[i] + Q_LINK == Cell(list, q, i + 1)
    ensures ElemAt(q, i) == q[i]
  {
  }

  // ---------- Moving a driver's drives to the front ----------

  /** Element `e` belongs to the driver. */
  predicate Matches(mem: Memory, refNum: Word32, e: int) {
    Read16(mem, e - DS_Q_LINK + DS_Q_REF_NUM) == refNum % 0x1_0000
  }

  /** The driver's elements, in order. */
  function Matching(mem: Memory, refNum: Word32, q: seq<int>): (r: seq<int>)
    decreases |q|
  {
    if q == [] then []
    else
      var last := q[|q| - 1];
      Matching(mem, refNum, q[..|q| - 1]) + if Matches(mem, refNum, last) then [last] else []
  }

  /** The other elements, in order. */
  function Others(mem: Memory, refNum: Word32, q: seq<int>): (r: seq<int>)
    decreases |q|
  {
    if q == [] then []
    else
      var last := q[|q| - 1];
      Others(mem, refNum, q[..|q| - 1]) + if Matches(mem, refNum, last) then [] else [last]
  }

  /** The stable partition: the driver's elements first. */
  function Partitioned(mem: Memory, refNum: Word32, q: seq<int>): (r: seq<int>) {
    Matching(mem, refNum, q) + Others(mem, refNum, q)
  }

  /** The partition loses nothing and duplicates nothing. */
  lemma {:induction false} PartitionKeepsElements(mem: Memory, refNum: Word32, q: seq<int>)
    ensures multiset(Partitioned(mem, refNum, q)) == multiset(q)
    decreases |q|
  {
    hide Matches, Matching, Others, Partitioned;
    if q == [] {
      PartitionOfNone(mem, refNum);
    } else {
      var rest, e := q[..|q| - 1], q[|q| - 1];
      PartitionKeepsElements(mem, refNum, rest);
      PartitionOneMore(mem, refNum, rest, e);
      assert q == rest + [e];
    }
  }

  lemma PartitionOfNone(mem: Memory, refNum: Word32)
    ensures Partitioned(mem, refNum, []) == []
  {
  }

  lemma PartitionOneMore(mem: Memory, refNum: Word32, q: seq<int>, e: int)
    ensures multiset(Partitioned(mem, refNum, q + [e])) == multiset(Partitioned(mem, refNum, q)) + multiset{e}
  {
    hide Matches, Matching, Others;
    MatchingLast(mem, refNum, q, e);
    OthersLast(mem, refNum, q, e);
    var f, o := Matching(mem, refNum, q), Others(mem, refNum, q);
    MultisetMiddle(f, o, e);
    if Matches(mem, refNum, e) {
      assert o + [] == o;
    } else {
      assert f + [] == f;
    }
  }

  lemma MultisetMiddle(f: seq<int>, o: seq<int>, e: int)
    ensures multiset((f + [e]) + o) == multiset(f + o) + multiset{e}
    ensures multiset(f + (o + [e])) == multiset(f + o) + multiset{e}
  {
  }

  lemma {:induction false} OthersLast(mem: Memory, refNum: Word32, q: seq<int>, e: int)
    ensures Others(mem, refNum, q + [e]) == Others(mem, refNum, q) + if Matches(mem, refNum, e) then [] else [e]
  {
    hide Matches;
    assert (q + [e])[..|q|] == q;
  }

  predicate FirstTwoMatch(mem: Memory, refNum: Word32, q: seq<int>) {
    |q| >= 2 && Matches(mem, refNum, q[0]) && Matches(mem, refNum, q[1])
  }

  lemma PartitionStep(mem: Memory, refNum: Word32, q: seq<int>, k: nat)
    requires k < |q|
    ensures var f, o := Matching(mem, refNum, q[..k]), Others(mem, refNum, q[..k]);
      if Matches(mem, refNum, q[k]) then
        Matching(mem, refNum, q[..k + 1]) == f + [q[k]] && Others(mem, refNum, q[..k + 1]) == o
      else
        Matching(mem, refNum, q[..k + 1]) == f && Others(mem, refNum, q[..k + 1]) == o + [q[k]]
  {
    hide Matches;
    assert q[..k + 1][..k] == q[..k];
  }

  lemma {:induction false} PartitionSize(mem: Memory, refNum: Word32, q: seq<int>)
    ensures |Matching(mem, refNum, q)| + |Others(mem, refNum, q)| == |q|
    decreases |q|
  {
    hide Matches;
    if q != [] { PartitionSize(mem, refNum, q[..|q| - 1]); }
  }

  /** Insertion and removal write links, head and tail only; no element changes its driver. */
  lemma InsertKeepsFields(mem: Memory, list: int, q: seq<int>, i: nat, e: Word32, refNum: Word32, x: int)
    requires i <= |q| && Separate(list, q + [e]) && (x in q || x == e)
    ensures Matches(Insert(mem, e, Cell(list, q, i), list), refNum, x) == Matches(mem, refNum, x)
  {
    hide Read32, Write32, Read16;
    NewPlace(list, q, e);
    var at, next := Cell(list, q, i), Read32(mem, Cell(list, q, i));
    var m1 := Write32(mem, at, e);
    var m2 := Write32(m1, e + Q_LINK, next);
    WriteCell(mem, at, e);
    WriteCell(m1, e + Q_LINK, next);
    WriteCell(m2, list + Q_TAIL, e);
  }

  lemma RemoveKeepsFields(mem: Memory, list: int, q: seq<int>, i: nat, refNum: Word32, x: int)
    requires i < |q| && IsQueue(mem, list, q) && x in q
    ensures 0 <= Cell(list, q, i) < 0x1_0000_0000
    ensures Matches(Remove(mem, Cell(list, q, i), list), refNum, x) == Matches(mem, refNum, x)
  {
    hide Read32, Write32, Read16;
    CellPlaces(list, q, i);
    LinkIsCell(list, q, i);
    var at, e, next := Cell(list, q, i), q[i], ElemAt(q, i + 1);
    assert Read32(mem, at) == e;
    assert Read32(mem, Cell(list, q, i + 1)) == next;
    var tail := if at == list + Q_HEAD then 0 else at - Q_LINK;
    var m1 := if next == 0 then Write32(mem, list + Q_TAIL, tail) else mem;
    var m2 := Write32(m1, at, next);
    WriteCell(mem, list + Q_TAIL, tail);
    WriteCell(m1, at, next);
    WriteCell(m2, e + Q_LINK, 0);
  }

  /** One turn of the loop on a driver's element, as a memory operation. */
  function MoveOne(mem: Memory, e: Word32, ptrToElem: Word32, insertPos: int): (mem': Memory) {
    Insert(Remove(mem, ptrToElem, DRV_Q_HDR), e, insertPos, DRV_Q_HDR)
  }

  /** The queue part way: the visited elements partitioned, the rest untouched. */
  function PartWay(mem: Memory, refNum: Word32, q: seq<int>, k: nat): (r: seq<int>)
    requires k <= |q|
  {
    Partitioned(mem, refNum, q[..k]) + q[k..]
  }

  /** Element `k` of the queue, moved behind the driver's elements in front of it. */
  lemma MoveInQueue(mem: Memory, cur: seq<int>, f: nat, k: nat)
    requires f <= k < |cur| && IsQueue(mem, DRV_Q_HDR, cur)
    ensures var at := Cell(DRV_Q_HDR, cur, k);
      && 0 <= at < 0x1_0000_0000 && 0 <= cur[k] < 0x1_0000_0000
      && IsQueue(MoveOne(mem, cur[k], at, Cell(DRV_Q_HDR, cur, f)), DRV_Q_HDR, Inserted(Removed(cur, k), f, cur[k]))
      && forall x, refNum :: x in cur ==>
           Matches(MoveOne(mem, cur[k], at, Cell(DRV_Q_HDR, cur, f)), refNum, x) == Matches(mem, refNum, x)
  {
    hide Read32, Write32, Insert, Remove, Matches;
    var at, e, rest := Cell(DRV_Q_HDR, cur, k), cur[k], Removed(cur, k);
    RemoveFromQueue(mem, DRV_Q_HDR, cur, k);
    SeparateRemoved(DRV_Q_HDR, cur, k);
    var m1 := Remove(mem, at, DRV_Q_HDR);
    assert Cell(DRV_Q_HDR, rest, f) == Cell(DRV_Q_HDR, cur, f);
    InsertIntoQueue(m1, DRV_Q_HDR, rest, f, e);
    forall x, refNum | x in cur
      ensures Matches(MoveOne(mem, e, at, Cell(DRV_Q_HDR, cur, f)), refNum, x) == Matches(mem, refNum, x)
    {
      RemoveKeepsFields(mem, DRV_Q_HDR, cur, k, refNum, x);
      assert x in rest || x == e;
      InsertKeepsFields(m1, DRV_Q_HDR, rest, f, e, refNum, x);
    }
  }

  lemma PartWayAt(mem: Memory, refNum: Word32, q: seq<int>, k: nat)
    requires k <= |q|
    ensures var cur, f := PartWay(mem, refNum, q, k), |Matching(mem, refNum, q[..k])|;
      && |cur| == |q| && f <= k
      && (forall j :: k <= j < |q| ==> cur[j] == q[j])
      && (k > f ==> cur[k - 1] == Others(mem, refNum, q[..k])[k - f - 1])
  {
    PartitionSize(mem, refNum, q[..k]);
  }

  lemma PartWayMoves(mem: Memory, refNum: Word32, q: seq<int>, k: nat)
    requires k < |q|
    ensures var cur, f := PartWay(mem, refNum, q, k), |Matching(mem, refNum, q[..k])|;
      && |cur| == |q| && f <= k && cur[k] == q[k]
      && PartWay(mem, refNum, q, k + 1) ==
           if Matches(mem, refNum, q[k]) then Inserted(Removed(cur, k), f, q[k]) else cur
  {
    PartitionSize(mem, refNum, q[..k]);
    PartitionStep(mem, refNum, q, k);
    var f, o, x, rest := Matching(mem, refNum, q[..k]), Others(mem, refNum, q[..k]), q[k], q[k + 1..];
    hide Matching, Others, Matches, Inserted, Removed;
    assert q[k..] == [x] + rest;
    assert PartWay(mem, refNum, q, k) == f + o + ([x] + rest);
    SplitMove(f, o, x, rest);
  }

  lemma SplitMove(f: seq<int>, o: seq<int>, x: int, rest: seq<int>)
    ensures f + (o + [x]) + rest == f + o + ([x] + rest)
    ensures Inserted(Removed(f + o + ([x] + rest), |f + o|), |f|, x) == (f + [x]) + o + rest
  {
    var cur := f + o + ([x] + rest);
    assert Removed(cur, |f + o|) == f + (o + rest);
  }

  // ---------- When the first two elements both match ----------

  /** A 16-bit field at `b` is clear of the 32-bit cell at `a`. */
  predicate FieldApart(a: int, b: int) {
    b + 2 <= a || a + 4 <= b
  }

  /** What removal does to memory, whatever the cells hold. */
  lemma RemoveEffect(mem: Memory, at: Word32)
    requires var e := Read32(mem, at);
      CellsApart(at, e) && CellsApart(at, DRV_Q_HDR + Q_TAIL) && CellsApart(e, DRV_Q_HDR + Q_TAIL)
    ensures var e, m' := Read32(mem, at), Remove(mem, at, DRV_Q_HDR);
      && Read32(m', at) == Read32(mem, e) && Read32(m', e) == 0
      && (forall b :: CellsApart(at, b) && CellsApart(e, b) && CellsApart(DRV_Q_HDR + Q_TAIL, b) ==>
            Read32(m', b) == Read32(mem, b))
      && (forall b :: FieldApart(at, b) && FieldApart(e, b) && FieldApart(DRV_Q_HDR + Q_TAIL, b) ==>
            Read16(m', b) == Read16(mem, b))
  {
    hide Read32, Write32, Read16;
    var e := Read32(mem, at);
    var next, tail := Read32(mem, e), if at == DRV_Q_HDR + Q_HEAD then 0 else at - Q_LINK;
    var m1 := if next == 0 then Write32(mem, DRV_Q_HDR + Q_TAIL, tail) else mem;
    var m2 := Write32(m1, at, next);
    WriteCell(mem, DRV_Q_HDR + Q_TAIL, tail);
    WriteCell(m1, at, next);
    WriteCell(m2, e, 0);
  }

  /** What insertion does to memory, whatever the cells hold. */
  lemma InsertEffect(mem: Memory, elem: Word32, at: int)
    requires CellsApart(at, elem) && CellsApart(at, DRV_Q_HDR + Q_TAIL) && CellsApart(elem, DRV_Q_HDR + Q_TAIL)
    ensures var m' := Insert(mem, elem, at, DRV_Q_HDR);
      && Read32(m', at) == elem && Read32(m', elem) == Read32(mem, at)
      && (forall b :: CellsApart(at, b) && CellsApart(elem, b) && CellsApart(DRV_Q_HDR + Q_TAIL, b) ==>
            Read32(m', b) == Read32(mem, b))
      && (forall b :: FieldApart(at, b) && FieldApart(elem, b) && FieldApart(DRV_Q_HDR + Q_TAIL, b) ==>
            Read16(m', b) == Read16(mem, b))
  {
    hide Read32, Write32, Read16;
    var next := Read32(mem, at);
    var m1 := Write32(mem, at, elem);
    var m2 := Write32(m1, elem, next);
    WriteCell(mem, at, elem);
    WriteCell(m1, elem, next);
    WriteCell(m2, DRV_Q_HDR + Q_TAIL, elem);
  }

  /** Nil, or an element other than the first. */
  predicate NotFirst(q: seq<int>, v: int)
    requires |q| >= 1
  {
    v == 0 || v in q[1..]
  }

  /** The cell the loop takes the next element from: the head, or the link of element `c`. */
  function Source(q: seq<int>, c: nat): (at: int)
    requires c < |q|
  {
    if c == 0 then DRV_Q_HDR + Q_HEAD else q[c] + Q_LINK
  }

  /**
    The loop after element `k - 1`, once the first element has been cut off: no cell of the queue
    points to it any more. The loop still visits every element, because the links of those to
    come are intact. Elements go behind element `i`; they are taken at the head (`c` = 0) or at
    the link of element `c`, the last one that did not match.
   */
  ghost predicate CutOff(mem: Memory, q: seq<int>, k: nat, c: nat, i: nat) {
    && Separate(DRV_Q_HDR, q)
    && 2 <= k <= |q| && 1 <= i < k && (c == 0 || (2 <= c < k && c != i))
    && NotFirst(q, Read32(mem, DRV_Q_HDR + Q_HEAD))
    && (forall j :: 0 <= j < |q| ==> NotFirst(q, Read32(mem, q[j] + Q_LINK)))
    && (forall j :: k <= j < |q| ==> Read32(mem, q[j] + Q_LINK) == ElemAt(q, j + 1))
    && Read32(mem, Source(q, c)) == (if c != 0 then ElemAt(q, k) else if k == 2 then q[1] else 0)
    && (c == 0 && k == 2 ==> Read32(mem, q[1] + Q_LINK) == 0)
  }

  /** The next move follows the nil pointer: the head is nil already. */
  predicate FollowsNil(k: nat, c: nat) {
    c == 0 && k > 2
  }

  /** Moving the second of two matching elements cuts the first one off. */
  lemma SecondMatchCutsOff(mem: Memory, q: seq<int>)
    requires IsQueue(mem, DRV_Q_HDR, q) && |q| >= 2
    ensures 0 <= q[1] < 0x1_0000_0000
    ensures CutOff(MoveOne(mem, q[1], DRV_Q_HDR + Q_HEAD, q[0] + Q_LINK), q, 2, 0, 1)
  {
    hide Read32, MoveOne, Separate;
    SecondMatchCells(mem, q, 1);
    var m' := MoveOne(mem, q[1], DRV_Q_HDR + Q_HEAD, q[0] + Q_LINK);
    assert q[1..][0] == q[1];
    forall j | 0 <= j < |q|
      ensures NotFirst(q, Read32(m', q[j] + Q_LINK))
      ensures j >= 2 ==> Read32(m', q[j] + Q_LINK) == ElemAt(q, j + 1)
    {
      SecondMatchCells(mem, q, j);
      if j + 1 < |q| { assert q[1..][j] == q[j + 1]; }
    }
  }

  /** The cells after that move. */
  lemma SecondMatchCells(mem: Memory, q: seq<int>, j: nat)
    requires IsQueue(mem, DRV_Q_HDR, q) && |q| >= 2 && j < |q|
    ensures 0 <= q[1] < 0x1_0000_0000
    ensures var m' := MoveOne(mem, q[1], DRV_Q_HDR + Q_HEAD, q[0] + Q_LINK);
      && Read32(m', DRV_Q_HDR + Q_HEAD) == q[1]
      && Read32(m', q[j] + Q_LINK) == if j == 0 then q[1] else if j == 1 then 0 else ElemAt(q, j + 1)
  {
    hide Read32, Write32, Insert, Remove, Read16;
    assert Apart(q[0], q[1]);
    assert Read32(mem, Cell(DRV_Q_HDR, q, 0)) == q[0];
    assert Read32(mem, Cell(DRV_Q_HDR, q, 1)) == q[1];
    assert Read32(mem, Cell(DRV_Q_HDR, q, j + 1)) == ElemAt(q, j + 1);
    OtherLinks(q, 0, j);
    OtherLinks(q, 1, j);
    RemoveEffect(mem, DRV_Q_HDR + Q_HEAD);
    InsertEffect(Remove(mem, DRV_Q_HDR + Q_HEAD, DRV_Q_HDR), q[1], q[0]);
  }

  lemma SecondMatchKeepsNil(mem: Memory, q: seq<int>)
    requires IsQueue(mem, DRV_Q_HDR, q) && |q| >= 2
    ensures 0 <= q[1] < 0x1_0000_0000
    ensures Read32(MoveOne(mem, q[1], DRV_Q_HDR + Q_HEAD, q[0] + Q_LINK), 0 + Q_LINK) == Read32(mem, 0 + Q_LINK)
  {
    hide Read32, Write32, Insert, Remove, Read16;
    assert Apart(q[0], q[1]);
    assert Read32(mem, Cell(DRV_Q_HDR, q, 0)) == q[0];
    RemoveEffect(mem, DRV_Q_HDR + Q_HEAD);
    InsertEffect(Remove(mem, DRV_Q_HDR + Q_HEAD, DRV_Q_HDR), q[1], q[0]);
  }

  lemma SecondMatchKeepsFields(mem: Memory, q: seq<int>, refNum: Word32, x: int)
    requires IsQueue(mem, DRV_Q_HDR, q) && |q| >= 2 && x in q
    ensures 0 <= q[1] < 0x1_0000_0000
    ensures Matches(MoveOne(mem, q[1], DRV_Q_HDR + Q_HEAD, q[0] + Q_LINK), refNum, x) == Matches(mem, refNum, x)
  {
    hide Read32, Write32, Insert, Remove, Read16;
    assert Apart(q[0], q[1]);
    assert Read32(mem, Cell(DRV_Q_HDR, q, 0)) == q[0];
    RemoveEffect(mem, DRV_Q_HDR + Q_HEAD);
    InsertEffect(Remove(mem, DRV_Q_HDR + Q_HEAD, DRV_Q_HDR), q[1], q[0]);
    var y :| 0 <= y < |q| && q[y] == x;
    FieldPlaces(q, y, 0);
    FieldPlaces(q, y, 1);
  }

  /** The address removal clears: the element that the source cell points to, or address 0. */
  lemma CutOffPlaces(mem: Memory, q: seq<int>, k: nat, c: nat, i: nat)
    requires FollowsNil(k, c) ==> Read32(mem, 0 + Q_LINK) == 0
    requires CutOff(mem, q, k, c, i) && k < |q|
    ensures var at, e := Source(q, c), Read32(mem, Source(q, c));
      && 0 <= at < 0x1_0000_0000 && 0 <= q[k] < 0x1_0000_0000
      && e == (if c != 0 then q[k] else if k == 2 then q[1] else 0)
      && Read32(mem, e) == (if c != 0 then ElemAt(q, k + 1) else 0)
      && CellsApart(at, e) && CellsApart(at, DRV_Q_HDR + Q_TAIL) && CellsApart(e, DRV_Q_HDR + Q_TAIL)
      && CellsApart(at, q[i]) && (k != 2 || c != 0 ==> CellsApart(e, q[i]))
      && CellsApart(at, q[k]) && CellsApart(q[i], q[k])
      && CellsApart(q[i], DRV_Q_HDR + Q_TAIL) && CellsApart(q[k], DRV_Q_HDR + Q_TAIL)
      && (c == 0 && k == 2 ==> i == 1)
  {
    hide Read32, Read16;
    assert Apart(q[i], q[k]);
    assert c != 0 ==> Apart(q[c], q[k]);
    assert c != 0 ==> if c < i then Apart(q[c], q[i]) else Apart(q[i], q[c]);
  }

  lemma OtherLinks(q: seq<int>, a: nat, j: nat)
    requires Separate(DRV_Q_HDR, q) && a < |q| && j < |q|
    ensures a == j || CellsApart(q[a], q[j])
    ensures CellsApart(DRV_Q_HDR + Q_HEAD, q[j]) && CellsApart(DRV_Q_HDR + Q_TAIL, q[j]) && CellsApart(0, q[j])
  {
    assert a < j ==> Apart(q[a], q[j]);
    assert j < a ==> Apart(q[j], q[a]);
  }

  /** The cells after a move made while the first element is cut off. */
  lemma CutOffMoveCells(mem: Memory, q: seq<int>, k: nat, c: nat, i: nat, j: nat)
    requires FollowsNil(k, c) ==> Read32(mem, 0 + Q_LINK) == 0
    requires CutOff(mem, q, k, c, i) && k < |q| && j < |q|
    ensures 0 <= Source(q, c) < 0x1_0000_0000 && 0 <= q[k] < 0x1_0000_0000
    ensures var m' := MoveOne(mem, q[k], Source(q, c), q[i] + Q_LINK);
      Read32(m', q[j] + Q_LINK) ==
        if j == i then q[k]
        else if j == k then (if c == 0 && k == 2 then 0 else Read32(mem, q[i]))
        else if c != 0 && j == c then ElemAt(q, k + 1)
        else Read32(mem, q[j])
    ensures var m' := MoveOne(mem, q[k], Source(q, c), q[i] + Q_LINK);
      && Read32(m', 0 + Q_LINK) == Read32(mem, 0 + Q_LINK)
      && Read32(m', DRV_Q_HDR + Q_HEAD) == (if c == 0 then 0 else Read32(mem, DRV_Q_HDR + Q_HEAD))
  {
    hide Read32, Write32, Insert, Remove, Read16, NotFirst, ElemAt, Separate;
    CutOffPlaces(mem, q, k, c, i);
    var at, e := Source(q, c), Read32(mem, Source(q, c));
    var m1 := Remove(mem, at, DRV_Q_HDR);
    RemoveEffect(mem, at);
    InsertEffect(m1, q[k], q[i]);
    OtherLinks(q, i, j);
    OtherLinks(q, k, j);
    OtherLinks(q, c, j);
    OtherLinks(q, 1, j);
    OtherLinks(q, i, i);
    OtherLinks(q, k, k);
    OtherLinks(q, c, c);
    OtherLinks(q, 1, 1);
    OtherLinks(q, c, i);
    OtherLinks(q, c, k);
    OtherLinks(q, k, i);
    OtherLinks(q, 1, k);
  }

  lemma CutOffMove(mem: Memory, q: seq<int>, k: nat, c: nat, i: nat)
    requires FollowsNil(k, c) ==> Read32(mem, 0 + Q_LINK) == 0
    requires CutOff(mem, q, k, c, i) && k < |q|
    ensures 0 <= Source(q, c) < 0x1_0000_0000 && 0 <= q[k] < 0x1_0000_0000
    ensures var m' := MoveOne(mem, q[k], Source(q, c), q[i] + Q_LINK);
      CutOff(m', q, k + 1, c, k) && Read32(m', 0 + Q_LINK) == Read32(mem, 0 + Q_LINK)
  {
    hide Read32, MoveOne, Separate;
    CutOffMoveCells(mem, q, k, c, i, k);
    var m' := MoveOne(mem, q[k], Source(q, c), q[i] + Q_LINK);
    assert q[1..][k - 1] == q[k];
    assert k + 1 < |q| ==> q[1..][k] == q[k + 1];
    forall j | 0 <= j < |q|
      ensures NotFirst(q, Read32(m', q[j] + Q_LINK))
      ensures j >= k + 1 ==> Read32(m', q[j] + Q_LINK) == ElemAt(q, j + 1)
      ensures c != 0 && j == c ==> Read32(m', q[j] + Q_LINK) == ElemAt(q, k + 1)
    {
      CutOffMoveCells(mem, q, k, c, i, j);
    }
  }

  lemma CutOffSkip(mem: Memory, q: seq<int>, k: nat, c: nat, i: nat)
    requires CutOff(mem, q, k, c, i) && k < |q|
    ensures CutOff(mem, q, k + 1, k, i)
  {
    hide Read32, Separate;
  }

  lemma CutOffKeepsFields(mem: Memory, q: seq<int>, k: nat, c: nat, i: nat, refNum: Word32, x: int)
    requires FollowsNil(k, c) ==> Read32(mem, 0 + Q_LINK) == 0
    requires CutOff(mem, q, k, c, i) && k < |q| && x in q
    ensures 0 <= Source(q, c) < 0x1_0000_0000 && 0 <= q[k] < 0x1_0000_0000
    ensures Matches(MoveOne(mem, q[k], Source(q, c), q[i] + Q_LINK), refNum, x) == Matches(mem, refNum, x)
  {
    hide Read32, Write32, Insert, Remove, Read16;
    CutOffPlaces(mem, q, k, c, i);
    RemoveEffect(mem, Source(q, c));
    InsertEffect(Remove(mem, Source(q, c), DRV_Q_HDR), q[k], q[i]);
    var y :| 0 <= y < |q| && q[y] == x;
    FieldPlaces(q, y, k);
    FieldPlaces(q, y, i);
    FieldPlaces(q, y, c);
    FieldPlaces(q, y, 1);
  }

  lemma FieldPlaces(q: seq<int>, y: nat, a: nat)
    requires Separate(DRV_Q_HDR, q) && y < |q| && a < |q|
    ensures var b := q[y] - DS_Q_LINK + DS_Q_REF_NUM;
      FieldApart(q[a], b) && FieldApart(0, b) && FieldApart(DRV_Q_HDR + Q_TAIL, b) && FieldApart(DRV_Q_HDR + Q_HEAD, b)
  {
    assert y < a ==> Apart(q[y], q[a]);
    assert a < y ==> Apart(q[a], q[y]);
  }

  // ---------- What queue is left then ----------

  /** The places of the second element and of the later ones that match, up to `k`. */
  function LeftPlaces(mem: Memory, refNum: Word32, q: seq<int>, k: nat): (places: seq<nat>)
    requires 2 <= k <= |q|
    ensures |places| >= 1 && places[0] == 1
    ensures forall n :: 0 <= n < |places| ==> 1 <= places[n] < k
    ensures forall n :: 0 < n < |places| ==> places[n] >= 2 && Matches(mem, refNum, q[places[n]])
    ensures forall m, n :: 0 <= m < n < |places| ==> places[m] < places[n]
    decreases k
  {
    if k == 2 then [1]
    else LeftPlaces(mem, refNum, q, k - 1) + if Matches(mem, refNum, q[k - 1]) then [k - 1] else []
  }

  /** The first four elements match: only then does the loop come to follow the nil pointer. */
  predicate FirstFourMatch(mem: Memory, refNum: Word32, q: seq<int>) {
    FirstThreeMatch(mem, refNum, q) && |q| > 3 && Matches(mem, refNum, q[3])
  }

  /** Two elements in front match, and so does the third. */
  predicate FirstThreeMatch(mem: Memory, refNum: Word32, q: seq<int>) {
    FirstTwoMatch(mem, refNum, q) && |q| > 2 && Matches(mem, refNum, q[2])
  }

  /** Those elements are linked, up to the last one put back; the head leads to them, unless a third match
      has followed at once, which takes the second element away from the head as well. */
  ghost predicate Leaves(mem: Memory, before: Memory, refNum: Word32, q: seq<int>, k: nat, c: nat, i: nat) {
    && 2 <= k <= |q| && (c == 0 || (2 <= c < k && !Matches(before, refNum, q[c])))
    && var places := LeftPlaces(before, refNum, q, k);
       && i == places[|places| - 1]
       && (forall n :: 0 <= n < |places| ==> Linked(mem, q, places, n))
       && Read32(mem, DRV_Q_HDR + Q_TAIL) == q[i]
       && Read32(mem, DRV_Q_HDR + Q_HEAD) == (if k > 2 && Matches(before, refNum, q[2]) then 0 else q[1])
       && (c == 0 ==> forall j :: 2 <= j < k ==> Matches(before, refNum, q[j]))
  }

  ghost predicate Linked(mem: Memory, q: seq<int>, places: seq<nat>, n: nat)
    requires n < |places| && forall m :: 0 <= m < |places| ==> places[m] < |q|
  {
    Read32(mem, q[places[n]] + Q_LINK) == if n + 1 < |places| then q[places[n + 1]] else 0
  }

  lemma InsertSetsTail(mem: Memory, elem: Word32, at: int)
    requires Read32(mem, at) == 0
    ensures Read32(Insert(mem, elem, at, DRV_Q_HDR), DRV_Q_HDR + Q_TAIL) == elem
  {
    var linked := Write32(Write32(mem, at, elem), elem + Q_LINK, 0);
    ReadBack32(linked, DRV_Q_HDR + Q_TAIL, elem);
    hide Read32, Write32;
  }

  /** The second match leaves itself. */
  lemma SecondMatchLeaves(mem: Memory, before: Memory, refNum: Word32, q: seq<int>)
    requires IsQueue(mem, DRV_Q_HDR, q) && |q| >= 2
    ensures 0 <= q[1] < 0x1_0000_0000
    ensures Leaves(MoveOne(mem, q[1], DRV_Q_HDR + Q_HEAD, q[0] + Q_LINK), before, refNum, q, 2, 0, 1)
  {
    hide Read32, Write32, Insert, Remove, Read16;
    assert Apart(q[0], q[1]);
    assert Read32(mem, Cell(DRV_Q_HDR, q, 0)) == q[0];
    assert Read32(mem, Cell(DRV_Q_HDR, q, 1)) == q[1];
    var m1 := Remove(mem, DRV_Q_HDR + Q_HEAD, DRV_Q_HDR);
    RemoveEffect(mem, DRV_Q_HDR + Q_HEAD);
    InsertEffect(m1, q[1], q[0]);
    InsertSetsTail(m1, q[1], q[0]);
  }

  /** A later match is put behind the last one. */
  lemma MoveLeaves(mem: Memory, before: Memory, refNum: Word32, q: seq<int>, k: nat, c: nat, i: nat)
    requires FollowsNil(k, c) ==> Read32(mem, 0 + Q_LINK) == 0
    requires CutOff(mem, q, k, c, i) && Leaves(mem, before, refNum, q, k, c, i) && k < |q|
        && Matches(before, refNum, q[k])
    ensures 0 <= Source(q, c) < 0x1_0000_0000 && 0 <= q[k] < 0x1_0000_0000
    ensures Leaves(MoveOne(mem, q[k], Source(q, c), q[i] + Q_LINK), before, refNum, q, k + 1, c, k)
  {
    hide Read32, MoveOne, Separate, Matches, CutOff;
    var places, places' := LeftPlaces(before, refNum, q, k), LeftPlaces(before, refNum, q, k + 1);
    var last := |places| - 1;
    assert Linked(mem, q, places, last);
    CutOffMoveCells(mem, q, k, c, i, k);
    MoveSetsTail(mem, q, k, c, i);
    var m' := MoveOne(mem, q[k], Source(q, c), q[i] + Q_LINK);
    assert places' == places + [k];
    FirstMoves(mem, q, k, c, i);
    forall n | 0 <= n < |places'|
      ensures Linked(m', q, places', n)
    {
      if n < last {
        assert Linked(mem, q, places, n);
        CutOffMoveCells(mem, q, k, c, i, places[n]);
      } else if n == last {
        CutOffMoveCells(mem, q, k, c, i, i);
      }
    }
  }

  lemma FirstMoves(mem: Memory, q: seq<int>, k: nat, c: nat, i: nat)
    requires CutOff(mem, q, k, c, i)
    ensures 2 <= k <= |q| && i < k && (c == 0 || (2 <= c < k && c != i))
  {
  }

  lemma MoveSetsTail(mem: Memory, q: seq<int>, k: nat, c: nat, i: nat)
    requires FollowsNil(k, c) ==> Read32(mem, 0 + Q_LINK) == 0
    requires CutOff(mem, q, k, c, i) && k < |q| && Read32(mem, q[i] + Q_LINK) == 0
    ensures 0 <= Source(q, c) < 0x1_0000_0000 && 0 <= q[k] < 0x1_0000_0000
    ensures Read32(MoveOne(mem, q[k], Source(q, c), q[i] + Q_LINK), DRV_Q_HDR + Q_TAIL) == q[k]
  {
    hide Read32, Write32, Insert, Remove, Read16, NotFirst, ElemAt, Separate;
    CutOffPlaces(mem, q, k, c, i);
    RemoveEffect(mem, Source(q, c));
    InsertSetsTail(Remove(mem, Source(q, c), DRV_Q_HDR), q[k], q[i]);
  }

  lemma SkipLeaves(mem: Memory, before: Memory, refNum: Word32, q: seq<int>, k: nat, c: nat, i: nat)
    requires Leaves(mem, before, refNum, q, k, c, i) && k < |q| && !Matches(before, refNum, q[k])
    ensures Leaves(mem, before, refNum, q, k + 1, k, i)
  {
    hide Read32, Matches, Linked;
    assert LeftPlaces(before, refNum, q, k + 1) == LeftPlaces(before, refNum, q, k);
    hide LeftPlaces;
  }

  lemma {:induction false} LeftAre(mem: Memory, refNum: Word32, q: seq<int>, k: nat)
    requires 2 <= k <= |q|
    ensures var places, left := LeftPlaces(mem, refNum, q, k), [q[1]] + Matching(mem, refNum, q[2..k]);
      |places| == |left| && forall n :: 0 <= n < |left| ==> left[n] == q[places[n]]
    decreases k
  {
    hide Matches, Matching;
    if k == 2 {
      assert q[2..2] == [];
      NoneMatch(mem, refNum);
    } else {
      LeftAre(mem, refNum, q, k - 1);
      assert q[2..k] == q[2..k - 1] + [q[k - 1]];
      MatchingLast(mem, refNum, q[2..k - 1], q[k - 1]);
    }
  }

  lemma NoneMatch(mem: Memory, refNum: Word32)
    ensures Matching(mem, refNum, []) == []
  {
  }

  lemma {:induction false} MatchingLast(mem: Memory, refNum: Word32, q: seq<int>, e: int)
    ensures Matching(mem, refNum, q + [e]) == Matching(mem, refNum, q) + if Matches(mem, refNum, e) then [e] else []
  {
    hide Matches;
    assert (q + [e])[..|q|] == q;
  }

  /** What is left is the second element and the driver's later ones, or nothing at all if the third element
      is the driver's as well. */
  lemma LeftIsQueue(mem: Memory, before: Memory, refNum: Word32, q: seq<int>, c: nat, i: nat)
    requires Separate(DRV_Q_HDR, q) && Leaves(mem, before, refNum, q, |q|, c, i) && FirstTwoMatch(before, refNum, q)
    ensures if FirstThreeMatch(before, refNum, q) then Read32(mem, DRV_Q_HDR + Q_HEAD) == 0
            else IsQueue(mem, DRV_Q_HDR, [q[1]] + Matching(before, refNum, q[2..]))
  {
    hide Read32, Matches, LeftPlaces, Linked, Separate, IsQueue;
    assert q[2..|q|] == q[2..];
    LeftAre(before, refNum, q, |q|);
    if !FirstThreeMatch(before, refNum, q) {
      LinkedIsQueue(mem, q, LeftPlaces(before, refNum, q, |q|), [q[1]] + Matching(before, refNum, q[2..]));
    }
  }

  /** Elements at ascending places, linked one to the next, are a queue. */
  lemma LinkedIsQueue(mem: Memory, q: seq<int>, places: seq<nat>, left: seq<int>)
    requires Separate(DRV_Q_HDR, q) && 0 < |places| == |left|
    requires forall n :: 0 <= n < |places| ==> places[n] < |q| && left[n] == q[places[n]]
    requires forall m, n :: 0 <= m < n < |places| ==> places[m] < places[n]
    requires forall n :: 0 <= n < |places| ==> Linked(mem, q, places, n)
    requires Read32(mem, DRV_Q_HDR + Q_HEAD) == left[0] && Read32(mem, DRV_Q_HDR + Q_TAIL) == left[|left| - 1]
    ensures IsQueue(mem, DRV_Q_HDR, left)
  {
    hide Read32;
    forall n | 0 <= n <= |left|
      ensures Read32(mem, Cell(DRV_Q_HDR, left, n)) == ElemAt(left, n)
    {
      if n > 0 { assert Linked(mem, q, places, n - 1); }
    }
    forall m, n | 0 <= m < n < |left|
      ensures Apart(left[m], left[n])
    {
      assert Apart(q[places[m]], q[places[n]]);
    }
  }

  /** Whatever queue memory then holds, the first element is not in it. */
  lemma {:induction false} CutOffLosesFirst(mem: Memory, q: seq<int>, k: nat, c: nat, i: nat, q': seq<int>, n: nat)
    requires CutOff(mem, q, k, c, i) && IsQueue(mem, DRV_Q_HDR, q') && n < |q'|
    ensures q'[n] in q[1..]
    decreases n
  {
    QueueCell(mem, q', n);
    hide Read32, CutOff, IsQueue;
    if n > 0 {
      CutOffLosesFirst(mem, q, k, c, i, q', n - 1);
      LinkNotFirst(mem, q, k, c, i, q'[n - 1]);
    } else {
      HeadNotFirst(mem, q, k, c, i);
    }
  }

  lemma QueueCell(mem: Memory, q': seq<int>, n: nat)
    requires IsQueue(mem, DRV_Q_HDR, q') && n < |q'|
    ensures Read32(mem, if n == 0 then DRV_Q_HDR + Q_HEAD else q'[n - 1] + Q_LINK) == q'[n] != 0
  {
    hide Read32;
    assert Read32(mem, Cell(DRV_Q_HDR, q', n)) == q'[n];
    assert Placed(DRV_Q_HDR, q'[n]);
  }

  lemma LinkNotFirst(mem: Memory, q: seq<int>, k: nat, c: nat, i: nat, e: int)
    requires CutOff(mem, q, k, c, i) && e in q[1..]
    ensures |q| >= 1 && NotFirst(q, Read32(mem, e + Q_LINK))
  {
    hide Read32, NotFirst, Separate;
    var j :| 0 <= j < |q[1..]| && q[1..][j] == e;
    assert q[j + 1] == e;
  }

  lemma HeadNotFirst(mem: Memory, q: seq<int>, k: nat, c: nat, i: nat)
    requires CutOff(mem, q, k, c, i)
    ensures |q| >= 1 && NotFirst(q, Read32(mem, DRV_Q_HDR + Q_HEAD))
  {
    hide Read32, NotFirst, Separate;
  }

  /** A queue has its first element first, so a partition of all of it is not what is left. */
  lemma CutOffIsNotPartition(mem: Memory, q: seq<int>, k: nat, c: nat, i: nat, p: seq<int>)
    requires CutOff(mem, q, k, c, i) && multiset(p) == multiset(q)
    ensures !IsQueue(mem, DRV_Q_HDR, p)
  {
    hide Read32;
    if IsQueue(mem, DRV_Q_HDR, p) {
      assert q[0] in multiset(q);
      var n :| 0 <= n < |p| && p[n] == q[0];
      CutOffLosesFirst(mem, q, k, c, i, p, n);
      FirstOnce(q);
    }
  }

  lemma FirstOnce(q: seq<int>)
    requires Separate(DRV_Q_HDR, q) && |q| >= 1
    ensures q[0] !in q[1..]
  {
    forall j | 0 <= j < |q[1..]|
      ensures q[1..][j] != q[0]
    {
      assert Apart(q[0], q[j + 1]);
    }
  }

  function DriveNumber(mem: Memory, e: int): (n: Word16) {
    Read16(mem, e - DS_Q_LINK + DS_Q_DRIVE)
  }

  predicate NumberTaken(mem: Memory, q: seq<int>, n: int) {
    exists i :: 0 <= i < |q| && DriveNumber(mem, q[i]) == n
  }

  /** The writes that append an element. */
  lemma AppendToQueue(mem: Memory, list: int, q: seq<int>, e: Word32)
    requires IsQueue(mem, list, q) && Separate(list, q + [e])
    ensures var m1 := Write32(mem, e + Q_LINK, 0);
      var last := Read32(m1, list + Q_TAIL);
      var m' := Write32(Write32(m1, if last == 0 then list + Q_HEAD else last + Q_LINK, e), list + Q_TAIL, e);
      && IsQueue(m', list, q + [e])
      && forall x, refNum :: x in q + [e] ==> Matches(m', refNum, x) == Matches(mem, refNum, x)
  {
    hide Read32, Write32, Read16;
    NewPlace(list, q, e);
    CellPlaces(list, q, |q|);
    var m1 := Write32(mem, e + Q_LINK, 0);
    WriteCell(mem, e + Q_LINK, 0);
    var at := Cell(list, q, |q|);
    assert at == if Read32(m1, list + Q_TAIL) == 0 then list + Q_HEAD else Read32(m1, list + Q_TAIL) + Q_LINK;
    var m2 := Write32(m1, at, e);
    WriteCell(m1, at, e);
    WriteCell(m2, list + Q_TAIL, e);
    var m', q' := Write32(m2, list + Q_TAIL, e), q + [e];
    forall j | 0 <= j <= |q'|
      ensures Read32(m', Cell(list, q', j)) == ElemAt(q', j)
    {
      if j <= |q| {
        CellPlaces(list, q, j);
        assert Cell(list, q', j) == Cell(list, q, j);
      }
    }
    forall x, refNum | x in q'
      ensures Matches(m', refNum, x) == Matches(mem, refNum, x)
    {
      var y :| 0 <= y < |q'| && q'[y] == x;
      forall a | 0 <= a < |q'|
        ensures FieldApart(q'[a], x - DS_Q_LINK + DS_Q_REF_NUM)
      {
        assert y < a ==> Apart(q'[y], q'[a]);
        assert a < y ==> Apart(q'[a], q'[y]);
      }
      assert q'[|q|] == e;
      assert |q| > 0 ==> q'[|q| - 1] == q[|q| - 1];
    }
  }

  // ---------- The loop, turn by turn ----------

  ghost predicate SameFields(mem: Memory, before: Memory, refNum: Word32, q: seq<int>) {
    forall x :: x in q ==> Matches(mem, refNum, x) == Matches(before, refNum, x)
  }

  /** The loop after `k` elements, while the queue is whole: where it inserts and where it takes. */
  ghost predicate OnTrack(mem: Memory, before: Memory, refNum: Word32, q: seq<int>, k: nat, ptr: int, ins: int) {
    && k <= |q|
    && var cur, f := PartWay(before, refNum, q, k), |Matching(before, refNum, q[..k])|;
      && f <= k <= |cur|
      && IsQueue(mem, DRV_Q_HDR, cur)
      && ins == Cell(DRV_Q_HDR, cur, f)
      && (if f < k then ptr == Cell(DRV_Q_HDR, cur, k) else k <= 1 && ptr == DRV_Q_HDR + Q_HEAD)
  }

  lemma TrackStart(mem: Memory, refNum: Word32, q: seq<int>)
    requires IsQueue(mem, DRV_Q_HDR, q)
    ensures OnTrack(mem, mem, refNum, q, 0, DRV_Q_HDR + Q_HEAD, DRV_Q_HDR + Q_HEAD)
    ensures Read32(mem, DRV_Q_HDR + Q_HEAD) == ElemAt(q, 0)
  {
    hide Read32, Matches;
    assert q[..0] == [];
    assert PartWay(mem, refNum, q, 0) == q;
    assert Read32(mem, Cell(DRV_Q_HDR, q, 0)) == ElemAt(q, 0);
  }

  lemma TrackEnd(mem: Memory, before: Memory, refNum: Word32, q: seq<int>, ptr: int, ins: int)
    requires OnTrack(mem, before, refNum, q, |q|, ptr, ins)
    ensures IsQueue(mem, DRV_Q_HDR, Partitioned(before, refNum, q))
  {
    hide Partitioned, Matching, Matches, IsQueue;
    assert q[..|q|] == q;
    assert PartWay(before, refNum, q, |q|) == Partitioned(before, refNum, q);
  }

  /** Elements still to come are read where they always were. */
  lemma TrackReads(mem: Memory, before: Memory, refNum: Word32, q: seq<int>, k: nat, ptr: int, ins: int)
    requires OnTrack(mem, before, refNum, q, k, ptr, ins) && k < |q|
    ensures 0 < q[k] < 0x1_0000_0000 && 0 <= ptr < 0x1_0000_0000
    ensures Read32(mem, q[k] + Q_LINK) == ElemAt(q, k + 1)
    ensures 0 <= ElemAt(q, k + 1) && (ElemAt(q, k + 1) == 0 <==> k + 1 == |q|)
  {
    hide Read32, Matches, Matching, PartWay;
    PartWayAt(before, refNum, q, k);
    var cur := PartWay(before, refNum, q, k);
    assert Read32(mem, Cell(DRV_Q_HDR, cur, k + 1)) == ElemAt(cur, k + 1);
    CellPlaces(DRV_Q_HDR, cur, k);
    assert k + 1 < |q| ==> cur[k + 1] == q[k + 1];
    assert Placed(DRV_Q_HDR, cur[k]);
    assert k + 1 < |q| ==> Placed(DRV_Q_HDR, cur[k + 1]);
  }

  lemma TrackSkip(mem: Memory, before: Memory, refNum: Word32, q: seq<int>, k: nat, ptr: int, ins: int)
    requires OnTrack(mem, before, refNum, q, k, ptr, ins) && k < |q| && !Matches(before, refNum, q[k])
    ensures OnTrack(mem, before, refNum, q, k + 1, q[k] + Q_LINK, ins)
  {
    hide Matches, Matching, PartWay, IsQueue;
    PartWayMoves(before, refNum, q, k);
    PartitionStep(before, refNum, q, k);
  }

  lemma TrackMove(mem: Memory, before: Memory, refNum: Word32, q: seq<int>, k: nat, ptr: int, ins: int)
    requires OnTrack(mem, before, refNum, q, k, ptr, ins) && k < |q| && Matches(before, refNum, q[k])
    requires k == 1 ==> !FirstTwoMatch(before, refNum, q)
    ensures 0 <= q[k] < 0x1_0000_0000 && 0 <= ptr < 0x1_0000_0000
    ensures OnTrack(MoveOne(mem, q[k], ptr, ins), before, refNum, q, k + 1, ptr, q[k] + Q_LINK)
    ensures SameFields(mem, before, refNum, q) ==> SameFields(MoveOne(mem, q[k], ptr, ins), before, refNum, q)
  {
    hide Matches, Matching, PartWay, IsQueue, MoveOne;
    var cur, f := PartWay(before, refNum, q, k), |Matching(before, refNum, q[..k])|;
    PartWayMoves(before, refNum, q, k);
    PartitionStep(before, refNum, q, k);
    if f == k == 1 {
      FirstMatches(before, refNum, q);
    }
    MoveInQueue(mem, cur, f, k);
    MovedCells(cur, f, k);
    PartWayElements(before, refNum, q, k);
  }

  lemma FirstMatches(mem: Memory, refNum: Word32, q: seq<int>)
    requires |q| >= 2 && Matches(mem, refNum, q[1]) && !FirstTwoMatch(mem, refNum, q)
    ensures Matching(mem, refNum, q[..1]) == []
  {
    hide Matches;
    assert q[..1][..0] == [];
  }

  lemma MovedCells(cur: seq<int>, f: nat, k: nat)
    requires f <= k < |cur|
    ensures var moved := Inserted(Removed(cur, k), f, cur[k]);
      && |moved| == |cur|
      && Cell(DRV_Q_HDR, moved, f + 1) == cur[k] + Q_LINK
      && (f < k ==> Cell(DRV_Q_HDR, moved, k + 1) == Cell(DRV_Q_HDR, cur, k))
  {
  }

  lemma PartWayElements(mem: Memory, refNum: Word32, q: seq<int>, k: nat)
    requires k <= |q|
    ensures forall x :: x in q <==> x in PartWay(mem, refNum, q, k)
  {
    PartitionKeepsElements(mem, refNum, q[..k]);
    var p := PartWay(mem, refNum, q, k);
    hide Partitioned;
    assert q == q[..k] + q[k..];
    assert multiset(p) == multiset(q);
    assert forall x :: x in q <==> x in multiset(q);
    assert forall x :: x in p <==> x in multiset(p);
  }

  /** What holds each time round, for a queue of either kind. */
  ghost predicate InLoop(mem: Memory, before: Memory, refNum: Word32, q: seq<int>, k: nat, c: nat, i: nat,
                         ptr: int, ins: int) {
    && k <= |q|
    && SameFields(mem, before, refNum, q)
    && (FirstFourMatch(before, refNum, q) ==> Read32(mem, 0 + Q_LINK) == 0)
    && if FirstTwoMatch(before, refNum, q) && k >= 2 then
         c < |q| && i < |q| && CutOff(mem, q, k, c, i) && ptr == Source(q, c) && ins == q[i] + Q_LINK
         && Leaves(mem, before, refNum, q, k, c, i)
       else
         OnTrack(mem, before, refNum, q, k, ptr, ins)
  }

  lemma LoopReads(mem: Memory, before: Memory, refNum: Word32, q: seq<int>, k: nat, c: nat, i: nat, ptr: int, ins: int)
    requires InLoop(mem, before, refNum, q, k, c, i, ptr, ins) && k < |q|
    ensures 0 < q[k] < 0x1_0000_0000 && 0 <= ptr < 0x1_0000_0000
    ensures Read32(mem, q[k] + Q_LINK) == ElemAt(q, k + 1)
    ensures ElemAt(q, k + 1) == 0 <==> k + 1 == |q|
    ensures Matches(mem, refNum, q[k]) == Matches(before, refNum, q[k])
  {
    hide Read32, Matches, OnTrack, MoveOne, Leaves;
    if FirstTwoMatch(before, refNum, q) && k >= 2 {
      assert Placed(DRV_Q_HDR, q[k]) && Placed(DRV_Q_HDR, q[c]);
      assert k + 1 < |q| ==> Placed(DRV_Q_HDR, q[k + 1]);
    } else {
      TrackReads(mem, before, refNum, q, k, ptr, ins);
    }
  }

  lemma LoopSkip(mem: Memory, before: Memory, refNum: Word32, q: seq<int>, k: nat, c: nat, i: nat, ptr: int, ins: int)
    returns (c': nat)
    requires InLoop(mem, before, refNum, q, k, c, i, ptr, ins) && k < |q| && !Matches(before, refNum, q[k])
    ensures InLoop(mem, before, refNum, q, k + 1, c', i, q[k] + Q_LINK, ins)
  {
    hide Read32, Matches, OnTrack, MoveOne, CutOff, Leaves;
    c' := c;
    if FirstTwoMatch(before, refNum, q) && k >= 2 {
      CutOffSkip(mem, q, k, c, i);
      SkipLeaves(mem, before, refNum, q, k, c, i);
      c' := k;
    } else {
      TrackSkip(mem, before, refNum, q, k, ptr, ins);
    }
  }

  lemma LoopMove(mem: Memory, before: Memory, refNum: Word32, q: seq<int>, k: nat, c: nat, i: nat, ptr: int, ins: int)
    returns (c': nat, i': nat)
    requires InLoop(mem, before, refNum, q, k, c, i, ptr, ins) && k < |q| && Matches(before, refNum, q[k])
    ensures 0 <= q[k] < 0x1_0000_0000 && 0 <= ptr < 0x1_0000_0000
    ensures InLoop(MoveOne(mem, q[k], ptr, ins), before, refNum, q, k + 1, c', i', ptr, q[k] + Q_LINK)
  {
    hide Read32, Matches, OnTrack, MoveOne, CutOff, Leaves;
    c', i' := c, i;
    LoopReads(mem, before, refNum, q, k, c, i, ptr, ins);
    if !FirstTwoMatch(before, refNum, q) {
      TrackMove(mem, before, refNum, q, k, ptr, ins);
    } else if k == 0 {
      TrackMove(mem, before, refNum, q, k, ptr, ins);
      FirstMoveKeepsNil(mem, before, refNum, q, ptr, ins);
    } else if k == 1 {
      BothInFront(mem, before, refNum, q, ptr, ins);
      SecondMatchCutsOff(mem, q);
      SecondMatchKeepsNil(mem, q);
      SecondMatchLeaves(mem, before, refNum, q);
      forall x | x in q
        ensures Matches(MoveOne(mem, q[k], ptr, ins), refNum, x) == Matches(mem, refNum, x)
      {
        SecondMatchKeepsFields(mem, q, refNum, x);
      }
      c', i' := 0, 1;
    } else {
      FollowsNilOnFour(mem, before, refNum, q, k, c, i);
      CutOffMove(mem, q, k, c, i);
      MoveLeaves(mem, before, refNum, q, k, c, i);
      i' := k;
      forall x | x in q
        ensures Matches(MoveOne(mem, q[k], ptr, ins), refNum, x) == Matches(mem, refNum, x)
      {
        CutOffKeepsFields(mem, q, k, c, i, refNum, x);
      }
    }
  }

  lemma FollowsNilOnFour(mem: Memory, before: Memory, refNum: Word32, q: seq<int>, k: nat, c: nat, i: nat)
    requires Leaves(mem, before, refNum, q, k, c, i) && FirstTwoMatch(before, refNum, q)
    requires k < |q| && Matches(before, refNum, q[k])
    ensures FollowsNil(k, c) ==> FirstFourMatch(before, refNum, q)
  {
    hide Read32, Matches, Linked;
  }

  lemma FirstMoveKeepsNil(mem: Memory, before: Memory, refNum: Word32, q: seq<int>, ptr: int, ins: int)
    requires OnTrack(mem, before, refNum, q, 0, ptr, ins) && q != []
    ensures ptr == DRV_Q_HDR + Q_HEAD && 0 <= q[0] < 0x1_0000_0000
    ensures Read32(MoveOne(mem, q[0], ptr, ins), 0) == Read32(mem, 0)
  {
    hide Read32, Matches, Insert, Remove, Read16;
    assert q[..0] == [];
    assert PartWay(before, refNum, q, 0) == q;
    assert Read32(mem, Cell(DRV_Q_HDR, q, 0)) == q[0];
    assert Placed(DRV_Q_HDR, q[0]);
    RemoveEffect(mem, ptr);
    InsertEffect(Remove(mem, ptr, DRV_Q_HDR), q[0], ins);
  }

  lemma BothInFront(mem: Memory, before: Memory, refNum: Word32, q: seq<int>, ptr: int, ins: int)
    requires OnTrack(mem, before, refNum, q, 1, ptr, ins) && FirstTwoMatch(before, refNum, q)
    ensures IsQueue(mem, DRV_Q_HDR, q) && ptr == DRV_Q_HDR + Q_HEAD && ins == q[0] + Q_LINK
  {
    hide Read32, Matches, IsQueue;
    assert q[..1][..0] == [];
    assert Matching(before, refNum, q[..1]) == [q[0]];
    assert Others(before, refNum, q[..1]) == [];
    assert PartWay(before, refNum, q, 1) == q;
  }

  lemma LoopEnd(mem: Memory, before: Memory, refNum: Word32, q: seq<int>, c: nat, i: nat, ptr: int, ins: int)
    requires InLoop(mem, before, refNum, q, |q|, c, i, ptr, ins)
    ensures IsQueue(mem, DRV_Q_HDR, Partitioned(before, refNum, q)) <==> !FirstTwoMatch(before, refNum, q)
    ensures FirstTwoMatch(before, refNum, q) ==>
      && (forall q' :: IsQueue(mem, DRV_Q_HDR, q') ==> q[0] !in q')
      && (if FirstThreeMatch(before, refNum, q) then Read32(mem, DRV_Q_HDR + Q_HEAD) == 0
          else IsQueue(mem, DRV_Q_HDR, [q[1]] + Matching(before, refNum, q[2..])))
  {
    hide Read32, Matches, OnTrack, IsQueue, Partitioned, Leaves;
    if FirstTwoMatch(before, refNum, q) {
      LeftIsQueue(mem, before, refNum, q, c, i);
      PartitionKeepsElements(before, refNum, q);
      CutOffIsNotPartition(mem, q, |q|, c, i, Partitioned(before, refNum, q));
      FirstOnce(q);
      forall q' | IsQueue(mem, DRV_Q_HDR, q')
        ensures q[0] !in q'
      {
        forall n | 0 <= n < |q'|
          ensures q'[n] != q[0]
        {
          CutOffLosesFirst(mem, q, |q|, c, i, q', n);
        }
      }
    } else {
      TrackEnd(mem, before, refNum, q, ptr, ins);
    }
  }

  // ---------- The code ----------

  class MacQueues {
    var mem: Memory

    constructor (mem: Memory)
      ensures this.mem == mem
    {
      this.mem := mem;
    }

    method InsertQueueEntry(elem: Word32, at: int, list: int)
      modifies this
      ensures mem == Insert(old(mem), elem, at, list)
    {
      var next := Read32(mem, at);
      mem := Write32(mem, at, elem);
      mem := Write32(mem, elem + Q_LINK, next);
      if next == 0 {
        // nothing follows, so the tail moves
        mem := Write32(mem, list + Q_TAIL, elem);
      }
    }

    method RemoveQueueEntry(at: Word32, list: int)
      requires at == list + Q_HEAD || at >= Q_LINK
      modifies this
      ensures mem == Remove(old(mem), at, list)
    {
      var e := Read32(mem, at);
      var next := Read32(mem, e + Q_LINK);
      if next == 0 {
        // nothing follows, so the tail moves back
        if at == list + Q_HEAD {
          mem := Write32(mem, list + Q_TAIL, 0);
        } else {
          mem := Write32(mem, list + Q_TAIL, at - Q_LINK);
        }
      }
      mem := Write32(mem, at, next);
      mem := Write32(mem, e + Q_LINK, 0);
    }

    /** Appends an element to any queue. */
    method Enqueue(elem: Word32, list: int, ghost q: seq<int>)
      requires IsQueue(mem, list, q) && Separate(list, q + [elem])
      modifies this
      ensures IsQueue(mem, list, q + [elem])
      ensures forall x, refNum :: x in q + [elem] ==> Matches(mem, refNum, x) == Matches(old(mem), refNum, x)
    {
      hide Read32, Write32, Read16;
      AppendToQueue(mem, list, q, elem);
      mem := Write32(mem, elem + Q_LINK, 0);
      if Read32(mem, list + Q_TAIL) == 0 {
        mem := Write32(mem, list + Q_HEAD, elem);
        mem := Write32(mem, list + Q_TAIL, elem);
      } else {
        mem := Write32(mem, Read32(mem, list + Q_TAIL) + Q_LINK, elem);
        mem := Write32(mem, list + Q_TAIL, elem);
      }
    }

    method IsDriveNumberFree(num: int, ghost q: seq<int>) returns (free: bool)
      requires IsQueue(mem, DRV_Q_HDR, q)
      ensures free == !NumberTaken(mem, q, num)
    {
      hide Read32, Read16;
      var e := Read32(mem, DRV_Q_HDR + Q_HEAD);
      ghost var k: nat := 0;
      assert e == Read32(mem, Cell(DRV_Q_HDR, q, 0));
      while e != 0
        invariant k <= |q| && e == ElemAt(q, k)
        invariant forall i :: 0 <= i < k ==> DriveNumber(mem, q[i]) != num
        decreases |q| - k
      {
        var d := e - DS_Q_LINK;
        assert k < |q| && e == q[k];
        if Read16(mem, d + DS_Q_DRIVE) == num {
          return false;
        }
        assert Read32(mem, Cell(DRV_Q_HDR, q, k + 1)) == ElemAt(q, k + 1);
        e := Read32(mem, e + Q_LINK);
        k := k + 1;
      }
      NilAtEnd(DRV_Q_HDR, q, k);
      return true;
    }

    /** The first number from `num` up that no drive in the queue has. */
    method FindFreeDriveNumber(num: int, ghost q: seq<int>) returns (r: int)
      requires IsQueue(mem, DRV_Q_HDR, q)
      ensures num <= r && !NumberTaken(mem, q, r)
      ensures forall n :: num <= n < r ==> NumberTaken(mem, q, n)
    {
      hide Read32, Read16, IsQueue;
      r := num;
      var free := IsDriveNumberFree(r, q);
      while !free
        invariant num <= r
        invariant free == !NumberTaken(mem, q, r)
        invariant forall n :: num <= n < r ==> NumberTaken(mem, q, n)
        decreases 0x1_0000 - r
      {
        r := r + 1;
        free := IsDriveNumberFree(r, q);
      }
    }

    /**
      Partitions the drive queue `q` in place, stably, if and only if its first two elements do
      not both belong to the driver. If they do, all that is left is the second element and those of the
      driver behind it; if the third is the driver's too, nothing is left at the head.
     */
    method MoveDrivesFromDriverToFront(driverRefNum: Word32, ghost q: seq<int>)
      requires IsQueue(mem, DRV_Q_HDR, q)
      // The link of the nil pointer reads as nil, where the loop comes to follow it.
      requires FirstFourMatch(mem, driverRefNum, q) ==> Read32(mem, 0 + Q_LINK) == 0
      modifies this
      ensures IsQueue(mem, DRV_Q_HDR, Partitioned(old(mem), driverRefNum, q))
         <==> !FirstTwoMatch(old(mem), driverRefNum, q)
      ensures FirstTwoMatch(old(mem), driverRefNum, q) ==>
        && (forall q' :: IsQueue(mem, DRV_Q_HDR, q') ==> q[0] !in q')
        && (if FirstThreeMatch(old(mem), driverRefNum, q) then Read32(mem, DRV_Q_HDR + Q_HEAD) == 0
            else IsQueue(mem, DRV_Q_HDR, [q[1]] + Matching(old(mem), driverRefNum, q[2..])))
    {
      hide Read32, Write32, Read16, Insert, Remove, IsQueue, Partitioned, InLoop, FirstTwoMatch;
      var nextInsertPos: int := DRV_Q_HDR + Q_HEAD;
      var ptrToElem: int := DRV_Q_HDR + Q_HEAD;
      var e: Word32 := Read32(mem, ptrToElem);
      ghost var before, k: nat, c: nat, i: nat := mem, 0, 0, 0;
      LoopStart(mem, driverRefNum, q);

      while e != 0
        invariant k <= |q| && e == ElemAt(q, k) && (e == 0 <==> k == |q|)
        invariant InLoop(mem, before, driverRefNum, q, k, c, i, ptrToElem, nextInsertPos)
        decreases |q| - k
      {
        LoopReads(mem, before, driverRefNum, q, k, c, i, ptrToElem, nextInsertPos);
        var next := Read32(mem, e + Q_LINK);
        var curRefNum := Read16(mem, e - DS_Q_LINK + DS_Q_REF_NUM);

        if curRefNum == driverRefNum % 0x1_0000 {
          c, i := LoopMove(mem, before, driverRefNum, q, k, c, i, ptrToElem, nextInsertPos);
          RemoveQueueEntry(ptrToElem, DRV_Q_HDR);
          InsertQueueEntry(e, nextInsertPos, DRV_Q_HDR);
          nextInsertPos := e + Q_LINK;
        } else {
          c := LoopSkip(mem, before, driverRefNum, q, k, c, i, ptrToElem, nextInsertPos);
          ptrToElem := e + Q_LINK;
        }
        e := next;
        k := k + 1;
      }
      LoopEnd(mem, before, driverRefNum, q, c, i, ptrToElem, nextInsertPos);
    }
  }

  lemma LoopStart(mem: Memory, refNum: Word32, q: seq<int>)
    requires IsQueue(mem, DRV_Q_HDR, q)
    requires FirstFourMatch(mem, refNum, q) ==> Read32(mem, 0 + Q_LINK) == 0
    ensures InLoop(mem, mem, refNum, q, 0, 0, 0, DRV_Q_HDR + Q_HEAD, DRV_Q_HDR + Q_HEAD)
    ensures Read32(mem, DRV_Q_HDR + Q_HEAD) == ElemAt(q, 0)
    ensures ElemAt(q, 0) == 0 <==> q == []
  {
    hide Read32, Matches, OnTrack;
    TrackStart(mem, refNum, q);
    assert q != [] ==> Placed(DRV_Q_HDR, q[0]);
  }
}
