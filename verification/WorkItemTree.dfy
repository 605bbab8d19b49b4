/** The board's flat list of work items, projected into rows of roots and their children. */
module WorkItemTree {
  import opened Text

  datatype ItemState = Merged | Abandoned | DeadLetter | OtherState

  datatype Phase = NoPhase | Expand | Migrate | Contract

  datatype Item = Item(id: Text, parent: Option<Text>, childOrdinal: Option<nat>, state: ItemState, phase: Phase)

  datatype Hint = NoHint | AfterExpand | AfterMigrate

  datatype Row = Row(
    item: Item,
    depth: nat,
    childCount: nat,
    mergedChildCount: nat,
    abandonedChildCount: nat,
    hint: Hint)

  const MAX_SAFE_INTEGER: nat := 0x1F_FFFF_FFFF_FFFF

  /* ---- Children ---- */

  /** The place of an id in the list: of the last item with it, as a map built in order has it. */
  function Position(items: seq<Item>, id: Text): nat {
    if items == [] then 0
    else if items[|items| - 1].id == id then |items| - 1
    else Position(items[..|items| - 1], id)
  }

  function Ordinal(item: Item): nat {
    match item.childOrdinal
    case Some(n) => n
    case None => MAX_SAFE_INTEGER
  }

  /** `childOrder(positions, left, right) <= 0`. Equal positions mean equal ids, so comparing ids adds nothing. */
  predicate NotAfter(items: seq<Item>, left: Item, right: Item) {
    || Ordinal(left) < Ordinal(right)
    || (Ordinal(left) == Ordinal(right) && Position(items, left.id) <= Position(items, right.id))
  }

  predicate HasId(items: seq<Item>, id: Text) {
    exists i | 0 <= i < |items| :: items[i].id == id
  }

  predicate IsRoot(items: seq<Item>, item: Item) {
    item.parent.None? || !HasId(items, item.parent.value)
  }

  function Insert(items: seq<Item>, sorted: seq<Item>, item: Item): seq<Item> {
    if sorted == [] then [item]
    else
      var last := |sorted| - 1;
      if NotAfter(items, sorted[last], item) then sorted + [item]
      else Insert(items, sorted[..last], item) + [sorted[last]]
  }

  /** `children.sort(childOrder)`, a stable sort. */
  function Sorted(items: seq<Item>, children: seq<Item>): seq<Item> {
    if children == [] then []
    else Insert(items, Sorted(items, children[..|children| - 1]), children[|children| - 1])
  }

  function WithParent(items: seq<Item>, id: Text): seq<Item> {
    if items == [] then []
    else
      var last := |items| - 1;
      var rest := WithParent(items[..last], id);
      if items[last].parent == Some(id) then rest + [items[last]] else rest
  }

  function Children(items: seq<Item>, id: Text): seq<Item> {
    Sorted(items, WithParent(items, id))
  }

  ghost predicate InOrder(items: seq<Item>, children: seq<Item>) {
    forall i, j | 0 <= i < j < |children| :: NotAfter(items, children[i], children[j])
  }

  lemma {:induction false} InsertOrders(items: seq<Item>, sorted: seq<Item>, item: Item)
    requires InOrder(items, sorted)
    ensures InOrder(items, Insert(items, sorted, item))
    decreases |sorted|
  {
    var last := |sorted| - 1;
    if sorted == [] || NotAfter(items, sorted[last], item) {
      forall i | 0 <= i < last ensures NotAfter(items, sorted[i], item) {
        assert NotAfter(items, sorted[i], sorted[last]);
      }
      InOrderNext(items, sorted, item);
    } else {
      InsertOrders(items, sorted[..last], item);
      InsertHolds(items, sorted[..last], item);
      var r := Insert(items, sorted[..last], item);
      forall i | 0 <= i < |r| ensures NotAfter(items, r[i], sorted[last]) {
        AmongThese(r, sorted[..last], item, i);
      }
      InOrderNext(items, r, sorted[last]);
    }
  }

  lemma InOrderNext(items: seq<Item>, sorted: seq<Item>, item: Item)
    requires InOrder(items, sorted) && forall i | 0 <= i < |sorted| :: NotAfter(items, sorted[i], item)
    ensures InOrder(items, sorted + [item])
  {
  }

  lemma AmongThese(list: seq<Item>, others: seq<Item>, item: Item, i: nat)
    requires i < |list| && multiset(list) == multiset(others) + multiset{item}
    ensures list[i] == item || list[i] in others
  {
    assert list[i] in multiset(list);
  }

  lemma {:induction false} InsertHolds(items: seq<Item>, sorted: seq<Item>, item: Item)
    ensures multiset(Insert(items, sorted, item)) == multiset(sorted) + multiset{item}
    decreases |sorted|
  {
    if sorted != [] && !NotAfter(items, sorted[|sorted| - 1], item) {
      var last := |sorted| - 1;
      InsertHolds(items, sorted[..last], item);
      assert sorted == sorted[..last] + [sorted[last]];
    }
  }

  lemma {:induction false} SortedIsOrdered(items: seq<Item>, children: seq<Item>)
    ensures InOrder(items, Sorted(items, children))
    decreases |children|
  {
    if children != [] {
      var last := |children| - 1;
      SortedIsOrdered(items, children[..last]);
      InsertOrders(items, Sorted(items, children[..last]), children[last]);
    }
  }

  lemma {:induction false} HoldsLast(list: seq<Item>)
    requires list != []
    ensures multiset(list) == multiset(list[..|list| - 1]) + multiset{list[|list| - 1]}
  {
    assert list == list[..|list| - 1] + [list[|list| - 1]];
  }

  lemma {:induction false} SortedHolds(items: seq<Item>, children: seq<Item>)
    ensures multiset(Sorted(items, children)) == multiset(children)
    decreases |children|
  {
    if children != [] {
      var last := |children| - 1;
      SortedHolds(items, children[..last]);
      InsertHolds(items, Sorted(items, children[..last]), children[last]);
      HoldsLast(children);
    }
  }

  lemma {:induction false} WithParentHolds(items: seq<Item>, id: Text)
    ensures forall item :: item in WithParent(items, id) <==> item in items && item.parent == Some(id)
    decreases |items|
  {
    if items != [] {
      var last := |items| - 1;
      WithParentHolds(items[..last], id);
      assert items == items[..last] + [items[last]];
    }
  }

  lemma ChildrenAre(items: seq<Item>, id: Text)
    ensures InOrder(items, Children(items, id))
    ensures forall item :: item in Children(items, id) <==> item in items && item.parent == Some(id)
    ensures |Children(items, id)| == |WithParent(items, id)|
  {
    WithParentHolds(items, id);
    SortedIsOrdered(items, WithParent(items, id));
    SortedHolds(items, WithParent(items, id));
    SameMembers(Children(items, id), WithParent(items, id));
  }

  /** The children of an id: exactly the items that name it as parent, each as often as it is listed, in child order. */
  lemma ChildrenHold(items: seq<Item>, id: Text)
    ensures InOrder(items, Children(items, id))
    ensures forall item ::
      multiset(Children(items, id))[item] == if item.parent == Some(id) then multiset(items)[item] else 0
  {
    ChildrenAre(items, id);
    SortedHolds(items, WithParent(items, id));
    forall item
      ensures multiset(WithParent(items, id))[item] == if item.parent == Some(id) then multiset(items)[item] else 0
    {
      WithParentCounts(items, id, item);
    }
  }

  /** The last item with this id is number `p`. */
  ghost predicate IsLastOf(items: seq<Item>, p: nat, id: Text) {
    p < |items| && items[p].id == id && forall k | p < k < |items| :: items[k].id != id
  }

  lemma {:induction false} PositionIsLast(items: seq<Item>, p: nat, id: Text)
    requires IsLastOf(items, p, id)
    ensures Position(items, id) == p
    decreases |items|
  {
    if p < |items| - 1 {
      PositionIsLast(items[..|items| - 1], p, id);
    }
  }

  /** Children ascend by ordinal, no ordinal counting as the greatest safe integer, and then by place in the list. */
  lemma ChildrenAscend(items: seq<Item>, id: Text, i: nat, j: nat, p: nat, q: nat)
    requires i < j < |Children(items, id)|
    requires IsLastOf(items, p, Children(items, id)[i].id) && IsLastOf(items, q, Children(items, id)[j].id)
    ensures var (a, b) := (Children(items, id)[i].childOrdinal, Children(items, id)[j].childOrdinal);
      var m := if a.Some? then a.value else 9_007_199_254_740_991;
      var n := if b.Some? then b.value else 9_007_199_254_740_991;
      m < n || (m == n && p <= q)
  {
    ChildrenAre(items, id);
    assert NotAfter(items, Children(items, id)[i], Children(items, id)[j]);
    PositionIsLast(items, p, Children(items, id)[i].id);
    PositionIsLast(items, q, Children(items, id)[j].id);
  }

  lemma {:induction false} WithParentCounts(items: seq<Item>, id: Text, item: Item)
    ensures multiset(WithParent(items, id))[item] == if item.parent == Some(id) then multiset(items)[item] else 0
    decreases |items|
  {
    if items != [] {
      var last := |items| - 1;
      WithParentCounts(items[..last], id, item);
      assert items == items[..last] + [items[last]];
    }
  }

  lemma SameMembers(a: seq<Item>, b: seq<Item>)
    requires multiset(a) == multiset(b)
    ensures forall item :: item in a <==> item in b
    ensures |a| == |b|
  {
    forall item ensures item in a <==> item in b {
      assert item in a <==> item in multiset(a);
      assert item in b <==> item in multiset(b);
    }
    assert |a| == |multiset(a)| && |b| == |multiset(b)|;
  }

  /* ---- Rows ---- */

  predicate Active(item: Item) {
    !item.state.Abandoned? && !item.state.DeadLetter?
  }

  predicate IsMerged(item: Item) {
    item.state.Merged?
  }

  function CountWhere(list: seq<Item>, p: Item -> bool): (n: nat)
    ensures n <= |list|
  {
    if list == [] then 0
    else CountWhere(list[..|list| - 1], p) + if p(list[|list| - 1]) then 1 else 0
  }

  function DependencyHint(item: Item): Hint {
    if item.parent.None? then NoHint
    else
      match item.phase
      case Migrate => AfterExpand
      case Contract => AfterMigrate
      case _ => NoHint
  }

  function RowOf(items: seq<Item>, item: Item, depth: nat): Row {
    var children := Children(items, item.id);
    var active := CountWhere(children, Active);
    Row(item, depth, active, CountWhere(children, IsMerged), |children| - active, DependencyHint(item))
  }

  lemma {:induction false} CountInserted(items: seq<Item>, sorted: seq<Item>, item: Item, p: Item -> bool)
    ensures CountWhere(Insert(items, sorted, item), p) == CountWhere(sorted, p) + if p(item) then 1 else 0
    decreases |sorted|
  {
    var last := |sorted| - 1;
    if sorted == [] || NotAfter(items, sorted[last], item) {
      CountNext(sorted, item, p);
    } else {
      CountInserted(items, sorted[..last], item, p);
      CountNext(Insert(items, sorted[..last], item), sorted[last], p);
    }
  }

  lemma CountNext(list: seq<Item>, item: Item, p: Item -> bool)
    ensures CountWhere(list + [item], p) == CountWhere(list, p) + if p(item) then 1 else 0
  {
    assert (list + [item])[..|list|] == list;
  }

  lemma {:induction false} CountSorted(items: seq<Item>, children: seq<Item>, p: Item -> bool)
    ensures CountWhere(Sorted(items, children), p) == CountWhere(children, p)
    decreases |children|
  {
    if children != [] {
      var last := |children| - 1;
      CountSorted(items, children[..last], p);
      CountInserted(items, Sorted(items, children[..last]), children[last], p);
    }
  }

  ghost predicate CountsChildren(q: Item -> bool, p: Item -> bool, id: Text) {
    forall item :: q(item) <==> item.parent == Some(id) && p(item)
  }

  lemma {:induction false} CountWithParent(list: seq<Item>, id: Text, p: Item -> bool, q: Item -> bool)
    requires CountsChildren(q, p, id)
    ensures CountWhere(WithParent(list, id), p) == CountWhere(list, q)
    decreases |list|
  {
    if list != [] {
      var last := |list| - 1;
      CountWithParent(list[..last], id, p, q);
      CountNext(WithParent(list[..last], id), list[last], p);
    }
  }

  lemma {:induction false} CountSplits(list: seq<Item>, id: Text)
    ensures |WithParent(list, id)| == CountWhere(list, (i: Item) => i.parent == Some(id) && Active(i))
                                    + CountWhere(list, (i: Item) => i.parent == Some(id) && !Active(i))
    decreases |list|
  {
    if list != [] {
      CountSplits(list[..|list| - 1], id);
    }
  }

  function Places(list: seq<Item>, p: Item -> bool): set<int> {
    set i | 0 <= i < |list| && p(list[i])
  }

  /** Counting is counting places. */
  lemma {:induction false} CountIsCardinality(list: seq<Item>, p: Item -> bool)
    ensures CountWhere(list, p) == |Places(list, p)|
    decreases |list|
  {
    if list == [] {
      assert Places(list, p) == {};
    } else {
      var last := |list| - 1;
      CountIsCardinality(list[..last], p);
      assert Places(list, p) == Places(list[..last], p) + if p(list[last]) then {last} else {};
    }
  }

  /** A row shows its item at its depth, with a hint exactly for a child that migrates or contracts. */
  lemma RowShowsItem(items: seq<Item>, item: Item, depth: nat)
    ensures var row := RowOf(items, item, depth);
      && row.item == item && row.depth == depth
      && (row.hint == AfterExpand <==> item.parent.Some? && item.phase == Migrate)
      && (row.hint == AfterMigrate <==> item.parent.Some? && item.phase == Contract)
  {
  }

  /** The counts of a row are those of the items that name it as parent: active, merged, and abandoned ones. */
  lemma RowCounts(items: seq<Item>, item: Item, depth: nat)
    ensures var (row, id) := (RowOf(items, item, depth), item.id);
      && row.childCount
         == |set i | 0 <= i < |items| && items[i].parent == Some(id) && items[i].state !in {Abandoned, DeadLetter}|
      && row.mergedChildCount
         == |set i | 0 <= i < |items| && items[i].parent == Some(id) && items[i].state == Merged|
      && row.abandonedChildCount
         == |set i | 0 <= i < |items| && items[i].parent == Some(id) && items[i].state in {Abandoned, DeadLetter}|
  {
    var id := item.id;
    CountSorted(items, WithParent(items, id), Active);
    CountSorted(items, WithParent(items, id), IsMerged);
    CountWithParent(items, id, Active, (i: Item) => i.parent == Some(id) && Active(i));
    CountWithParent(items, id, IsMerged, (i: Item) => i.parent == Some(id) && IsMerged(i));
    CountSplits(items, id);
    ChildrenAre(items, id);
    CountedPlaces(items, id);
  }

  lemma CountedPlaces(items: seq<Item>, id: Text)
    ensures CountWhere(items, (i: Item) => i.parent == Some(id) && Active(i))
         == |set i | 0 <= i < |items| && items[i].parent == Some(id) && items[i].state !in {Abandoned, DeadLetter}|
    ensures CountWhere(items, (i: Item) => i.parent == Some(id) && IsMerged(i))
         == |set i | 0 <= i < |items| && items[i].parent == Some(id) && items[i].state == Merged|
    ensures CountWhere(items, (i: Item) => i.parent == Some(id) && !Active(i))
         == |set i | 0 <= i < |items| && items[i].parent == Some(id) && items[i].state in {Abandoned, DeadLetter}|
  {
    CountIsCardinality(items, (i: Item) => i.parent == Some(id) && Active(i));
    CountIsCardinality(items, (i: Item) => i.parent == Some(id) && IsMerged(i));
    CountIsCardinality(items, (i: Item) => i.parent == Some(id) && !Active(i));
    SamePlaces(items, id);
  }

  lemma SamePlaces(items: seq<Item>, id: Text)
    ensures (set i | 0 <= i < |items| && items[i].parent == Some(id) && items[i].state !in {Abandoned, DeadLetter})
         == Places(items, (i: Item) => i.parent == Some(id) && Active(i))
    ensures (set i | 0 <= i < |items| && items[i].parent == Some(id) && items[i].state == Merged)
         == Places(items, (i: Item) => i.parent == Some(id) && IsMerged(i))
    ensures (set i | 0 <= i < |items| && items[i].parent == Some(id) && items[i].state in {Abandoned, DeadLetter})
         == Places(items, (i: Item) => i.parent == Some(id) && !Active(i))
  {
  }

  predicate HasRow(rows: seq<Row>, id: Text) {
    exists i | 0 <= i < |rows| :: rows[i].item.id == id
  }

  /** `append(item, 1)`. */
  function Leaf(items: seq<Item>, rows: seq<Row>, item: Item): seq<Row> {
    if HasRow(rows, item.id) then rows else rows + [RowOf(items, item, 1)]
  }

  function Leaves(items: seq<Item>, rows: seq<Row>, children: seq<Item>): seq<Row> {
    if children == [] then rows
    else Leaf(items, Leaves(items, rows, children[..|children| - 1]), children[|children| - 1])
  }

  /** `append(item, 0)`. */
  function Tree(items: seq<Item>, rows: seq<Row>, item: Item): seq<Row> {
    if HasRow(rows, item.id) then rows
    else Leaves(items, rows + [RowOf(items, item, 0)], Children(items, item.id))
  }

  function Trees(items: seq<Item>, rows: seq<Row>, list: seq<Item>): seq<Row> {
    if list == [] then rows
    else Tree(items, Trees(items, rows, list[..|list| - 1]), list[|list| - 1])
  }

  function RootsOf(items: seq<Item>, list: seq<Item>): seq<Item> {
    if list == [] then []
    else
      var last := |list| - 1;
      var rest := RootsOf(items, list[..last]);
      if IsRoot(items, list[last]) then rest + [list[last]] else rest
  }

  /** The rows: the trees of the roots, and then whatever the roots did not reach. */
  function Grouped(items: seq<Item>): seq<Row> {
    Trees(items, Trees(items, [], RootsOf(items, items)), items)
  }

  /* ---- Any list: each id in one row, and no row under a stranger ---- */

  ghost predicate DistinctRows(rows: seq<Row>) {
    forall i, j | 0 <= i < j < |rows| :: rows[i].item.id != rows[j].item.id
  }

  /** A child's row follows its parent's row or a sibling that is not after it in child order. */
  ghost predicate Attached(items: seq<Item>, rows: seq<Row>, i: nat)
    requires i < |rows|
  {
    rows[i].depth == 1 ==>
      && i > 0
      && if rows[i - 1].depth == 0 then rows[i].item.parent == Some(rows[i - 1].item.id)
         else rows[i].item.parent == rows[i - 1].item.parent && NotAfter(items, rows[i - 1].item, rows[i].item)
  }

  ghost predicate Genuine(items: seq<Item>, row: Row) {
    row.depth <= 1 && row.item in items && row == RowOf(items, row.item, row.depth)
  }

  ghost predicate Arranged(items: seq<Item>, rows: seq<Row>) {
    && DistinctRows(rows)
    && (forall i | 0 <= i < |rows| :: Genuine(items, rows[i]))
    && forall i | 0 <= i < |rows| :: Attached(items, rows, i)
  }

  /** The last row is the parent, or one of the children laid out so far. */
  ghost predicate Under(rows: seq<Row>, parent: Text, children: seq<Item>) {
    && rows != []
    && var last := rows[|rows| - 1];
       if last.depth == 0 then last.item.id == parent else last.item in children
  }

  lemma ArrangedNext(items: seq<Item>, rows: seq<Row>, row: Row)
    requires Arranged(items, rows) && !HasRow(rows, row.item.id) && Genuine(items, row)
    requires Attached(items, rows + [row], |rows|)
    ensures Arranged(items, rows + [row])
  {
    forall i | 0 <= i < |rows| ensures Attached(items, rows + [row], i) {
      assert Attached(items, rows, i);
    }
  }

  lemma {:induction false} LeavesArranged(items: seq<Item>, rows: seq<Row>, parent: Text, children: seq<Item>)
    requires Arranged(items, rows) && Under(rows, parent, []) && InOrder(items, children)
    requires forall child | child in children :: child in items && child.parent == Some(parent)
    ensures var r := Leaves(items, rows, children); Arranged(items, r) && Under(r, parent, children)
    decreases |children|
  {
    if children != [] {
      var last := |children| - 1;
      var (before, child) := (children[..last], children[last]);
      assert children == before + [child];
      assert child in children && forall k | 0 <= k < last :: NotAfter(items, children[k], children[last]);
      LeavesArranged(items, rows, parent, before);
      LeafArranged(items, Leaves(items, rows, before), parent, before, child);
    }
  }

  lemma LeafArranged(items: seq<Item>, rows: seq<Row>, parent: Text, before: seq<Item>, child: Item)
    requires Arranged(items, rows) && Under(rows, parent, before)
    requires child in items && child.parent == Some(parent)
    requires forall other | other in before :: other.parent == Some(parent) && NotAfter(items, other, child)
    ensures var r := Leaf(items, rows, child); Arranged(items, r) && Under(r, parent, before + [child])
  {
    if !HasRow(rows, child.id) {
      assert Genuine(items, rows[|rows| - 1]);
      ArrangedNext(items, rows, RowOf(items, child, 1));
    }
  }

  lemma TreeArranged(items: seq<Item>, rows: seq<Row>, item: Item)
    requires Arranged(items, rows) && item in items
    ensures Arranged(items, Tree(items, rows, item))
  {
    if !HasRow(rows, item.id) {
      ChildrenAre(items, item.id);
      ArrangedNext(items, rows, RowOf(items, item, 0));
      LeavesArranged(items, rows + [RowOf(items, item, 0)], item.id, Children(items, item.id));
    }
  }

  lemma {:induction false} TreesArranged(items: seq<Item>, rows: seq<Row>, list: seq<Item>)
    requires Arranged(items, rows) && forall item | item in list :: item in items
    ensures Arranged(items, Trees(items, rows, list))
    decreases |list|
  {
    if list != [] {
      TreesArranged(items, rows, list[..|list| - 1]);
      TreeArranged(items, Trees(items, rows, list[..|list| - 1]), list[|list| - 1]);
    }
  }

  lemma {:induction false} LeavesExtend(items: seq<Item>, rows: seq<Row>, children: seq<Item>)
    ensures rows <= Leaves(items, rows, children)
    ensures forall child | child in children :: HasRow(Leaves(items, rows, children), child.id)
    decreases |children|
  {
    if children != [] {
      var last := |children| - 1;
      LeavesExtend(items, rows, children[..last]);
      assert children == children[..last] + [children[last]];
      var (r, t) := (Leaves(items, rows, children[..last]), Leaves(items, rows, children));
      assert r <= t && (r != t ==> t[|r|].item == children[last]);
      forall child | child in children[..last] ensures HasRow(t, child.id) {
        KeepsRow(r, t, child.id);
      }
    }
  }

  lemma KeepsRow(rows: seq<Row>, more: seq<Row>, id: Text)
    requires rows <= more && HasRow(rows, id)
    ensures HasRow(more, id)
  {
    var i :| 0 <= i < |rows| && rows[i].item.id == id;
    assert more[i] == rows[i];
  }

  lemma TreeExtends(items: seq<Item>, rows: seq<Row>, item: Item)
    ensures rows <= Tree(items, rows, item) && HasRow(Tree(items, rows, item), item.id)
  {
    var first := rows + [RowOf(items, item, 0)];
    LeavesExtend(items, first, Children(items, item.id));
    if !HasRow(rows, item.id) {
      assert first[|rows|].item == item;
      KeepsRow(first, Tree(items, rows, item), item.id);
    }
  }

  lemma {:induction false} TreesExtend(items: seq<Item>, rows: seq<Row>, list: seq<Item>)
    ensures rows <= Trees(items, rows, list)
    ensures forall item | item in list :: HasRow(Trees(items, rows, list), item.id)
    decreases |list|
  {
    if list != [] {
      var last := |list| - 1;
      TreesExtend(items, rows, list[..last]);
      TreeExtends(items, Trees(items, rows, list[..last]), list[last]);
      assert list == list[..last] + [list[last]];
      forall item | item in list[..last] ensures HasRow(Trees(items, rows, list), item.id) {
        KeepsRow(Trees(items, rows, list[..last]), Trees(items, rows, list), item.id);
      }
    }
  }

  lemma {:induction false} RootsHold(items: seq<Item>, list: seq<Item>)
    ensures forall item :: item in RootsOf(items, list) <==> item in list && IsRoot(items, item)
    decreases |list|
  {
    if list != [] {
      var last := |list| - 1;
      RootsHold(items, list[..last]);
      assert list == list[..last] + [list[last]];
    }
  }

  /** Whatever the list, cycles and nested children included: every id has one row, and rows are where they belong. */
  lemma EveryIdOnce(items: seq<Item>)
    ensures Arranged(items, Grouped(items))
    ensures forall item | item in items :: HasRow(Grouped(items), item.id)
  {
    var roots := RootsOf(items, items);
    RootsHold(items, items);
    TreesArranged(items, [], roots);
    TreesArranged(items, Trees(items, [], roots), items);
    TreesExtend(items, Trees(items, [], roots), items);
  }

  ghost predicate DistinctIds(items: seq<Item>) {
    forall i, j | 0 <= i < j < |items| :: items[i].id != items[j].id
  }

  function ItemsOf(rows: seq<Row>): seq<Item> {
    seq(|rows|, i requires 0 <= i < |rows| => rows[i].item)
  }

  lemma {:induction false} DistinctIdsOnce(items: seq<Item>, item: Item)
    requires DistinctIds(items)
    ensures multiset(items)[item] == if item in items then 1 else 0
    decreases |items|
  {
    if items != [] {
      var last := |items| - 1;
      DistinctIdsOnce(items[..last], item);
      assert items == items[..last] + [items[last]];
    }
  }

  /** With distinct ids the rows hold exactly the items, each once. */
  lemma EveryItemOnce(items: seq<Item>)
    requires DistinctIds(items)
    ensures multiset(ItemsOf(Grouped(items))) == multiset(items)
  {
    var rows := Grouped(items);
    var shown := ItemsOf(rows);
    EveryIdOnce(items);
    forall item ensures item in shown <==> item in items {
      if item in items {
        var i :| 0 <= i < |rows| && rows[i].item.id == item.id;
        assert Genuine(items, rows[i]) && shown[i] == item;
      }
      if item in shown {
        var i :| 0 <= i < |shown| && shown[i] == item;
        assert Genuine(items, rows[i]);
      }
    }
    forall item ensures multiset(shown)[item] == multiset(items)[item] {
      DistinctIdsOnce(shown, item);
      DistinctIdsOnce(items, item);
    }
  }

  /* ---- A two-level forest: roots in order, each with its children ---- */

  /** Ids are distinct, and the parent of a child is a root. */
  ghost predicate TwoLevel(items: seq<Item>) {
    && DistinctIds(items)
    && forall item, parent | item in items && parent in items && item.parent == Some(parent.id) :: IsRoot(items, parent)
  }

  function LeafRows(items: seq<Item>, children: seq<Item>): seq<Row> {
    seq(|children|, i requires 0 <= i < |children| => RowOf(items, children[i], 1))
  }

  function Laid(items: seq<Item>, roots: seq<Item>): seq<Row> {
    if roots == [] then []
    else
      var last := |roots| - 1;
      Laid(items, roots[..last])
      + ([RowOf(items, roots[last], 0)] + LeafRows(items, Children(items, roots[last].id)))
  }

  lemma {:induction false} FreshLeaves(items: seq<Item>, rows: seq<Row>, children: seq<Item>)
    requires DistinctIds(children) && forall child | child in children :: !HasRow(rows, child.id)
    ensures Leaves(items, rows, children) == rows + LeafRows(items, children)
    decreases |children|
  {
    if children != [] {
      var last := |children| - 1;
      var (before, child) := (children[..last], children[last]);
      assert children == before + [child];
      FreshLeaves(items, rows, before);
      FreshAfter(items, rows, before, child);
      assert LeafRows(items, children) == LeafRows(items, before) + [RowOf(items, child, 1)];
      ConcatAssociates(rows, LeafRows(items, before), [RowOf(items, child, 1)]);
    } else {
      assert rows + LeafRows(items, children) == rows;
    }
  }

  lemma FreshAfter(items: seq<Item>, rows: seq<Row>, before: seq<Item>, child: Item)
    requires !HasRow(rows, child.id) && forall i | 0 <= i < |before| :: before[i].id != child.id
    ensures !HasRow(rows + LeafRows(items, before), child.id)
  {
  }

  lemma DistinctChildren(items: seq<Item>, id: Text)
    requires DistinctIds(items)
    ensures DistinctIds(Children(items, id))
  {
    var children := Children(items, id);
    ChildrenAre(items, id);
    SortedHolds(items, WithParent(items, id));
    DistinctWithParent(items, id);
    forall i, j | 0 <= i < j < |children| ensures children[i].id != children[j].id {
      if children[i].id == children[j].id {
        assert children[i] in items && children[j] in items;
        TwiceIn(children, i, j);
        DistinctIdsOnce(WithParent(items, id), children[i]);
      }
    }
  }

  lemma TwiceIn(list: seq<Item>, i: nat, j: nat)
    requires i < j < |list| && list[i] == list[j]
    ensures multiset(list)[list[i]] >= 2
  {
    assert list == list[..j] + [list[j]] + list[j + 1..];
    assert list[..j][i] in multiset(list[..j]);
  }

  lemma {:induction false} DistinctWithParent(items: seq<Item>, id: Text)
    requires DistinctIds(items)
    ensures DistinctIds(WithParent(items, id))
    decreases |items|
  {
    if items != [] {
      DistinctWithParent(items[..|items| - 1], id);
      WithParentHolds(items[..|items| - 1], id);
    }
  }

  lemma {:induction false} DistinctRoots(items: seq<Item>, list: seq<Item>)
    requires DistinctIds(list)
    ensures DistinctIds(RootsOf(items, list))
    decreases |list|
  {
    if list != [] {
      var last := |list| - 1;
      var rest := RootsOf(items, list[..last]);
      DistinctRoots(items, list[..last]);
      RootsHold(items, list[..last]);
      forall i | 0 <= i < |rest| ensures rest[i].id != list[last].id {
        assert rest[i] in list[..last];
      }
    }
  }

  ghost predicate FromRoot(items: seq<Item>, root: Item, item: Item) {
    item == root || (item in items && item.parent == Some(root.id))
  }

  /** Everything laid out for some roots is one of them or a child of one of them. */
  lemma {:induction false} LaidHolds(items: seq<Item>, roots: seq<Item>, i: nat)
    requires i < |Laid(items, roots)|
    ensures exists k :: 0 <= k < |roots| && FromRoot(items, roots[k], Laid(items, roots)[i].item)
    decreases |roots|
  {
    var last := |roots| - 1;
    var before := Laid(items, roots[..last]);
    if i < |before| {
      LaidHolds(items, roots[..last], i);
      var k :| 0 <= k < last && FromRoot(items, roots[..last][k], before[i].item);
      assert roots[..last][k] == roots[k];
    } else {
      LastLaid(items, roots[last], i - |before|);
    }
  }

  lemma LastLaid(items: seq<Item>, root: Item, i: nat)
    requires i <= |Children(items, root.id)|
    ensures FromRoot(items, root, ([RowOf(items, root, 0)] + LeafRows(items, Children(items, root.id)))[i].item)
  {
    ChildrenAre(items, root.id);
    if i > 0 {
      assert Children(items, root.id)[i - 1] in Children(items, root.id);
    }
  }

  lemma SameIdSameItem(items: seq<Item>, a: Item, b: Item)
    requires DistinctIds(items) && a in items && b in items && a.id == b.id
    ensures a == b
  {
  }

  /** Neither a further root nor its children are among the rows of the roots before it. */
  lemma NotLaidYet(items: seq<Item>, roots: seq<Item>, n: nat, item: Item)
    requires TwoLevel(items) && DistinctIds(roots) && n < |roots|
    requires forall root | root in roots :: root in items && IsRoot(items, root)
    requires FromRoot(items, roots[n], item)
    ensures !HasRow(Laid(items, roots[..n]), item.id)
  {
    var rows := Laid(items, roots[..n]);
    if i :| 0 <= i < |rows| && rows[i].item.id == item.id {
      LaidHolds(items, roots[..n], i);
      var other := rows[i].item;
      var k :| 0 <= k < n && FromRoot(items, roots[..n][k], other);
      assert roots[..n][k] == roots[k] && roots[k] in roots && roots[n] in roots;
      SameIdSameItem(items, other, item);
      RootHasNoParent(items, roots[k], roots[n]);
      RootHasNoParent(items, roots[n], roots[k]);
      assert false;
    }
  }

  lemma RootHasNoParent(items: seq<Item>, root: Item, other: Item)
    requires IsRoot(items, root) && other in items
    ensures root.parent != Some(other.id)
  {
  }

  lemma {:induction false} TreesAreLaid(items: seq<Item>, roots: seq<Item>, n: nat)
    requires TwoLevel(items) && DistinctIds(roots) && n <= |roots|
    requires forall root | root in roots :: root in items && IsRoot(items, root)
    ensures Trees(items, [], roots[..n]) == Laid(items, roots[..n])
    decreases n
  {
    if n > 0 {
      var (before, root) := (roots[..n - 1], roots[n - 1]);
      assert roots[..n][..n - 1] == before;
      TreesAreLaid(items, roots, n - 1);
      NotLaidYet(items, roots, n - 1, root);
      var rows := Laid(items, before);
      var children := Children(items, root.id);
      ChildrenAre(items, root.id);
      DistinctChildren(items, root.id);
      forall child | child in children ensures !HasRow(rows + [RowOf(items, root, 0)], child.id) {
        NotLaidYet(items, roots, n - 1, child);
        RootHasNoParent(items, root, root);
        if child.id == root.id {
          SameIdSameItem(items, child, root);
        }
      }
      FreshLeaves(items, rows + [RowOf(items, root, 0)], children);
      ConcatAssociates(rows, [RowOf(items, root, 0)], LeafRows(items, children));
    }
  }

  lemma {:induction false} NothingLeftToAdd(items: seq<Item>, rows: seq<Row>, list: seq<Item>)
    requires forall item | item in list :: HasRow(rows, item.id)
    ensures Trees(items, rows, list) == rows
    decreases |list|
  {
    if list != [] {
      NothingLeftToAdd(items, rows, list[..|list| - 1]);
    }
  }

  /** Every item of a two-level forest is a root, or a child that its root's tree lays out. */
  lemma RootsReachAll(items: seq<Item>, item: Item)
    requires TwoLevel(items) && item in items
    ensures HasRow(Trees(items, [], RootsOf(items, items)), item.id)
  {
    var roots := RootsOf(items, items);
    RootsHold(items, items);
    if IsRoot(items, item) {
      TreesExtend(items, [], roots);
    } else {
      var p :| 0 <= p < |items| && items[p].id == item.parent.value;
      ChildOfRoot(items, items[p], item);
      DistinctRoots(items, items);
      ChildHasRow(items, roots, items[p], item);
    }
  }

  lemma ChildOfRoot(items: seq<Item>, root: Item, child: Item)
    requires TwoLevel(items) && root in items && child in items && child.parent == Some(root.id)
    ensures IsRoot(items, root) && child in Children(items, root.id)
  {
    ChildrenAre(items, root.id);
  }

  lemma ChildHasRow(items: seq<Item>, roots: seq<Item>, root: Item, child: Item)
    requires root in roots && child in Children(items, root.id)
    requires forall r | r in roots :: r in items && IsRoot(items, r)
    requires TwoLevel(items) && DistinctIds(roots)
    ensures HasRow(Trees(items, [], roots), child.id)
  {
    var k :| 0 <= k < |roots| && roots[k] == root;
    TreesAreLaid(items, roots, |roots|);
    assert roots[..|roots|] == roots;
    LaidHasChild(items, roots, k, child);
  }

  lemma {:induction false} LaidHasChild(items: seq<Item>, roots: seq<Item>, k: nat, child: Item)
    requires k < |roots| && child in Children(items, roots[k].id)
    ensures HasRow(Laid(items, roots), child.id)
    decreases |roots|
  {
    var last := |roots| - 1;
    var before := Laid(items, roots[..last]);
    if k < last {
      LaidHasChild(items, roots[..last], k, child);
      KeepsRow(before, Laid(items, roots), child.id);
    } else {
      var children := Children(items, roots[last].id);
      var c :| 0 <= c < |children| && children[c] == child;
      LaidLeaf(before, RowOf(items, roots[last], 0), LeafRows(items, children), c);
    }
  }

  lemma LaidLeaf(before: seq<Row>, root: Row, leaves: seq<Row>, c: nat)
    requires c < |leaves|
    ensures HasRow(before + ([root] + leaves), leaves[c].item.id)
  {
    assert (before + ([root] + leaves))[|before| + 1 + c] == leaves[c];
  }

  /** On a two-level forest the rows are the roots in input order, each followed by all its children in order. */
  lemma ForestIsLaidOut(items: seq<Item>)
    requires TwoLevel(items)
    ensures Grouped(items) == Laid(items, RootsOf(items, items))
  {
    var roots := RootsOf(items, items);
    RootsHold(items, items);
    DistinctRoots(items, items);
    TreesAreLaid(items, roots, |roots|);
    assert roots[..|roots|] == roots;
    forall item | item in items ensures HasRow(Trees(items, [], roots), item.id) {
      RootsReachAll(items, item);
    }
    NothingLeftToAdd(items, Trees(items, [], roots), items);
  }

  /* ---- The loops ---- */

  type ChildMap = map<Text, seq<Item>>

  function ChildrenIn(childrenByParent: ChildMap, id: Text): seq<Item> {
    if id in childrenByParent then childrenByParent[id] else []
  }

  ghost predicate Emitted(rows: seq<Row>, emitted: set<Text>) {
    forall id :: id in emitted <==> HasRow(rows, id)
  }

  lemma ChildrenHaveIds(items: seq<Item>, id: Text)
    ensures forall child | child in Children(items, id) :: HasId(items, child.id)
  {
    ChildrenAre(items, id);
  }

  method NewRow(items: seq<Item>, childrenByParent: ChildMap, item: Item, depth: nat) returns (row: Row)
    requires HasId(items, item.id)
    requires forall id | HasId(items, id) :: ChildrenIn(childrenByParent, id) == Children(items, id)
    ensures row == RowOf(items, item, depth)
  {
    var children := ChildrenIn(childrenByParent, item.id);
    var active := CountWhere(children, Active);
    return Row(item, depth, active, CountWhere(children, IsMerged), |children| - active, DependencyHint(item));
  }

  method AppendLeaf(items: seq<Item>, childrenByParent: ChildMap, rows: seq<Row>, emitted: set<Text>, item: Item)
    returns (r: seq<Row>, e: set<Text>)
    requires Emitted(rows, emitted) && HasId(items, item.id)
    requires forall id | HasId(items, id) :: ChildrenIn(childrenByParent, id) == Children(items, id)
    ensures r == Leaf(items, rows, item) && Emitted(r, e)
  {
    if item.id in emitted {
      return rows, emitted;
    }
    var row := NewRow(items, childrenByParent, item, 1);
    RowAdded(rows, row, emitted);
    return rows + [row], emitted + {item.id};
  }

  lemma RowAdded(rows: seq<Row>, row: Row, emitted: set<Text>)
    requires Emitted(rows, emitted)
    ensures Emitted(rows + [row], emitted + {row.item.id})
  {
    forall id ensures HasRow(rows + [row], id) <==> HasRow(rows, id) || id == row.item.id {
      assert (rows + [row])[|rows|] == row;
      if HasRow(rows, id) {
        KeepsRow(rows, rows + [row], id);
      }
    }
  }

  method AppendTree(items: seq<Item>, childrenByParent: ChildMap, rows: seq<Row>, emitted: set<Text>, item: Item)
    returns (r: seq<Row>, e: set<Text>)
    requires Emitted(rows, emitted) && item in items
    requires forall id | HasId(items, id) :: ChildrenIn(childrenByParent, id) == Children(items, id)
    ensures r == Tree(items, rows, item) && Emitted(r, e)
  {
    if item.id in emitted {
      return rows, emitted;
    }
    assert HasId(items, item.id);
    var row := NewRow(items, childrenByParent, item, 0);
    var children := ChildrenIn(childrenByParent, item.id);
    RowAdded(rows, row, emitted);
    ChildrenHaveIds(items, item.id);
    r, e := AppendLeaves(items, childrenByParent, rows + [row], emitted + {item.id}, children);
  }

  /** The loop of `append` over the children of a row. */
  method AppendLeaves(items: seq<Item>, childrenByParent: ChildMap, rows: seq<Row>, emitted: set<Text>,
                      children: seq<Item>)
    returns (r: seq<Row>, e: set<Text>)
    requires Emitted(rows, emitted) && forall child | child in children :: HasId(items, child.id)
    requires forall id | HasId(items, id) :: ChildrenIn(childrenByParent, id) == Children(items, id)
    ensures r == Leaves(items, rows, children) && Emitted(r, e)
  {
    r, e := rows, emitted;
    for i := 0 to |children|
      invariant r == Leaves(items, rows, children[..i]) && Emitted(r, e)
    {
      assert children[..i + 1][..i] == children[..i];
      assert children[i] in children;
      r, e := AppendLeaf(items, childrenByParent, r, e, children[i]);
    }
    assert children[..|children|] == children;
  }

  method CollectChildren(items: seq<Item>) returns (childrenByParent: ChildMap)
    ensures forall id | HasId(items, id) :: ChildrenIn(childrenByParent, id) == Children(items, id)
  {
    childrenByParent := map[];
    for i := 0 to |items|
      invariant forall id | HasId(items, id) :: ChildrenIn(childrenByParent, id) == WithParent(items[..i], id)
    {
      assert items[..i + 1][..i] == items[..i];
      var item := items[i];
      if IsRoot(items, item) {
        continue;
      }
      var parent := item.parent.value;
      childrenByParent := childrenByParent[parent := ChildrenIn(childrenByParent, parent) + [item]];
    }
    assert items[..|items|] == items;
    childrenByParent := map id | id in childrenByParent :: Sorted(items, childrenByParent[id]);
  }

  lemma {:induction false} TreesNext(items: seq<Item>, rows: seq<Row>, list: seq<Item>, item: Item)
    ensures Trees(items, rows, list + [item]) == Tree(items, Trees(items, rows, list), item)
  {
    assert (list + [item])[..|list|] == list;
  }

  /** The roots among the first items, one item later, and their trees. */
  lemma {:induction false} RootsNext(items: seq<Item>, i: nat)
    requires i < |items|
    ensures var (before, after) := (RootsOf(items, items[..i]), RootsOf(items, items[..i + 1]));
      Trees(items, [], after) ==
        if IsRoot(items, items[i]) then Tree(items, Trees(items, [], before), items[i]) else Trees(items, [], before)
  {
    assert items[..i + 1][..i] == items[..i];
    if IsRoot(items, items[i]) {
      TreesNext(items, [], RootsOf(items, items[..i]), items[i]);
    }
  }

  method GroupWorkItems(items: seq<Item>) returns (rows: seq<Row>)
    ensures rows == Grouped(items)
  {
    var childrenByParent := CollectChildren(items);
    var emitted: set<Text> := {};
    rows := [];
    for i := 0 to |items|
      invariant rows == Trees(items, [], RootsOf(items, items[..i])) && Emitted(rows, emitted)
    {
      RootsNext(items, i);
      if IsRoot(items, items[i]) {
        rows, emitted := AppendTree(items, childrenByParent, rows, emitted, items[i]);
      }
    }
    assert items[..|items|] == items;
    ghost var first := rows;
    for i := 0 to |items|
      invariant rows == Trees(items, first, items[..i]) && Emitted(rows, emitted)
    {
      TreesNext(items, first, items[..i], items[i]);
      assert items[..i + 1] == items[..i] + [items[i]];
      rows, emitted := AppendTree(items, childrenByParent, rows, emitted, items[i]);
    }
  }
}
