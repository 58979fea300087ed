/** The smoothsort behind `qsort` and `__qsort_r`
    (`stdlib_qsort_helpers.c`, `stdlib.c`).

    The array is a sequence of items and a position is an item index; the
    byte pointers of the source are `base + index * itemSize`, and each
    byte offset read from the Leonardo table is `itemSize` times the
    Leonardo number used here (`EntryScales`). The comparator is a
    parameter, called with the extra argument the source threads through.

    The heaps are described by their orders, rightmost tree first (the
    `forest`); the source keeps the same information as a two-word bitmap
    with `pshift` the order of the rightmost tree, and steps from one tree
    to the next with `pntz`. The steps here are those of the corrected
    `pntz`, `QsortBits.NextTreeGap`; as written, `pntz` does not step past
    a tree of order 1 whose next tree is 32 orders up, and the dismantling
    loop then never ends (`QsortBits.ShrinkNeverEndsAsWritten`). */
module Smoothsort {

  const Two32: nat := 0x1_0000_0000

  /** Leonardo numbers: the number of items in a heap of each order. */
  function Leo(k: nat): (r: nat)
    ensures r >= 1
  {
    if k < 2 then 1 else Leo(k - 1) + Leo(k - 2) + 1
  }

  /** Larger orders never have smaller heaps. */
  lemma {:induction false} LeoMonotone(i: nat, j: nat)
    requires i <= j
    ensures Leo(i) <= Leo(j)
    decreases j - i
  {
    if i < j {
      LeoMonotone(i, j - 1);
    }
  }

  /** One step of the recurrence, on values already known. */
  lemma LeoNext(k: nat, x: nat, y: nat)
    requires k >= 2 && Leo(k - 2) == x && Leo(k - 1) == y
    ensures Leo(k) == x + y + 1
  {
  }

  /** Leonardo numbers up to order 12. */
  lemma LeoUpTo12()
    ensures Leo(11) == 287 && Leo(12) == 465
  {
    LeoNext(2, 1, 1);
    LeoNext(3, 1, 3);
    LeoNext(4, 3, 5);
    LeoNext(5, 5, 9);
    LeoNext(6, 9, 15);
    LeoNext(7, 15, 25);
    LeoNext(8, 25, 41);
    LeoNext(9, 41, 67);
    LeoNext(10, 67, 109);
    LeoNext(11, 109, 177);
    LeoNext(12, 177, 287);
  }

  /** Leonardo numbers up to order 24. */
  lemma LeoUpTo24()
    ensures Leo(23) == 92735 && Leo(24) == 150049
  {
    LeoUpTo12();
    LeoNext(13, 287, 465);
    LeoNext(14, 465, 753);
    LeoNext(15, 753, 1219);
    LeoNext(16, 1219, 1973);
    LeoNext(17, 1973, 3193);
    LeoNext(18, 3193, 5167);
    LeoNext(19, 5167, 8361);
    LeoNext(20, 8361, 13529);
    LeoNext(21, 13529, 21891);
    LeoNext(22, 21891, 35421);
    LeoNext(23, 35421, 57313);
    LeoNext(24, 57313, 92735);
  }

  /** Leonardo numbers up to order 35. */
  lemma LeoUpTo35()
    ensures Leo(34) == 18454929 && Leo(35) == 29860703
  {
    LeoUpTo24();
    LeoNext(25, 92735, 150049);
    LeoNext(26, 150049, 242785);
    LeoNext(27, 242785, 392835);
    LeoNext(28, 392835, 635621);
    LeoNext(29, 635621, 1028457);
    LeoNext(30, 1028457, 1664079);
    LeoNext(31, 1664079, 2692537);
    LeoNext(32, 2692537, 4356617);
    LeoNext(33, 4356617, 7049155);
    LeoNext(34, 7049155, 11405773);
    LeoNext(35, 11405773, 18454929);
  }

  /** The first order whose heap has 2^32 items or more: no array a
      32-bit `size_t` can count holds a heap of order 46. */
  lemma LeoUpTo46()
    ensures Leo(45) == 3672623805 && Leo(46) == 5942430145
  {
    LeoUpTo35();
    LeoNext(36, 18454929, 29860703);
    LeoNext(37, 29860703, 48315633);
    LeoNext(38, 48315633, 78176337);
    LeoNext(39, 78176337, 126491971);
    LeoNext(40, 126491971, 204668309);
    LeoNext(41, 204668309, 331160281);
    LeoNext(42, 331160281, 535828591);
    LeoNext(43, 535828591, 866988873);
    LeoNext(44, 866988873, 1402817465);
    LeoNext(45, 1402817465, 2269806339);
    LeoNext(46, 2269806339, 3672623805);
  }

  /** Heaps of order 46 and above have at least 2^32 items. */
  lemma LeoLarge(order: nat)
    requires order >= 46
    ensures Two32 <= Leo(order)
  {
    LeoUpTo46();
    LeoMonotone(46, order);
  }

  /** A heap that fits in fewer than 2^32 items has order at most 45. */
  lemma OrderBound(order: nat)
    requires Leo(order) < Two32
    ensures order <= 45
  {
    if order > 45 {
      LeoLarge(order);
    }
  }

  // ---------------------------------------------------------------
  // The Leonardo table

  /** Entry `k` of the table: `itemSize` for the first two, then the two
      before plus `itemSize`. */
  function Entry(itemSize: nat, k: nat): nat {
    if k < 2 then itemSize else Entry(itemSize, k - 1) + Entry(itemSize, k - 2) + itemSize
  }

  /** Each entry is the byte size of a heap: `itemSize` items of that
      order's Leonardo number. */
  lemma {:induction false} EntryScales(itemSize: nat, k: nat)
    ensures Entry(itemSize, k) == itemSize * Leo(k)
  {
    if k >= 2 {
      EntryScales(itemSize, k - 1);
      EntryScales(itemSize, k - 2);
      assert itemSize * Leo(k) == itemSize * Leo(k - 1) + itemSize * Leo(k - 2) + itemSize * 1;
    }
  }

  /** With items of at least one byte, an entry is at least its Leonardo
      number. */
  lemma {:induction false} EntryAtLeast(itemSize: nat, k: nat)
    requires itemSize > 0
    ensures Leo(k) <= Entry(itemSize, k)
  {
    if k >= 2 {
      EntryAtLeast(itemSize, k - 1);
      EntryAtLeast(itemSize, k - 2);
    }
  }

  /** Entries grow strictly from entry 1 on. */
  lemma EntryGrows(itemSize: nat, k: nat)
    requires itemSize > 0 && k >= 1
    ensures Entry(itemSize, k) < Entry(itemSize, k + 1)
  {
  }

  /** Multiplying by the same positive size keeps the order, both ways. */
  lemma ScaleOrder(itemSize: nat, x: nat, y: nat)
    requires itemSize > 0
    ensures x <= y <==> itemSize * x <= itemSize * y
  {
    if x <= y {
      assert itemSize * y == itemSize * x + itemSize * (y - x);
    }
  }

  /** An order whose heap fits in the array is no larger than the index
      of an entry that reaches the total size. */
  lemma FitsBefore(itemSize: nat, numItems: nat, order: nat, last: nat)
    requires itemSize > 0 && last >= 1
    requires Leo(order) <= numItems && itemSize * numItems <= Entry(itemSize, last)
    ensures order <= last
  {
    if order > last {
      LeoMonotone(last + 1, order);
      EntryGrows(1, last);
      EntryScales(1, last);
      EntryScales(1, last + 1);
      EntryScales(itemSize, last);
      ScaleOrder(itemSize, Leo(order), numItems);
      ScaleOrder(itemSize, Leo(order), Leo(last));
    }
  }

  /** What the filled table covers: every order whose heap fits in the
      array, in at most 48 entries when the total size fits a 32-bit
      `size_t`. */
  lemma TableCovers(itemSize: nat, numItems: nat, table: seq<nat>)
    requires itemSize > 0 && numItems > 0 && |table| >= 3
    requires forall i | 0 <= i < |table| :: table[i] == Entry(itemSize, i)
    requires forall i | 2 <= i < |table| - 1 :: table[i] < itemSize * numItems
    requires itemSize * numItems <= table[|table| - 1]
    ensures forall order: nat | Leo(order) <= numItems :: order < |table|
    ensures itemSize * numItems < Two32 ==> |table| <= 48
  {
    var last := |table| - 1;
    forall order: nat | Leo(order) <= numItems
      ensures order < |table|
    {
      FitsBefore(itemSize, numItems, order, last);
    }
    if itemSize * numItems < Two32 {
      assert Entry(itemSize, last - 1) < Two32 by {
        if last - 1 >= 2 {
          assert table[last - 1] < itemSize * numItems;
        } else {
          assert Entry(itemSize, last - 1) == itemSize;
          ScaleOrder(itemSize, 1, numItems);
        }
      }
      EntryAtLeast(itemSize, last - 1);
      OrderBound(last - 1);
    }
  }

  /** The table `__qsort_r` fills before sorting: entries 0 and 1 are
      `itemSize`, each later entry is the two before it plus `itemSize`,
      and filling stops with the first entry that reaches the total size.
      The table fits the 48 words reserved for it, and it has an entry for
      every order whose heap fits in the array, so every later read of
      `wordArray[pshift]` or `wordArray[pshift - 2]` finds a filled one. */
  method LeonardoTable(itemSize: nat, numItems: nat) returns (table: seq<nat>)
    requires itemSize > 0 && numItems > 0
    ensures |table| >= 3
    ensures forall i | 0 <= i < |table| :: table[i] == Entry(itemSize, i)
    ensures forall i | 2 <= i < |table| - 1 :: table[i] < itemSize * numItems
    ensures itemSize * numItems <= table[|table| - 1]
    ensures forall order: nat | Leo(order) <= numItems :: order < |table|
    ensures itemSize * numItems < Two32 ==> |table| <= 48
  {
    var totalSize := itemSize * numItems;
    table := [itemSize, itemSize, 3 * itemSize];
    while table[|table| - 1] < totalSize
      invariant |table| >= 3
      invariant forall i | 0 <= i < |table| :: table[i] == Entry(itemSize, i)
      invariant forall i | 2 <= i < |table| - 1 :: table[i] < totalSize
      decreases totalSize - table[|table| - 1]
    {
      var k := |table|;
      EntryGrows(itemSize, k - 1);
      table := table + [table[k - 2] + table[k - 1] + itemSize];
    }
    TableCovers(itemSize, numItems, table);
  }

  // ---------------------------------------------------------------
  // cycle

  /** Exchanges the items at two positions. */
  function Swap<T>(a: seq<T>, i: nat, j: nat): (r: seq<T>)
    requires i < |a| && j < |a|
    ensures |r| == |a| && multiset(r) == multiset(a)
    ensures r[i] == a[j] && r[j] == a[i]
    ensures forall k | 0 <= k < |a| && k != i && k != j :: r[k] == a[k]
  {
    a[i := a[j]][j := a[i]]
  }

  predicate InBounds<T>(a: seq<T>, path: seq<nat>) {
    forall i | 0 <= i < |path| :: path[i] < |a|
  }

  /** No position occurs twice on the path. */
  predicate Distinct(path: seq<nat>) {
    forall i, j | 0 <= i < j < |path| :: path[i] != path[j]
  }

  /** `cycle`: along a path of positions, each position receives the item
      of the next one and the last receives the item of the first; a path
      shorter than two does nothing. Written as the chain of exchanges that
      has that effect. */
  function Cycle<T>(a: seq<T>, path: seq<nat>): (r: seq<T>)
    requires InBounds(a, path)
    ensures |r| == |a| && multiset(r) == multiset(a)
    ensures forall k | 0 <= k < |a| && k !in path :: r[k] == a[k]
    decreases |path|
  {
    if |path| < 2 then a
    else Cycle(Swap(a, path[0], path[1]), path[1..])
  }

  /** What `cycle` moves where, for a path without repeats. */
  lemma {:induction false} CycleMoves<T>(a: seq<T>, path: seq<nat>)
    requires InBounds(a, path) && Distinct(path) && |path| >= 2
    ensures forall i | 0 <= i < |path| - 1 :: Cycle(a, path)[path[i]] == a[path[i + 1]]
    ensures Cycle(a, path)[path[|path| - 1]] == a[path[0]]
    decreases |path|
  {
    var b := Swap(a, path[0], path[1]);
    var tail := path[1..];
    var r := Cycle(a, path);
    assert r == Cycle(b, tail);
    if |path| > 2 {
      CycleMoves(b, tail);
      forall i | 1 <= i < |path| - 1
        ensures r[path[i]] == a[path[i + 1]]
      {
        assert tail[i - 1] == path[i] && tail[i] == path[i + 1];
      }
      assert path[0] !in tail by {
        forall i | 0 <= i < |tail| ensures tail[i] != path[0] {
          assert tail[i] == path[i + 1];
        }
      }
      assert tail[|tail| - 1] == path[|path| - 1];
    }
  }

  // ---------------------------------------------------------------
  // The heaps

  /** The number of items the trees of a forest hold together. */
  function Size(forest: seq<nat>): (r: nat)
    ensures r >= |forest|
  {
    if |forest| == 0 then 0 else Leo(forest[0]) + Size(forest[1..])
  }

  /** The shape the driver keeps: orders grow strictly from the rightmost
      tree to the left, only the two rightmost trees may have consecutive
      orders, and an order-0 tree always has an order-1 tree beside it. */
  predicate Shape(forest: seq<nat>) {
    && |forest| >= 1
    && (forest[0] == 0 ==> |forest| >= 2 && forest[1] == 1)
    && (forall i | 0 <= i < |forest| - 1 :: forest[i] < forest[i + 1])
    && (forall i | 1 <= i < |forest| - 1 :: forest[i] + 1 < forest[i + 1])
  }

  /** The items of the tree of order `order` rooted at `root` are the
      `Leo(order)` positions ending at `root`. */
  predicate InTree(k: nat, root: nat, order: nat) {
    root + 1 - Leo(order) <= k <= root
  }

  /** Positions that decrease strictly along the path. */
  predicate Descending(path: seq<nat>) {
    forall i, j | 0 <= i < j < |path| :: path[j] < path[i]
  }

  /** `sift`: walks down from the root of a tree of order `order`,
      following the larger child while it beats the root's item, and then
      cycles the path, so the root's item sinks to where the walk stopped
      and every item on the way moves up one level. `entries` counts the
      pointers collected, which must stay below the 57 the source reserves
      (see `PathsFit`). Only the tree's own items move. */
  method Sift<T, A>(a: seq<T>, head: nat, order: nat, cmp: (T, T, A) -> int, arg: A)
    returns (r: seq<T>, entries: nat)
    requires head < |a| && Leo(order) <= head + 1
    ensures |r| == |a| && multiset(r) == multiset(a)
    ensures forall k | 0 <= k < |a| && !InTree(k, head, order) :: r[k] == a[k]
    ensures 1 <= entries <= order + 1
    ensures order <= 1 ==> r == a
  {
    var path := [head];
    var cur, ps := head, order;
    while ps > 1
      invariant cur <= head && Leo(ps) <= cur + 1
      invariant head + 1 - Leo(order) <= cur + 1 - Leo(ps)
      invariant 1 <= |path| <= order - ps + 1 && path[|path| - 1] == cur
      invariant forall i | 0 <= i < |path| :: cur <= path[i] <= head
      invariant Descending(path)
      decreases ps
    {
      var right := cur - 1;
      var left := cur - 1 - Leo(ps - 2);
      if cmp(a[head], a[left], arg) >= 0 && cmp(a[head], a[right], arg) >= 0 {
        break;
      }
      if cmp(a[left], a[right], arg) >= 0 {
        path := path + [left];
        cur, ps := left, ps - 1;
      } else {
        path := path + [right];
        cur, ps := right, ps - 2;
      }
    }
    assert forall k | 0 <= k < |a| && !InTree(k, head, order) :: k !in path;
    r := Cycle(a, path);
    entries := |path|;
  }

  /** The pointer arrays of `sift` and `trinkle` hold 57 entries, one of
      them used by `cycle` as scratch: every path of a heap that fits in a
      32-bit `size_t` stays within them. */
  lemma PathsFit(order: nat, entries: nat)
    requires Leo(order) < Two32 && entries <= order + 1
    ensures entries + 1 <= 57
  {
    OrderBound(order);
  }

  /** Peeling the rightmost tree off a forest. */
  lemma SizeOfRest(forest: seq<nat>, i: nat)
    requires i < |forest|
    ensures Size(forest[i..]) == Leo(forest[i]) + Size(forest[i + 1..])
  {
    assert forest[i..][1..] == forest[i + 1..];
  }

  /** `trinkle`: from the root of the rightmost tree (order `forest[0]`,
      at `head`), moves the root's item leftwards over the roots of the
      trees to its left while each such stepson beats it (and, unless the
      tree is already known to be a heap, beats the tree's children too),
      cycles that path, and sifts the item into the tree where it stopped.
      With `trusty` set and no step taken, nothing moves. Only positions up
      to `head` change, and the path collected never has more entries than
      there are trees. */
  method Trinkle<T, A>(a: seq<T>, head: nat, forest: seq<nat>, trusty: bool, cmp: (T, T, A) -> int, arg: A)
    returns (r: seq<T>, entries: nat)
    requires head < |a| && |forest| >= 1 && Size(forest) == head + 1
    ensures |r| == |a| && multiset(r) == multiset(a)
    ensures forall k | head < k < |a| :: r[k] == a[k]
    ensures 1 <= entries <= |forest|
    ensures |forest| == 1 && forest[0] <= 1 ==> r == a
  {
    var path, cur, i, stillTrusty := TrinklePath(a, head, forest, trusty, cmp, arg);
    entries := |path|;
    if stillTrusty {
      r := a;
    } else {
      SizeOfRest(forest, i);
      r := Cycle(a, path);
      var siftEntries;
      r, siftEntries := Sift(r, cur, forest[i], cmp, arg);
    }
  }

  /** The loop of `trinkle`: the path of roots the item passes, from `head`
      leftwards, ending at `cur`, the root of the tree of order `forest[i]`
      where the item stops. `stillTrusty` says no step was taken from a
      tree known to be a heap. With one tree the path is just `head`. */
  method TrinklePath<T, A>(a: seq<T>, head: nat, forest: seq<nat>, trusty: bool, cmp: (T, T, A) -> int, arg: A)
    returns (path: seq<nat>, cur: nat, i: nat, stillTrusty: bool)
    requires head < |a| && |forest| >= 1 && Size(forest) == head + 1
    ensures i < |forest| && cur <= head && Size(forest[i..]) == cur + 1
    ensures |path| == i + 1 && path[|path| - 1] == cur
    ensures forall j | 0 <= j < |path| :: cur <= path[j] <= head
    ensures |forest| == 1 ==> path == [head] && cur == head && i == 0
  {
    path := [head];
    cur, i, stillTrusty := head, 0, trusty;
    SizeOfRest(forest, 0);
    while i + 1 < |forest|
      invariant i < |forest| && cur <= head
      invariant Size(forest[i..]) == cur + 1
      invariant |path| == i + 1 && path[|path| - 1] == cur
      invariant forall j | 0 <= j < |path| :: cur <= path[j] <= head
      decreases |forest| - i
    {
      var ps := forest[i];
      SizeOfRest(forest, i);
      var stepson := cur - Leo(ps);
      if cmp(a[stepson], a[head], arg) <= 0 {
        break;
      }
      if !stillTrusty && ps > 1 {
        var right := cur - 1;
        var left := cur - 1 - Leo(ps - 2);
        if cmp(a[right], a[stepson], arg) >= 0 || cmp(a[left], a[stepson], arg) >= 0 {
          break;
        }
      }
      path := path + [stepson];
      cur, i := stepson, i + 1;
      stillTrusty := false;
    }
  }

  /** Adding a tree to the right of a forest. */
  lemma SizeCons(order: nat, forest: seq<nat>)
    ensures Size([order] + forest) == Leo(order) + Size(forest)
  {
    assert ([order] + forest)[1..] == forest;
  }

  /** Merging the two rightmost trees, of consecutive orders, under one
      more item gives a forest of one more item. */
  lemma SizeMerge(forest: seq<nat>)
    requires |forest| >= 2 && forest[1] == forest[0] + 1
    ensures Size([forest[0] + 2] + forest[2..]) == Size(forest) + 1
  {
    SizeOfRest(forest, 0);
    SizeOfRest(forest, 1);
    SizeCons(forest[0] + 2, forest[2..]);
  }

  /** Merging the two rightmost trees, of consecutive orders, keeps the
      shape. */
  lemma ShapeMerge(forest: seq<nat>)
    requires Shape(forest) && |forest| >= 2 && forest[1] == forest[0] + 1
    ensures Shape([forest[0] + 2] + forest[2..])
  {
  }

  /** A new tree of order 1 beside a larger tree, or of order 0 beside an
      order-1 tree, keeps the shape when the two rightmost trees were not
      mergeable. */
  lemma ShapeGrow(forest: seq<nat>, newOrder: nat)
    requires Shape(forest) && !(|forest| >= 2 && forest[1] == forest[0] + 1)
    requires newOrder == if forest[0] == 1 then 0 else 1
    ensures Shape([newOrder] + forest)
  {
  }

  /** Dropping the rightmost tree keeps the shape. */
  lemma ShapeDrop(forest: seq<nat>)
    requires Shape(forest) && |forest| >= 2
    ensures Shape(forest[1..])
  {
  }

  /** Replacing the rightmost tree by its two subtrees keeps the shape. */
  lemma ShapeSplit(forest: seq<nat>)
    requires Shape(forest) && forest[0] >= 2
    ensures Shape([forest[0] - 2, forest[0] - 1] + forest[1..])
  {
  }

  /** One step of the first phase of `__qsort_r`, for the item after
      `head`: the two rightmost trees merge under it when their orders are
      consecutive (after sifting the rightmost one); otherwise the
      rightmost tree is finished, by `trinkle` when no later merge will
      cover it and by `sift` when one will, and the new item starts a tree
      of order 1, or of order 0 beside an order-1 tree. */
  method Grow<T, A>(a: seq<T>, head: nat, forest: seq<nat>, cmp: (T, T, A) -> int, arg: A)
    returns (r: seq<T>, forest': seq<nat>)
    requires head + 1 < |a| && Shape(forest) && Size(forest) == head + 1
    ensures |r| == |a| && multiset(r) == multiset(a)
    ensures Shape(forest') && Size(forest') == head + 2
  {
    var order := forest[0];
    var entries;
    SizeOfRest(forest, 0);
    if |forest| >= 2 && forest[1] == order + 1 {
      r, entries := Sift(a, head, order, cmp, arg);
      SizeMerge(forest);
      ShapeMerge(forest);
      forest' := [order + 2] + forest[2..];
    } else {
      if Leo(order - 1) >= |a| - 1 - head {
        r, entries := Trinkle(a, head, forest, false, cmp, arg);
      } else {
        r, entries := Sift(a, head, order, cmp, arg);
      }
      var newOrder := if order == 1 then 0 else 1;
      SizeCons(newOrder, forest);
      ShapeGrow(forest, newOrder);
      forest' := [newOrder] + forest;
    }
  }

  /** One step of the second phase of `__qsort_r`, taking the rightmost
      tree apart: a tree of order 0 or 1 is a single item and is dropped;
      a larger tree leaves its left subtree (order one less) and its right
      subtree (order two less), whose roots are trinkled in that order.
      The forest then covers one item fewer. */
  method Shrink<T, A>(a: seq<T>, head: nat, forest: seq<nat>, cmp: (T, T, A) -> int, arg: A)
    returns (r: seq<T>, forest': seq<nat>)
    requires head < |a| && Shape(forest) && Size(forest) == head + 1 && forest != [1]
    ensures |r| == |a| && multiset(r) == multiset(a)
    ensures head >= 1 && Shape(forest') && Size(forest') == head
  {
    var order := forest[0];
    SizeOfRest(forest, 0);
    if order <= 1 {
      r := a;
      ShapeDrop(forest);
      forest' := forest[1..];
    } else {
      var rest := forest[1..];
      var left := head - 1 - Leo(order - 2);
      var entries;
      SizeCons(order - 1, rest);
      SizeCons(order - 2, [order - 1] + rest);
      assert [order - 2] + ([order - 1] + rest) == [order - 2, order - 1] + rest;
      r, entries := Trinkle(a, left, [order - 1] + rest, true, cmp, arg);
      r, entries := Trinkle(r, head - 1, [order - 2, order - 1] + rest, true, cmp, arg);
      ShapeSplit(forest);
      forest' := [order - 2, order - 1] + rest;
    }
  }

  /** `__qsort_r`: an empty array (no items, or items of no bytes) is left
      alone. Otherwise the forest is grown item by item, the last tree is
      trinkled, and the forest is taken apart again from the right. The
      result holds the same items, and an array of one item is not
      changed. */
  method QsortR<T, A>(a: seq<T>, itemSize: nat, cmp: (T, T, A) -> int, arg: A) returns (r: seq<T>)
    ensures |r| == |a| && multiset(r) == multiset(a)
    ensures itemSize == 0 || |a| <= 1 ==> r == a
  {
    r := a;
    if itemSize == 0 || |a| == 0 {
      return;
    }
    var forest := [1];
    var head := 0;
    var entries;
    SizeCons(1, []);
    while head < |a| - 1
      invariant head < |a| && Shape(forest) && Size(forest) == head + 1
      invariant |r| == |a| && multiset(r) == multiset(a)
      invariant |a| == 1 ==> r == a && forest == [1]
    {
      r, forest := Grow(r, head, forest, cmp, arg);
      head := head + 1;
    }
    r, entries := Trinkle(r, head, forest, false, cmp, arg);
    while forest != [1]
      invariant head < |a| && Shape(forest) && Size(forest) == head + 1
      invariant |r| == |a| && multiset(r) == multiset(a)
      invariant |a| == 1 ==> r == a && forest == [1]
      decreases head
    {
      r, forest := Shrink(r, head, forest, cmp, arg);
      head := head - 1;
    }
  }

  /** `WrapperCompareFunc`: the extra argument is the two-argument
      comparator, and the answer is that comparator's. */
  function WrapperCompare<T>(left: T, right: T, compare: (T, T) -> int): (r: int)
    ensures r == compare(left, right)
  {
    compare(left, right)
  }

  /** `qsort`: `__qsort_r` with the wrapper and the caller's comparator as
      its extra argument. */
  method Qsort<T>(a: seq<T>, itemSize: nat, compare: (T, T) -> int) returns (r: seq<T>)
    ensures |r| == |a| && multiset(r) == multiset(a)
    ensures itemSize == 0 || |a| <= 1 ==> r == a
  {
    r := QsortR(a, itemSize, WrapperCompare, compare);
  }
}
