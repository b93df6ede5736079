/** The order book as a value: each side is a sequence of price levels in ascending order
    of price, each level a first-in-first-out queue. The classes in module `BookObjects`
    change such a value in place; what is proved here about the value holds of them. */
module BookModel {
  import opened Types

  datatype Level = Level(price: u32, memoSeq: u32, orders: seq<Order>)

  type Levels = seq<Level>

  datatype Book = Book(bids: Levels, asks: Levels) {
    function On(side: OrderSide): Levels {
      if side.Buy? then bids else asks
    }

    function With(side: OrderSide, levels: Levels): Book {
      if side.Buy? then this.(bids := levels) else this.(asks := levels)
    }
  }

  const EMPTY_BOOK := Book([], [])

  // ---------------------------------------------------------------------------
  // The representation invariant
  // ---------------------------------------------------------------------------

  ghost predicate LevelOk(l: Level) {
    && l.price > 0
    && l.orders != []
    && (forall i :: 0 <= i < |l.orders| ==> l.orders[i].price == l.price && l.orders[i].memo < l.memoSeq)
    && (forall i, j :: 0 <= i < j < |l.orders| ==> l.orders[i].memo < l.orders[j].memo)
  }

  ghost predicate Ascending(levels: Levels) {
    forall i, j :: 0 <= i < j < |levels| ==> levels[i].price < levels[j].price
  }

  ghost predicate LevelsOk(levels: Levels) {
    && (forall i :: 0 <= i < |levels| ==> LevelOk(levels[i]))
    && Ascending(levels)
  }

  ghost predicate BookOk(b: Book) {
    LevelsOk(b.bids) && LevelsOk(b.asks)
  }

  ghost predicate Uncrossed(b: Book) {
    forall bid, ask :: bid in b.bids && ask in b.asks ==> bid.price < ask.price
  }

  // ---------------------------------------------------------------------------
  // Locating, pushing and removing
  // ---------------------------------------------------------------------------

  /** Where a binary search for `price` ends: the first level that is not below it. */
  function Rank(levels: Levels, price: int): (r: nat)
    ensures r <= |levels|
    ensures forall k :: 0 <= k < r ==> levels[k].price < price
    ensures r < |levels| ==> price <= levels[r].price
  {
    if levels == [] || price <= levels[0].price then 0
    else 1 + Rank(levels[1..], price)
  }

  predicate HasLevel(levels: Levels, price: int) {
    var i := Rank(levels, price);
    i < |levels| && levels[i].price == price
  }

  /** The first order of a level that carries `memo`. */
  function Position(orders: seq<Order>, memo: u32): (p: Option<nat>)
    ensures p.Some? ==> p.value < |orders| && orders[p.value].memo == memo
    ensures p.Some? ==> forall k :: 0 <= k < p.value ==> orders[k].memo != memo
    ensures p.None? ==> forall k :: 0 <= k < |orders| ==> orders[k].memo != memo
  {
    if orders == [] then None
    else if orders[0].memo == memo then Some(0)
    else match Position(orders[1..], memo)
      case None => None
      case Some(k) => Some(k + 1)
  }

  function Lookup(levels: Levels, price: NonZeroU32, memo: u32): Option<Order> {
    if !HasLevel(levels, price) then None
    else
      var orders := levels[Rank(levels, price)].orders;
      match Position(orders, memo)
      case None => None
      case Some(j) => Some(orders[j])
  }

  function RemoveAt<T>(s: seq<T>, j: nat): seq<T>
    requires j < |s|
  {
    s[..j] + s[j + 1..]
  }

  function InsertAt<T>(s: seq<T>, j: nat, x: T): seq<T>
    requires j <= |s|
  {
    s[..j] + [x] + s[j..]
  }

  /** Gives level `i` a new queue; a level whose queue is empty leaves the side. */
  function SetOrders(levels: Levels, i: nat, orders: seq<Order>): Levels
    requires i < |levels|
  {
    if orders == [] then RemoveAt(levels, i)
    else levels[i := levels[i].(orders := orders)]
  }

  function Remove(levels: Levels, price: NonZeroU32, memo: u32): (Levels, Option<Order>) {
    if !HasLevel(levels, price) then (levels, None)
    else
      var i := Rank(levels, price);
      var orders := levels[i].orders;
      match Position(orders, memo)
      case None => (SetOrders(levels, i, orders), None)
      case Some(j) => (SetOrders(levels, i, RemoveAt(orders, j)), Some(orders[j]))
  }

  /** Shrinks or grows the order at `(price, memo)`, if there is one. */
  function SetQuantity(levels: Levels, price: NonZeroU32, memo: u32, quantity: NonZeroU32): Levels {
    if !HasLevel(levels, price) then levels
    else
      var i := Rank(levels, price);
      var orders := levels[i].orders;
      match Position(orders, memo)
      case None => levels
      case Some(j) => levels[i := levels[i].(orders := orders[j := orders[j].(quantity := quantity)])]
  }

  /** The level that a push of `t` leaves behind; the memo counter must have room for one more. */
  function Enqueue(l: Level, t: Order): Level
    requires l.memoSeq < U32_MAX
  {
    Level(l.price, l.memoSeq + 1, l.orders + [t.(memo := l.memoSeq)])
  }

  /** The memo that the next push at `price` is given. */
  function NextMemo(levels: Levels, price: NonZeroU32): u32 {
    if HasLevel(levels, price) then levels[Rank(levels, price)].memoSeq else 0
  }

  /** Pushing overflows the memo counter exactly when the level has given out every memo. */
  function Push(levels: Levels, t: Order): Option<Levels> {
    var i := Rank(levels, t.price);
    if NextMemo(levels, t.price) == U32_MAX then None
    else if HasLevel(levels, t.price) then Some(levels[i := Enqueue(levels[i], t)])
    else Some(InsertAt(levels, i, Enqueue(Level(t.price, 0, []), t)))
  }

  // ---------------------------------------------------------------------------
  // The flat priority list
  // ---------------------------------------------------------------------------

  /** The orders of the levels from `lo` to `hi`, best first: asks upwards, bids downwards. */
  function WalkRange(side: OrderSide, levels: Levels, lo: nat, hi: nat): seq<Order>
    requires lo <= hi <= |levels|
    decreases hi - lo
  {
    if lo == hi then []
    else if side.Sell? then levels[lo].orders + WalkRange(side, levels, lo + 1, hi)
    else levels[hi - 1].orders + WalkRange(side, levels, lo, hi - 1)
  }

  /** Every resting order of a side, best first. */
  function Walk(side: OrderSide, levels: Levels): seq<Order> {
    WalkRange(side, levels, 0, |levels|)
  }

  /** The level that trades first. */
  function BestAt(side: OrderSide, levels: Levels): nat
    requires levels != []
  {
    if side.Sell? then 0 else |levels| - 1
  }

  lemma WalkSplit(side: OrderSide, levels: Levels, lo: nat, mid: nat, hi: nat)
    requires lo <= mid <= hi <= |levels|
    ensures WalkRange(side, levels, lo, hi)
         == if side.Sell? then WalkRange(side, levels, lo, mid) + WalkRange(side, levels, mid, hi)
            else WalkRange(side, levels, mid, hi) + WalkRange(side, levels, lo, mid)
  {
    if side.Sell? {
      WalkSplitUp(levels, lo, mid, hi);
    } else {
      WalkSplitDown(levels, lo, mid, hi);
    }
  }

  lemma {:induction false} WalkSplitUp(levels: Levels, lo: nat, mid: nat, hi: nat)
    requires lo <= mid <= hi <= |levels|
    ensures WalkRange(Sell, levels, lo, hi) == WalkRange(Sell, levels, lo, mid) + WalkRange(Sell, levels, mid, hi)
    decreases mid - lo
  {
    if lo != mid {
      WalkSplitUp(levels, lo + 1, mid, hi);
      Associate(levels[lo].orders, WalkRange(Sell, levels, lo + 1, mid), WalkRange(Sell, levels, mid, hi));
    }
  }

  lemma {:induction false} WalkSplitDown(levels: Levels, lo: nat, mid: nat, hi: nat)
    requires lo <= mid <= hi <= |levels|
    ensures WalkRange(Buy, levels, lo, hi) == WalkRange(Buy, levels, mid, hi) + WalkRange(Buy, levels, lo, mid)
    decreases hi - mid
  {
    if mid != hi {
      WalkSplitDown(levels, lo, mid, hi - 1);
      Associate(levels[hi - 1].orders, WalkRange(Buy, levels, mid, hi - 1), WalkRange(Buy, levels, lo, mid));
    }
  }

  lemma Associate<T>(a: seq<T>, b: seq<T>, c: seq<T>)
    ensures a + (b + c) == (a + b) + c
  {
  }

  /** Equal queues at a distance of `shift` walk alike. */
  lemma {:induction false} WalkShift(side: OrderSide, a: Levels, lo: nat, hi: nat, b: Levels, shift: int)
    requires lo <= hi <= |a| && 0 <= lo + shift && hi + shift <= |b|
    requires forall k :: lo <= k < hi ==> a[k].orders == b[k + shift].orders
    ensures WalkRange(side, a, lo, hi) == WalkRange(side, b, lo + shift, hi + shift)
    decreases hi - lo
  {
    if lo == hi {
    } else if side.Sell? {
      WalkShift(side, a, lo + 1, hi, b, shift);
    } else {
      WalkShift(side, a, lo, hi - 1, b, shift);
    }
  }

  /** The part of the list that comes before the levels from `lo` to `hi`. */
  function Ahead(side: OrderSide, levels: Levels, lo: nat, hi: nat): seq<Order>
    requires lo <= hi <= |levels|
  {
    if side.Sell? then WalkRange(side, levels, 0, lo) else WalkRange(side, levels, hi, |levels|)
  }

  /** The part of the list that comes after the levels from `lo` to `hi`. */
  function Behind(side: OrderSide, levels: Levels, lo: nat, hi: nat): seq<Order>
    requires lo <= hi <= |levels|
  {
    if side.Sell? then WalkRange(side, levels, hi, |levels|) else WalkRange(side, levels, 0, lo)
  }

  lemma WalkSection(side: OrderSide, levels: Levels, lo: nat, hi: nat)
    requires lo <= hi <= |levels|
    ensures Walk(side, levels)
         == Ahead(side, levels, lo, hi) + WalkRange(side, levels, lo, hi) + Behind(side, levels, lo, hi)
  {
    WalkSplit(side, levels, 0, lo, |levels|);
    WalkSplit(side, levels, lo, hi, |levels|);
  }

  lemma WalkOne(side: OrderSide, levels: Levels, i: nat)
    requires i < |levels|
    ensures WalkRange(side, levels, i, i + 1) == levels[i].orders
  {
    assert levels[i].orders + [] == levels[i].orders;
  }

  lemma WalkAround(side: OrderSide, levels: Levels, i: nat)
    requires i < |levels|
    ensures Walk(side, levels)
         == Ahead(side, levels, i, i + 1) + levels[i].orders + Behind(side, levels, i, i + 1)
  {
    WalkSection(side, levels, i, i + 1);
    WalkOne(side, levels, i);
  }

  /** Putting one level where the levels from `lo` to `hi` were changes only that part of the list. */
  lemma WalkReplaced(side: OrderSide, levels: Levels, lo: nat, hi: nat, l: Level)
    requires lo <= hi <= |levels|
    ensures Walk(side, levels[..lo] + [l] + levels[hi..])
         == Ahead(side, levels, lo, hi) + l.orders + Behind(side, levels, lo, hi)
  {
    var below, above := levels[..lo], levels[hi..];
    var n := |above|;
    WalkShift(side, below, 0, lo, levels, 0);
    WalkShift(side, above, 0, n, levels, hi);
    WalkJoined(side, below, l, above);
  }

  lemma WalkJoined(side: OrderSide, below: Levels, l: Level, above: Levels)
    ensures Walk(side, below + [l] + above)
         == if side.Sell? then Walk(side, below) + l.orders + Walk(side, above)
            else Walk(side, above) + l.orders + Walk(side, below)
  {
    var after := below + [l] + above;
    var lo, m, shift: nat := |below|, |above|, |below| + 1;
    assert after[lo] == l && |after| == shift + m;
    assert forall k :: 0 <= k < m ==> after[k + shift] == above[k];
    WalkShift(side, below, 0, lo, after, 0);
    WalkShift(side, above, 0, m, after, shift);
    WalkAround(side, after, lo);
  }

  lemma WalkDropped(side: OrderSide, levels: Levels, i: nat)
    requires i < |levels|
    ensures Walk(side, RemoveAt(levels, i)) == Ahead(side, levels, i, i + 1) + Behind(side, levels, i, i + 1)
  {
    var after := RemoveAt(levels, i);
    DroppedBelow(side, levels, i);
    var n := |after|;
    DroppedAbove(side, levels, i, n);
    WalkSplit(side, after, 0, i, n);
  }

  lemma DroppedBelow(side: OrderSide, levels: Levels, i: nat)
    requires i < |levels|
    ensures WalkRange(side, RemoveAt(levels, i), 0, i) == WalkRange(side, levels, 0, i)
  {
    WalkShift(side, levels, 0, i, RemoveAt(levels, i), 0);
  }

  lemma DroppedAbove(side: OrderSide, levels: Levels, i: nat, n: nat)
    requires i < |levels| == n + 1
    ensures WalkRange(side, RemoveAt(levels, i), i, n) == WalkRange(side, levels, i + 1, |levels|)
  {
    var after := RemoveAt(levels, i);
    assert forall k :: i < k < |levels| ==> after[k - 1] == levels[k];
    WalkShift(side, levels, i + 1, |levels|, after, -1);
  }

  lemma WalkSetOrders(side: OrderSide, levels: Levels, i: nat, orders: seq<Order>)
    requires i < |levels|
    ensures Walk(side, SetOrders(levels, i, orders))
         == Ahead(side, levels, i, i + 1) + orders + Behind(side, levels, i, i + 1)
  {
    if orders == [] {
      WalkDropped(side, levels, i);
      assert Ahead(side, levels, i, i + 1) + orders == Ahead(side, levels, i, i + 1);
    } else {
      var l := levels[i].(orders := orders);
      assert levels[i := l] == levels[..i] + [l] + levels[i + 1..];
      WalkReplaced(side, levels, i, i + 1, l);
    }
  }

  /** The list holds exactly the orders of the levels. */
  lemma {:induction false} RangeMember(side: OrderSide, levels: Levels, lo: nat, hi: nat, o: Order)
    requires lo <= hi <= |levels|
    ensures o in WalkRange(side, levels, lo, hi) <==> exists i :: lo <= i < hi && o in levels[i].orders
    decreases hi - lo
  {
    if lo != hi {
      var b := if side.Sell? then lo else hi - 1;
      var lo', hi' := if side.Sell? then lo + 1 else lo, if side.Sell? then hi else hi - 1;
      RangeMember(side, levels, lo', hi', o);
      var rest := WalkRange(side, levels, lo', hi');
      assert WalkRange(side, levels, lo, hi) == levels[b].orders + rest;
      assert o in levels[b].orders + rest <==> o in levels[b].orders || o in rest;
    }
  }

  /** Best price first and, at one price, earliest memo first. */
  ghost predicate InPriorityOrder(side: OrderSide, orders: seq<Order>) {
    forall i, j :: 0 <= i < j < |orders| ==> Precedes(side, orders[i], orders[j])
  }

  /** `Walk` lists a side in strict priority order. */
  lemma WalkInPriorityOrder(side: OrderSide, levels: Levels)
    requires LevelsOk(levels)
    ensures InPriorityOrder(side, Walk(side, levels))
  {
    RangeInPriorityOrder(side, levels, 0, |levels|);
  }

  lemma {:induction false} RangeInPriorityOrder(side: OrderSide, levels: Levels, lo: nat, hi: nat)
    requires LevelsOk(levels) && lo <= hi <= |levels|
    ensures InPriorityOrder(side, WalkRange(side, levels, lo, hi))
    decreases hi - lo
  {
    if lo != hi {
      var b := if side.Sell? then lo else hi - 1;
      var lo', hi' := if side.Sell? then lo + 1 else lo, if side.Sell? then hi else hi - 1;
      var tail := WalkRange(side, levels, lo', hi');
      RangeInPriorityOrder(side, levels, lo', hi');
      assert LevelOk(levels[b]);
      forall k | 0 <= k < |tail|
        ensures Better(side, levels[b].price, tail[k].price)
      {
        RangeMember(side, levels, lo', hi', tail[k]);
        var i :| lo' <= i < hi' && tail[k] in levels[i].orders;
        assert LevelOk(levels[i]);
      }
      PriorityOrderJoin(side, levels[b].orders, tail);
    }
  }

  lemma PriorityOrderJoin(side: OrderSide, queue: seq<Order>, tail: seq<Order>)
    requires InPriorityOrder(side, queue) && InPriorityOrder(side, tail)
    requires forall j, k :: 0 <= j < |queue| && 0 <= k < |tail| ==> Precedes(side, queue[j], tail[k])
    ensures InPriorityOrder(side, queue + tail)
  {
  }

  // ---------------------------------------------------------------------------
  // The index agrees with the list
  // ---------------------------------------------------------------------------

  lemma RankAt(levels: Levels, i: nat)
    requires Ascending(levels) && i < |levels|
    ensures Rank(levels, levels[i].price) == i
  {
    var r := Rank(levels, levels[i].price);
    if r < i {
      assert false;
    }
  }

  lemma PositionAt(l: Level, j: nat)
    requires LevelOk(l) && j < |l.orders|
    ensures Position(l.orders, l.orders[j].memo) == Some(j)
  {
    var p := Position(l.orders, l.orders[j].memo);
    assert p.Some?;
  }

  /** The order in slot `(i, j)` is the one its own price and memo address. */
  lemma SlotAddressed(levels: Levels, i: nat, j: nat)
    requires LevelsOk(levels) && i < |levels| && j < |levels[i].orders|
    ensures var o := levels[i].orders[j];
            && Lookup(levels, o.price, o.memo) == Some(o)
            && Remove(levels, o.price, o.memo) == (SetOrders(levels, i, RemoveAt(levels[i].orders, j)), Some(o))
  {
    assert LevelOk(levels[i]);
    RankAt(levels, i);
    PositionAt(levels[i], j);
  }

  /** Looking up an index finds an order exactly when that order is in the list under that index. */
  lemma LookupAgreesWithWalk(side: OrderSide, levels: Levels, price: NonZeroU32, memo: u32, o: Order)
    requires LevelsOk(levels)
    ensures Lookup(levels, price, memo) == Some(o)
       <==> o in Walk(side, levels) && o.price == price && o.memo == memo
  {
    if o in Walk(side, levels) && o.price == price && o.memo == memo {
      ListedIsFound(side, levels, o);
    }
    if Lookup(levels, price, memo) == Some(o) {
      var i := Rank(levels, price);
      assert LevelOk(levels[i]) && o in levels[i].orders;
      RangeMember(side, levels, 0, |levels|, o);
    }
  }

  lemma ListedIsFound(side: OrderSide, levels: Levels, o: Order)
    requires LevelsOk(levels) && o in Walk(side, levels)
    ensures Lookup(levels, o.price, o.memo) == Some(o)
  {
    RangeMember(side, levels, 0, |levels|, o);
    var i :| 0 <= i < |levels| && o in levels[i].orders;
    var j :| 0 <= j < |levels[i].orders| && levels[i].orders[j] == o;
    SlotAddressed(levels, i, j);
  }

  /** No two live orders of a side share an index. */
  lemma IndexUnique(side: OrderSide, levels: Levels, i: nat, j: nat)
    requires LevelsOk(levels)
    requires i < |Walk(side, levels)| && j < |Walk(side, levels)|
    requires IndexOf(side, Walk(side, levels)[i]) == IndexOf(side, Walk(side, levels)[j])
    ensures i == j
  {
    WalkInPriorityOrder(side, levels);
  }

  lemma ReplaceOk(levels: Levels, i: nat, l: Level)
    requires LevelsOk(levels) && i < |levels|
    requires LevelOk(l) && l.price == levels[i].price
    ensures LevelsOk(levels[i := l])
  {
    var after := levels[i := l];
    assert forall k :: 0 <= k < |after| ==> after[k].price == levels[k].price;
    assert forall k :: 0 <= k < |after| && k != i ==> after[k] == levels[k];
  }

  lemma DropOk(levels: Levels, i: nat)
    requires LevelsOk(levels) && i < |levels|
    ensures LevelsOk(RemoveAt(levels, i))
  {
    var after := RemoveAt(levels, i);
    assert forall k :: 0 <= k < |after| ==> after[k] == levels[if k < i then k else k + 1];
  }

  lemma InsertOk(levels: Levels, i: nat, l: Level)
    requires LevelsOk(levels) && i <= |levels|
    requires LevelOk(l)
    requires forall k :: 0 <= k < i ==> levels[k].price < l.price
    requires forall k :: i <= k < |levels| ==> l.price < levels[k].price
    ensures LevelsOk(InsertAt(levels, i, l))
  {
    var after := InsertAt(levels, i, l);
    assert after[i] == l;
    assert forall k :: 0 <= k < |after| && k != i ==> after[k] == levels[if k < i then k else k - 1];
  }

  lemma SetOrdersOk(levels: Levels, i: nat, orders: seq<Order>)
    requires LevelsOk(levels) && i < |levels|
    requires orders == [] || LevelOk(levels[i].(orders := orders))
    ensures LevelsOk(SetOrders(levels, i, orders))
  {
    if orders == [] {
      DropOk(levels, i);
    } else {
      ReplaceOk(levels, i, levels[i].(orders := orders));
    }
  }

  lemma EnqueueOk(l: Level, t: Order)
    requires LevelOk(l) || (l.orders == [] && l.price > 0)
    requires l.memoSeq < U32_MAX && t.price == l.price
    ensures LevelOk(Enqueue(l, t))
  {
    var orders := Enqueue(l, t).orders;
    assert forall k :: 0 <= k < |l.orders| ==> orders[k] == l.orders[k];
    assert orders[|l.orders|] == t.(memo := l.memoSeq);
  }

  /** The push of a build that does not check for overflow: the memo counter wraps around. */
  function EnqueueWrapping(l: Level, t: Order): Level {
    Level(l.price, (l.memoSeq + 1) % (U32_MAX + 1), l.orders + [t.(memo := l.memoSeq)])
  }

  /** Such a push keeps a level well-formed exactly when the counter has room for it, which is
      when the checked push does not overflow. */
  lemma WrappingKeepsLevelIff(l: Level, t: Order)
    requires LevelOk(l) && t.price == l.price
    ensures LevelOk(EnqueueWrapping(l, t)) <==> l.memoSeq < U32_MAX
    ensures l.memoSeq < U32_MAX ==> EnqueueWrapping(l, t) == Enqueue(l, t)
  {
    var after := EnqueueWrapping(l, t);
    if l.memoSeq < U32_MAX {
      EnqueueOk(l, t);
      assert after == Enqueue(l, t);
    } else {
      assert after.memoSeq == 0 && after.orders[0] == l.orders[0];
    }
  }

  lemma DequeueOk(l: Level, j: nat)
    requires LevelOk(l) && j < |l.orders|
    ensures RemoveAt(l.orders, j) == [] || LevelOk(l.(orders := RemoveAt(l.orders, j)))
  {
    var fewer := RemoveAt(l.orders, j);
    assert forall k :: 0 <= k < |fewer| ==> fewer[k] == l.orders[if k < j then k else k + 1];
  }

  /** The list position of the order that `(price, memo)` addresses. */
  ghost function PlaceInWalk(side: OrderSide, levels: Levels, price: NonZeroU32, memo: u32): nat
    requires Lookup(levels, price, memo).Some?
  {
    var i := Rank(levels, price);
    |Ahead(side, levels, i, i + 1)| + Position(levels[i].orders, memo).value
  }

  lemma PlaceInWalkHolds(side: OrderSide, levels: Levels, price: NonZeroU32, memo: u32)
    requires Lookup(levels, price, memo).Some?
    ensures PlaceInWalk(side, levels, price, memo) < |Walk(side, levels)|
    ensures Walk(side, levels)[PlaceInWalk(side, levels, price, memo)] == Lookup(levels, price, memo).value
  {
    WalkAround(side, levels, Rank(levels, price));
  }

  /** `Remove` returns what `Lookup` finds, deletes that one entry of the list and no other,
      keeps the rest in order, and keeps the representation invariant. */
  lemma RemoveAgreesWithWalk(side: OrderSide, levels: Levels, price: NonZeroU32, memo: u32)
    requires LevelsOk(levels)
    ensures Remove(levels, price, memo).1 == Lookup(levels, price, memo)
    ensures LevelsOk(Remove(levels, price, memo).0)
    ensures Lookup(levels, price, memo).None? ==> Remove(levels, price, memo).0 == levels
    ensures Lookup(levels, price, memo).Some? ==>
              var k := PlaceInWalk(side, levels, price, memo);
              && k < |Walk(side, levels)|
              && Walk(side, Remove(levels, price, memo).0) == RemoveAt(Walk(side, levels), k)
  {
    match Lookup(levels, price, memo)
    case None => RemoveMissing(levels, price, memo);
    case Some(_) =>
      RemoveFound(levels, price, memo);
      RemoveDeletesFromWalk(side, levels, price, memo);
  }

  lemma RemoveMissing(levels: Levels, price: NonZeroU32, memo: u32)
    requires LevelsOk(levels)
    requires Lookup(levels, price, memo).None?
    ensures Remove(levels, price, memo) == (levels, None)
  {
    if HasLevel(levels, price) {
      var i := Rank(levels, price);
      assert LevelOk(levels[i]);
      assert levels[i := levels[i].(orders := levels[i].orders)] == levels;
    }
  }

  lemma RemoveFound(levels: Levels, price: NonZeroU32, memo: u32)
    requires LevelsOk(levels)
    requires Lookup(levels, price, memo).Some?
    ensures Remove(levels, price, memo).1 == Lookup(levels, price, memo)
    ensures LevelsOk(Remove(levels, price, memo).0)
  {
    var i := Rank(levels, price);
    RemoveKeepsLevelsOk(levels, i, Position(levels[i].orders, memo).value);
  }

  lemma RemoveDeletesFromWalk(side: OrderSide, levels: Levels, price: NonZeroU32, memo: u32)
    requires Lookup(levels, price, memo).Some?
    ensures PlaceInWalk(side, levels, price, memo) < |Walk(side, levels)|
    ensures Walk(side, Remove(levels, price, memo).0)
         == RemoveAt(Walk(side, levels), PlaceInWalk(side, levels, price, memo))
  {
    var i := Rank(levels, price);
    var j := Position(levels[i].orders, memo).value;
    assert Remove(levels, price, memo).0 == SetOrders(levels, i, RemoveAt(levels[i].orders, j));
    RemoveSplicesWalk(side, levels, i, j);
  }

  lemma RemoveKeepsLevelsOk(levels: Levels, i: nat, j: nat)
    requires LevelsOk(levels) && i < |levels| && j < |levels[i].orders|
    ensures LevelsOk(SetOrders(levels, i, RemoveAt(levels[i].orders, j)))
  {
    DequeueOk(levels[i], j);
    SetOrdersOk(levels, i, RemoveAt(levels[i].orders, j));
  }

  lemma RemoveSplicesWalk(side: OrderSide, levels: Levels, i: nat, j: nat)
    requires i < |levels| && j < |levels[i].orders|
    ensures |Ahead(side, levels, i, i + 1)| + j < |Walk(side, levels)|
    ensures Walk(side, SetOrders(levels, i, RemoveAt(levels[i].orders, j)))
         == RemoveAt(Walk(side, levels), |Ahead(side, levels, i, i + 1)| + j)
  {
    var orders := levels[i].orders;
    var ahead, behind := Ahead(side, levels, i, i + 1), Behind(side, levels, i, i + 1);
    WalkAround(side, levels, i);
    WalkSetOrders(side, levels, i, RemoveAt(orders, j));
    RemoveBetween(ahead, orders, behind, j);
  }

  lemma RemoveBetween<T>(ahead: seq<T>, queue: seq<T>, behind: seq<T>, j: nat)
    requires j < |queue|
    ensures RemoveAt(ahead + queue + behind, |ahead| + j) == ahead + RemoveAt(queue, j) + behind
  {
  }

  /** Where a push lands in the list: behind every order at its price or better, ahead of the rest. */
  ghost predicate LandsAt(side: OrderSide, orders: seq<Order>, k: nat, price: NonZeroU32) {
    && k <= |orders|
    && (forall i :: 0 <= i < k ==> !Better(side, price, orders[i].price))
    && (forall i :: k <= i < |orders| ==> Better(side, price, orders[i].price))
  }

  /** A push adds one entry, last among the orders at its price, under an index nobody had. */
  lemma PushAgreesWithWalk(side: OrderSide, levels: Levels, t: Order) returns (k: nat)
    requires LevelsOk(levels)
    requires Push(levels, t).Some?
    ensures LevelsOk(Push(levels, t).value)
    ensures LandsAt(side, Walk(side, levels), k, t.price)
    ensures Walk(side, Push(levels, t).value)
         == InsertAt(Walk(side, levels), k, t.(memo := NextMemo(levels, t.price)))
    ensures Lookup(levels, t.price, NextMemo(levels, t.price)) == None
    ensures Lookup(Push(levels, t).value, t.price, NextMemo(levels, t.price))
         == Some(t.(memo := NextMemo(levels, t.price)))
  {
    PushKeepsLevelsOk(levels, t);
    k := PushSplicesWalk(side, levels, t);
    PushIsFound(levels, t);
  }

  lemma PushSplicesWalk(side: OrderSide, levels: Levels, t: Order) returns (k: nat)
    requires LevelsOk(levels)
    requires Push(levels, t).Some?
    ensures LandsAt(side, Walk(side, levels), k, t.price)
    ensures Walk(side, Push(levels, t).value)
         == InsertAt(Walk(side, levels), k, t.(memo := NextMemo(levels, t.price)))
  {
    var i := Rank(levels, t.price);
    var o := t.(memo := NextMemo(levels, t.price));
    if HasLevel(levels, t.price) {
      WalkOne(side, levels, i);
      assert LevelOk(levels[i]);
      k := QueueReplaced(side, levels, i, i + 1, levels[i].orders, Enqueue(levels[i], t), o);
      assert Push(levels, t).value == levels[..i] + [Enqueue(levels[i], t)] + levels[i + 1..];
    } else {
      k := QueueReplaced(side, levels, i, i, [], Enqueue(Level(t.price, 0, []), t), o);
    }
  }

  /** Replacing the levels from `lo` to `hi`, whose orders are `queue`, by the one level `l`,
      which has one order more, inserts that order into the list. */
  lemma QueueReplaced(
      side: OrderSide, levels: Levels, lo: nat, hi: nat, queue: seq<Order>, l: Level, o: Order) returns (k: nat)
    requires LevelsOk(levels) && lo <= hi <= |levels|
    requires WalkRange(side, levels, lo, hi) == queue && l.orders == queue + [o]
    requires forall j :: 0 <= j < |queue| ==> queue[j].price == o.price
    requires forall j :: 0 <= j < lo ==> levels[j].price < o.price
    requires forall j :: hi <= j < |levels| ==> o.price < levels[j].price
    ensures LandsAt(side, Walk(side, levels), k, o.price)
    ensures Walk(side, levels[..lo] + [l] + levels[hi..]) == InsertAt(Walk(side, levels), k, o)
  {
    var ahead, behind := Ahead(side, levels, lo, hi), Behind(side, levels, lo, hi);
    k := |ahead| + |queue|;
    WalkSection(side, levels, lo, hi);
    WalkReplaced(side, levels, lo, hi, l);
    InsertBetween(ahead, queue, behind, o);
    PricesAround(side, levels, lo, hi, o.price);
    LandsBetween(side, ahead, queue, behind, o.price);
  }

  lemma InsertBetween<T>(ahead: seq<T>, queue: seq<T>, behind: seq<T>, x: T)
    ensures InsertAt(ahead + queue + behind, |ahead| + |queue|, x) == ahead + (queue + [x]) + behind
  {
  }

  lemma LandsBetween(
      side: OrderSide, ahead: seq<Order>, queue: seq<Order>, behind: seq<Order>, price: NonZeroU32)
    requires forall j :: 0 <= j < |ahead| ==> Better(side, ahead[j].price, price)
    requires forall j :: 0 <= j < |queue| ==> queue[j].price == price
    requires forall j :: 0 <= j < |behind| ==> Better(side, price, behind[j].price)
    ensures LandsAt(side, ahead + queue + behind, |ahead| + |queue|, price)
  {
    var all := ahead + queue + behind;
    forall j | 0 <= j < |ahead| + |queue| ensures !Better(side, price, all[j].price) {
      assert all[j] == if j < |ahead| then ahead[j] else queue[j - |ahead|];
    }
    forall j | |ahead| + |queue| <= j < |all| ensures Better(side, price, all[j].price) {
      assert all[j] == behind[j - |ahead| - |queue|];
    }
  }

  lemma PushIsFound(levels: Levels, t: Order)
    requires LevelsOk(levels)
    requires Push(levels, t).Some?
    ensures Lookup(levels, t.price, NextMemo(levels, t.price)) == None
    ensures Lookup(Push(levels, t).value, t.price, NextMemo(levels, t.price))
         == Some(t.(memo := NextMemo(levels, t.price)))
  {
    var i := Rank(levels, t.price);
    var after := Push(levels, t).value;
    PushKeepsLevelsOk(levels, t);
    RankAt(after, i);
    PositionAt(after[i], |after[i].orders| - 1);
    if HasLevel(levels, t.price) {
      assert LevelOk(levels[i]);
    }
  }

  lemma PushKeepsLevelsOk(levels: Levels, t: Order)
    requires LevelsOk(levels)
    requires Push(levels, t).Some?
    ensures LevelsOk(Push(levels, t).value)
  {
    var i := Rank(levels, t.price);
    if HasLevel(levels, t.price) {
      EnqueueOk(levels[i], t);
      ReplaceOk(levels, i, Enqueue(levels[i], t));
    } else {
      EnqueueOk(Level(t.price, 0, []), t);
      assert forall k :: i <= k < |levels| ==> levels[i].price <= levels[k].price;
      InsertOk(levels, i, Enqueue(Level(t.price, 0, []), t));
    }
  }

  lemma PricesAround(side: OrderSide, levels: Levels, lo: nat, hi: nat, price: NonZeroU32)
    requires LevelsOk(levels) && lo <= hi <= |levels|
    requires forall k :: 0 <= k < lo ==> levels[k].price < price
    requires forall k :: hi <= k < |levels| ==> price < levels[k].price
    ensures forall k :: 0 <= k < |Ahead(side, levels, lo, hi)| ==>
              Better(side, Ahead(side, levels, lo, hi)[k].price, price)
    ensures forall k :: 0 <= k < |Behind(side, levels, lo, hi)| ==>
              Better(side, price, Behind(side, levels, lo, hi)[k].price)
  {
    var n := |levels|;
    RangePrices(side, levels, 0, lo, price);
    RangePrices(side, levels, hi, n, price);
  }

  lemma RangePrices(side: OrderSide, levels: Levels, lo: nat, hi: nat, price: NonZeroU32)
    requires LevelsOk(levels) && lo <= hi <= |levels|
    ensures (forall k :: lo <= k < hi ==> levels[k].price < price) ==>
              forall o :: o in WalkRange(side, levels, lo, hi) ==> o.price < price
    ensures (forall k :: lo <= k < hi ==> price < levels[k].price) ==>
              forall o :: o in WalkRange(side, levels, lo, hi) ==> price < o.price
  {
    forall o | o in WalkRange(side, levels, lo, hi)
      ensures exists i :: lo <= i < hi && levels[i].price == o.price
    {
      RangeMember(side, levels, lo, hi, o);
      var i :| lo <= i < hi && o in levels[i].orders;
      assert LevelOk(levels[i]);
    }
  }

  /** The side with the memo counter at `price` one further on. */
  function Advanced(levels: Levels, price: NonZeroU32): Levels
    requires HasLevel(levels, price) && NextMemo(levels, price) < U32_MAX
  {
    var i := Rank(levels, price);
    levels[i := levels[i].(memoSeq := levels[i].memoSeq + 1)]
  }

  /** Undoing a push to a level that was there leaves only its counter advanced. */
  lemma RemoveUndoesEnqueue(levels: Levels, t: Order)
    requires LevelsOk(levels) && Push(levels, t).Some?
    requires HasLevel(levels, t.price)
    ensures Remove(Push(levels, t).value, t.price, NextMemo(levels, t.price)).0 == Advanced(levels, t.price)
    ensures Remove(Push(levels, t).value, t.price, NextMemo(levels, t.price)).1
         == Some(t.(memo := NextMemo(levels, t.price)))
  {
    var i := Rank(levels, t.price);
    assert LevelOk(levels[i]);
    PushKeepsLevelsOk(levels, t);
    SlotAddressed(Push(levels, t).value, i, |levels[i].orders|);
    assert RemoveAt(Enqueue(levels[i], t).orders, |levels[i].orders|) == levels[i].orders;
    assert SetOrders(Push(levels, t).value, i, levels[i].orders) == Advanced(levels, t.price);
  }

  /** Undoing a push that made a level removes the level. */
  lemma RemoveUndoesNewLevel(levels: Levels, t: Order)
    requires LevelsOk(levels) && Push(levels, t).Some?
    requires !HasLevel(levels, t.price)
    ensures Remove(Push(levels, t).value, t.price, 0).0 == levels
    ensures Remove(Push(levels, t).value, t.price, 0).1 == Some(t.(memo := 0))
  {
    var i := Rank(levels, t.price);
    var l := Enqueue(Level(t.price, 0, []), t);
    PushKeepsLevelsOk(levels, t);
    SlotAddressed(InsertAt(levels, i, l), i, 0);
    assert RemoveAt(l.orders, 0) == [];
    RemoveInserted(levels, i, l);
  }

  lemma RemoveInserted<T>(s: seq<T>, i: nat, x: T)
    requires i <= |s|
    ensures RemoveAt(InsertAt(s, i, x), i) == s
  {
  }

  lemma CounterLeavesWalk(side: OrderSide, levels: Levels, i: nat, memoSeq: u32)
    requires i < |levels|
    ensures Walk(side, levels[i := levels[i].(memoSeq := memoSeq)]) == Walk(side, levels)
  {
    WalkShift(side, levels, 0, |levels|, levels[i := levels[i].(memoSeq := memoSeq)], 0);
  }

  lemma RemoveUndoesEnqueueInWalk(side: OrderSide, levels: Levels, t: Order)
    requires LevelsOk(levels) && Push(levels, t).Some?
    requires HasLevel(levels, t.price)
    ensures Walk(side, Remove(Push(levels, t).value, t.price, NextMemo(levels, t.price)).0) == Walk(side, levels)
  {
    var i := Rank(levels, t.price);
    RemoveUndoesEnqueue(levels, t);
    CounterLeavesWalk(side, levels, i, levels[i].memoSeq + 1);
  }

  /** Removing the index a push has just handed out returns the pushed order and restores the list. */
  lemma RemoveUndoesPush(side: OrderSide, levels: Levels, t: Order)
    requires LevelsOk(levels)
    requires Push(levels, t).Some?
    ensures Remove(Push(levels, t).value, t.price, NextMemo(levels, t.price)).1
         == Some(t.(memo := NextMemo(levels, t.price)))
    ensures Walk(side, Remove(Push(levels, t).value, t.price, NextMemo(levels, t.price)).0) == Walk(side, levels)
  {
    if HasLevel(levels, t.price) {
      RemoveUndoesEnqueue(levels, t);
      RemoveUndoesEnqueueInWalk(side, levels, t);
    } else {
      RemoveUndoesNewLevel(levels, t);
    }
  }
}
