/** The order book as the engine keeps it: sides that hold price levels, levels that hold
    orders, all changed in place. `View` gives the value of module `BookModel` that an object
    stands for, and each method says what it does to that value. */
module BookObjects {
  import opened Types
  import opened BookModel
  import opened FillCommit

  /** An order of the book with its index. */
  datatype Entry = Entry(oix: OrderIndex, order: Order)

  class PriceLevel {
    var price: u32
    var memoSeq: u32
    var inner: seq<Order>

    constructor (price: u32)
      ensures View() == Level(price, 0, [])
    {
      this.price, memoSeq, inner := price, 0, [];
    }

    function View(): Level
      reads this
    {
      Level(price, memoSeq, inner)
    }

    /** The orders of the level in the order of their arrival, each with its index. */
    function Entries(side: OrderSide): (entries: seq<Entry>)
      reads this
      ensures |entries| == |inner|
      ensures forall i :: 0 <= i < |entries| ==>
                entries[i].order == inner[i] && entries[i].oix == IndexOf(side, inner[i])
    {
      seq(|inner|, i requires 0 <= i < |inner| reads this => Entry(IndexOf(side, inner[i]), inner[i]))
    }

    /** Queues an order under the next memo; `None` stands for a panic, on a level without a price
        or on an overflow of the memo counter, before anything is queued. */
    method PushOrder(t: Order) returns (r: Option<(NonZeroU32, u32)>)
      modifies this
      ensures r.None? <==> old(price) == 0 || old(memoSeq) == U32_MAX
      ensures r.None? ==> View() == old(View())
      ensures r.Some? ==> r.value == (old(price), old(memoSeq)) && View() == Enqueue(old(View()), t)
    {
      if price == 0 {
        return None;
      }
      var memo := memoSeq;
      if memoSeq == U32_MAX {
        return None;
      }
      memoSeq := memoSeq + 1;
      inner := inner + [t.(memo := memo)];
      r := Some((price, memo));
    }

    /** The slot of the first order with the given memo. */
    method FindMemo(memo: u32) returns (p: Option<nat>)
      ensures p == Position(inner, memo)
    {
      var i := 0;
      while i < |inner|
        invariant 0 <= i <= |inner|
        invariant forall k :: 0 <= k < i ==> inner[k].memo != memo
      {
        if inner[i].memo == memo {
          FirstPosition(inner, memo, i);
          return Some(i);
        }
        i := i + 1;
      }
      p := None;
    }

    method RemoveOrder(memo: u32) returns (r: Option<Order>)
      modifies this
      ensures match Position(old(inner), memo)
              case None => r == None && View() == old(View())
              case Some(j) => r == Some(old(inner)[j]) && View() == old(View()).(orders := RemoveAt(old(inner), j))
    {
      var p := FindMemo(memo);
      if p.None? {
        return None;
      }
      r := Some(inner[p.value]);
      inner := RemoveAt(inner, p.value);
    }
  }

  lemma RankBetween(levels: Levels, price: int, i: nat)
    requires i <= |levels|
    requires forall k :: 0 <= k < i ==> levels[k].price < price
    requires forall k :: i <= k < |levels| ==> price < levels[k].price
    ensures Rank(levels, price) == i && !HasLevel(levels, price)
  {
    if i > 0 {
      RankBetween(levels[1..], price, i - 1);
    } else {
      assert levels != [] ==> price < levels[0].price;
    }
  }

  lemma FirstPosition(orders: seq<Order>, memo: u32, i: nat)
    requires i < |orders| && orders[i].memo == memo
    requires forall k :: 0 <= k < i ==> orders[k].memo != memo
    ensures Position(orders, memo) == Some(i)
  {
    var p := Position(orders, memo);
    assert p.Some?;
  }

  /** A mutable reference to an order in a level. */
  datatype OrderRef = OrderRef(level: PriceLevel, slot: nat)

  class MultiplePriceLevels {
    var inner: seq<PriceLevel>

    constructor ()
      ensures Valid() && View() == [] && inner == []
    {
      inner := [];
    }

    function View(): Levels
      reads this, inner
    {
      seq(|inner|, i requires 0 <= i < |inner| reads this, inner => inner[i].View())
    }

    ghost predicate Valid()
      reads this, inner
    {
      Distinct() && LevelsOk(View())
    }

    ghost predicate Distinct()
      reads this
    {
      forall i, j :: 0 <= i < j < |inner| ==> inner[i] != inner[j]
    }

    /** The levels in ascending order. */
    function IterInner(): seq<PriceLevel>
      reads this
    {
      inner
    }

    /** The levels in descending order. */
    function IterInnerRev(): seq<PriceLevel>
      reads this
    {
      Reverse(inner)
    }

    /** Binary search by price: the index of the level with that price, or where it would go. */
    method Search(price: NonZeroU32) returns (found: bool, index: nat)
      requires Valid()
      ensures index == Rank(View(), price)
      ensures found == HasLevel(View(), price)
    {
      var lo, hi := 0, |inner|;
      while lo < hi
        invariant 0 <= lo <= hi <= |inner|
        invariant forall k :: 0 <= k < lo ==> View()[k].price < price
        invariant forall k :: hi <= k < |inner| ==> price < View()[k].price
      {
        var mid := lo + (hi - lo) / 2;
        assert View()[mid].price == inner[mid].price;
        if inner[mid].price == price {
          RankAt(View(), mid);
          return true, mid;
        } else if inner[mid].price < price {
          lo := mid + 1;
        } else {
          hi := mid;
        }
      }
      RankBetween(View(), price, lo);
      return false, lo;
    }

    /** Inserts a level into the vector. */
    method InsertLevel(index: nat, level: PriceLevel)
      requires Distinct() && index <= |inner| && level !in inner
      modifies this
      ensures Distinct()
      ensures forall l :: l in inner ==> l in old(inner) || l == level
      ensures View() == InsertAt(old(View()), index, level.View())
    {
      inner := InsertAt(inner, index, level);
      assert forall k :: 0 <= k < |inner| && k != index ==> inner[k] == old(inner)[if k < index then k else k - 1];
    }

    /** Takes a level out of the vector. */
    method DropLevel(index: nat)
      requires Distinct() && index < |inner|
      modifies this
      ensures Distinct()
      ensures forall l :: l in inner ==> l in old(inner)
      ensures View() == RemoveAt(old(View()), index)
    {
      inner := RemoveAt(inner, index);
      assert forall k :: 0 <= k < |inner| ==> inner[k] == old(inner)[if k < index then k else k + 1];
    }

    method PushOrderToLevel(t: Order) returns (r: Option<(NonZeroU32, u32)>)
      requires Valid()
      modifies this, inner
      ensures Valid()
      ensures forall l :: l in inner ==> l in old(inner) || fresh(l)
      ensures r.None? <==> Push(old(View()), t).None?
      ensures r.None? ==> View() == old(View())
      ensures r.Some? ==> View() == Push(old(View()), t).value && r.value == (t.price, NextMemo(old(View()), t.price))
    {
      ghost var before := View();
      if Push(before, t).Some? {
        PushKeepsLevelsOk(before, t);
      }
      var found, index := Search(t.price);
      if found {
        r := PushToLevelAt(index, t);
      } else {
        r := PushNewLevel(index, t);
      }
    }

    method PushNewLevel(index: nat, t: Order) returns (r: Option<(NonZeroU32, u32)>)
      requires Distinct() && index <= |inner|
      modifies this
      ensures Distinct()
      ensures forall l :: l in inner ==> l in old(inner) || fresh(l)
      ensures View() == InsertAt(old(View()), index, Enqueue(Level(t.price, 0, []), t))
      ensures r == Some((t.price, 0))
    {
      var level := new PriceLevel(t.price);
      r := level.PushOrder(t);
      InsertLevel(index, level);
    }

    method PushToLevelAt(index: nat, t: Order) returns (r: Option<(NonZeroU32, u32)>)
      requires Valid() && index < |inner| && inner[index].price == t.price
      modifies inner[index]
      ensures r.None? <==> old(View())[index].memoSeq == U32_MAX
      ensures r.None? ==> View() == old(View())
      ensures r.Some? ==> View() == old(View())[index := Enqueue(old(View())[index], t)]
      ensures r.Some? ==> r.value == (t.price, old(View())[index].memoSeq)
    {
      ghost var before := View();
      r := inner[index].PushOrder(t);
      assert r.Some? ==> View() == before[index := Enqueue(before[index], t)];
      assert r.None? ==> View() == before;
    }

    method RemoveOrderFromLevel(price: NonZeroU32, memo: u32) returns (r: Option<Order>)
      requires Valid()
      modifies this, inner
      ensures Valid()
      ensures forall l :: l in inner ==> l in old(inner)
      ensures View() == Remove(old(View()), price, memo).0
      ensures r == Remove(old(View()), price, memo).1
    {
      RemoveAgreesWithWalk(Sell, View(), price, memo);
      var found, index := Search(price);
      if !found {
        return None;
      }
      r := RemoveFromLevelAt(index, memo);
    }

    /** Removes an order from a level, and the level with it if that leaves it empty. */
    method RemoveFromLevelAt(index: nat, memo: u32) returns (r: Option<Order>)
      requires Distinct() && index < |inner|
      modifies this, inner[index]
      ensures Distinct()
      ensures forall l :: l in inner ==> l in old(inner)
      ensures match Position(old(View())[index].orders, memo)
              case None => r == None && View() == SetOrders(old(View()), index, old(View())[index].orders)
              case Some(j) =>
                && r == Some(old(View())[index].orders[j])
                && View() == SetOrders(old(View()), index, RemoveAt(old(View())[index].orders, j))
    {
      ghost var before := View();
      var level := inner[index];
      r := level.RemoveOrder(memo);
      assert View() == before[index := level.View()];
      if level.inner == [] {
        DropLevel(index);
        assert View() == RemoveAt(before, index);
      }
    }

    method GetMut(price: NonZeroU32, memo: u32) returns (r: Option<OrderRef>)
      requires Valid()
      ensures r.None? <==> Lookup(View(), price, memo).None?
      ensures r.Some? ==> Refers(r.value, price, memo)
    {
      var found, index := Search(price);
      if !found {
        return None;
      }
      var p := inner[index].FindMemo(memo);
      if p.None? {
        return None;
      }
      r := Some(OrderRef(inner[index], p.value));
    }

    /** `ref` is the order that `(price, memo)` addresses. */
    ghost predicate Refers(ref: OrderRef, price: NonZeroU32, memo: u32)
      reads this, inner, ref.level
    {
      var i := Rank(View(), price);
      && HasLevel(View(), price)
      && inner[i] == ref.level
      && Position(ref.level.inner, memo) == Some(ref.slot)
    }

    /** Writes a quantity through a reference. */
    method Assign(ref: OrderRef, quantity: NonZeroU32, ghost price: NonZeroU32, ghost memo: u32)
      requires Valid() && Refers(ref, price, memo)
      modifies ref.level
      ensures Valid()
      ensures View() == SetQuantity(old(View()), price, memo, quantity)
    {
      ghost var before := View();
      ghost var i := Rank(before, price);
      var level := ref.level;
      level.inner := level.inner[ref.slot := level.inner[ref.slot].(quantity := quantity)];
      assert View() == before[i := level.View()];
      assert LevelOk(before[i]);
      ReplaceOk(before, i, level.View());
    }
  }

  /** A side none of whose objects changed stands for the value it stood for. */
  twostate lemma SideUntouched(levels: MultiplePriceLevels)
    requires old(levels.Valid())
    requires levels.inner == old(levels.inner)
    requires forall l :: l in levels.inner ==> l.View() == old(l.View())
    ensures levels.Valid() && levels.View() == old(levels.View())
  {
    assert levels.View() == old(levels.View());
  }

  function Reverse<T>(s: seq<T>): (r: seq<T>)
    ensures |r| == |s|
    ensures forall i :: 0 <= i < |s| ==> r[i] == s[|s| - 1 - i]
  {
    seq(|s|, i requires 0 <= i < |s| => s[|s| - 1 - i])
  }

  /** The orders of one level after the other, each with its index. */
  function WrapIter(side: OrderSide, levels: seq<PriceLevel>): (entries: seq<Entry>)
    reads levels
    ensures forall i :: 0 <= i < |entries| ==> entries[i].oix == IndexOf(side, entries[i].order)
  {
    if levels == [] then []
    else levels[0].Entries(side) + WrapIter(side, levels[1..])
  }

  function Orders(entries: seq<Entry>): (orders: seq<Order>)
    ensures |orders| == |entries|
    ensures forall i :: 0 <= i < |entries| ==> orders[i] == entries[i].order
  {
    seq(|entries|, i requires 0 <= i < |entries| => entries[i].order)
  }

  lemma OrdersConcat(a: seq<Entry>, b: seq<Entry>)
    ensures Orders(a + b) == Orders(a) + Orders(b)
  {
  }

  lemma {:induction false} AscendingFrom(side: MultiplePriceLevels, k: nat)
    requires k <= |side.inner|
    ensures Orders(WrapIter(Sell, side.inner[k..])) == WalkRange(Sell, side.View(), k, |side.inner|)
    decreases |side.inner| - k
  {
    if k < |side.inner| {
      var rest := side.inner[k..];
      assert rest[1..] == side.inner[k + 1..];
      AscendingFrom(side, k + 1);
      OrdersConcat(rest[0].Entries(Sell), WrapIter(Sell, rest[1..]));
    }
  }

  /** Going up the levels lists the asks best first. */
  lemma AscendingWalks(asks: MultiplePriceLevels)
    ensures Orders(WrapIter(Sell, asks.IterInner())) == Walk(Sell, asks.View())
  {
    AscendingFrom(asks, 0);
    assert asks.inner[0..] == asks.inner;
  }

  lemma ReverseOfPrefix<T>(s: seq<T>, k: nat)
    requires k < |s|
    ensures Reverse(s[..k + 1]) == [s[k]] + Reverse(s[..k])
  {
  }

  lemma {:induction false} ReversedUpTo(side: MultiplePriceLevels, k: nat)
    requires k <= |side.inner|
    ensures Orders(WrapIter(Buy, Reverse(side.inner[..k]))) == WalkRange(Buy, side.View(), 0, k)
  {
    if k > 0 {
      var below := Reverse(side.inner[..k - 1]);
      ReverseOfPrefix(side.inner, k - 1);
      var levels := [side.inner[k - 1]] + below;
      assert levels[1..] == below;
      ReversedUpTo(side, k - 1);
      OrdersConcat(levels[0].Entries(Buy), WrapIter(Buy, below));
    }
  }

  /** Going down the levels lists the bids best first. */
  lemma ReversedWalks(bids: MultiplePriceLevels)
    ensures Orders(WrapIter(Buy, bids.IterInnerRev())) == Walk(Buy, bids.View())
  {
    ReversedUpTo(bids, |bids.inner|);
    assert bids.inner[..|bids.inner|] == bids.inner;
  }

  class Orderbook {
    const bids: MultiplePriceLevels
    const asks: MultiplePriceLevels

    constructor ()
      ensures Valid() && View() == EMPTY_BOOK && fresh(Repr())
      ensures bids.inner == [] && asks.inner == []
    {
      bids := new MultiplePriceLevels();
      asks := new MultiplePriceLevels();
    }

    function Levels(side: OrderSide): MultiplePriceLevels {
      if side.Buy? then bids else asks
    }

    ghost function Repr(): set<object>
      reads bids, asks
    {
      {this, bids, asks} + (set l | l in bids.inner) + (set l | l in asks.inner)
    }

    function View(): Book
      reads bids, bids.inner, asks, asks.inner
    {
      Book(bids.View(), asks.View())
    }

    ghost predicate Valid()
      reads bids, bids.inner, asks, asks.inner
      ensures Valid() ==> BookOk(View())
    {
      && bids != asks
      && bids.Valid() && asks.Valid()
      && (forall l :: l in bids.inner ==> l !in asks.inner)
    }

    /** Queues an order on one side; `None` stands for an overflow of the level's memo counter. */
    method PushOn(side: OrderSide, t: Order) returns (r: Option<OrderIndex>)
      requires Valid()
      modifies Repr()
      ensures Valid() && fresh(Repr() - old(Repr()))
      ensures r.None? <==> Push(old(View()).On(side), t).None?
      ensures r.None? ==> View() == old(View())
      ensures r.Some? ==> View() == old(View()).With(side, Push(old(View()).On(side), t).value)
      ensures r.Some? ==> r.value == OrderIndex(side, t.price, NextMemo(old(View()).On(side), t.price))
    {
      var pushed := Levels(side).PushOrderToLevel(t);
      SideUntouched(Levels(side.Opposite()));
      r := match pushed case None => None case Some((price, memo)) => Some(OrderIndex(side, price, memo));
    }

    method PushBid(t: Order) returns (r: Option<OrderIndex>)
      requires Valid()
      modifies Repr()
      ensures Valid() && fresh(Repr() - old(Repr()))
      ensures r.None? <==> Push(old(View()).On(Buy), t).None?
      ensures r.None? ==> View() == old(View())
      ensures r.Some? ==> View() == old(View()).With(Buy, Push(old(View()).On(Buy), t).value)
      ensures r.Some? ==> r.value == OrderIndex(Buy, t.price, NextMemo(old(View()).On(Buy), t.price))
    {
      r := PushOn(Buy, t);
    }

    method PushAsk(t: Order) returns (r: Option<OrderIndex>)
      requires Valid()
      modifies Repr()
      ensures Valid() && fresh(Repr() - old(Repr()))
      ensures r.None? <==> Push(old(View()).On(Sell), t).None?
      ensures r.None? ==> View() == old(View())
      ensures r.Some? ==> View() == old(View()).With(Sell, Push(old(View()).On(Sell), t).value)
      ensures r.Some? ==> r.value == OrderIndex(Sell, t.price, NextMemo(old(View()).On(Sell), t.price))
    {
      r := PushOn(Sell, t);
    }

    method Remove(oix: OrderIndex) returns (r: Option<Order>)
      requires Valid()
      modifies Repr()
      ensures Valid() && Repr() <= old(Repr())
      ensures View() == RemoveFrom(old(View()), oix).0
      ensures r == RemoveFrom(old(View()), oix).1
    {
      r := Levels(oix.side).RemoveOrderFromLevel(oix.price, oix.memo);
      SideUntouched(Levels(oix.side.Opposite()));
    }

    /** The orders of a side in priority order, each with its index: the bids from the last level
        down, the asks from the first level up. */
    function IterRel(side: OrderSide): (entries: seq<Entry>)
      reads bids, bids.inner, asks, asks.inner
      ensures |entries| == |Walk(side, View().On(side))|
      ensures forall i :: 0 <= i < |entries| ==>
                && entries[i].order == Walk(side, View().On(side))[i]
                && entries[i].oix == IndexOf(side, entries[i].order)
    {
      match side
      case Buy =>
        ReversedWalks(bids);
        WrapIter(Buy, bids.IterInnerRev())
      case Sell =>
        AscendingWalks(asks);
        WrapIter(Sell, asks.IterInner())
    }

    method GetMut(oix: OrderIndex) returns (r: Option<OrderRef>)
      requires Valid()
      ensures Valid() && View() == old(View())
      ensures r.None? <==> LookupIn(View(), oix).None?
      ensures r.Some? ==> Levels(oix.side).Refers(r.value, oix.price, oix.memo)
    {
      r := Levels(oix.side).GetMut(oix.price, oix.memo);
    }

    /** Reads through a reference that `GetMut` gave out. */
    method Deref(ref: OrderRef, oix: OrderIndex) returns (order: Order)
      requires Valid() && Levels(oix.side).Refers(ref, oix.price, oix.memo)
      ensures Valid() && View() == old(View()) && Levels(oix.side).Refers(ref, oix.price, oix.memo)
      ensures LookupIn(View(), oix) == Some(order)
    {
      order := ref.level.inner[ref.slot];
    }

    /** Writes a quantity through a reference that `GetMut` gave out. */
    method Assign(ref: OrderRef, quantity: NonZeroU32, oix: OrderIndex)
      requires Valid() && Levels(oix.side).Refers(ref, oix.price, oix.memo)
      modifies Repr()
      ensures Valid() && Repr() == old(Repr())
      ensures View() == SetQuantityIn(old(View()), oix, quantity)
    {
      Levels(oix.side).Assign(ref, quantity, oix.price, oix.memo);
      SideUntouched(Levels(oix.side.Opposite()));
    }
  }
  /** A book none of whose objects changed stands for the value it stood for. */
  twostate lemma BookUntouched(book: Orderbook)
    requires old(book.Valid())
    requires book.bids.inner == old(book.bids.inner) && book.asks.inner == old(book.asks.inner)
    requires forall l :: l in book.bids.inner || l in book.asks.inner ==> l.View() == old(l.View())
    ensures book.Valid() && book.View() == old(book.View()) && book.Repr() == old(book.Repr())
  {
    SideUntouched(book.bids);
    SideUntouched(book.asks);
  }
}
