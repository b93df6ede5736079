/** What placing one order keeps, changes and conserves. */
module PlacementLaws {
  import opened Types
  import opened BookModel
  import opened FillPlan
  import opened FillCommit
  import opened Placement

  // ---------------------------------------------------------------------------
  // Outcome, atomicity, panics
  // ---------------------------------------------------------------------------

  /** How much of the order trades at once, and how much is left. */
  function FilledNow(book: Book, o: PlaceOrder): u32 {
    Min(o.quantity, Liquidity(book, o))
  }

  function LeftNow(book: Book, o: PlaceOrder): u32 {
    o.quantity - FilledNow(book, o)
  }

  /** Placing is settling, for the quantities that the book determines. */
  lemma PlaceIsSettle(book: Book, o: PlaceOrder) returns (filled: u32, left: u32)
    requires BookOk(book) && !Refused(o, Liquidity(book, o))
    ensures filled == FilledNow(book, o) && left == LeftNow(book, o)
    ensures filled + left == o.quantity
    ensures Place(book, o).0 == Settle(book, o, filled, left).0
    ensures Place(book, o).1 == Settle(book, o, filled, left).1
  {
    filled, left := FilledNow(book, o), LeftNow(book, o);
    PlaceSettles(book, o, filled, left);
  }

  /** Placing an order panics exactly when its remainder would rest at a level that has given
      out every memo. */
  predicate MemosExhausted(book: Book, o: PlaceOrder) {
    && !Refused(o, Liquidity(book, o))
    && !o.timeInForce.ImmediateOrCancel?
    && LeftNow(book, o) > 0
    && NextMemo(book.On(o.side), o.price) == U32_MAX
  }

  /** The result of placing an order, from the book alone: rejected, panicking, or accepted
      with all the liquidity it could reach. */
  lemma PlaceOutcome(book: Book, o: PlaceOrder)
    requires BookOk(book)
    ensures Place(book, o).1.Rejected? <==> Refused(o, Liquidity(book, o))
    ensures Place(book, o).1.Crashed? <==> MemosExhausted(book, o)
    ensures Place(book, o).1.Accepted? ==>
              && Place(book, o).1.filled == FilledNow(book, o)
              && Place(book, o).1.remaining == LeftNow(book, o)
              && (Place(book, o).1.fillType == Complete <==> LeftNow(book, o) == 0)
              && (Place(book, o).1.fillType == Unfilled <==> Liquidity(book, o) == 0)
              && (Place(book, o).1.orderIndex.Some? <==> LeftNow(book, o) > 0 && !o.timeInForce.ImmediateOrCancel?)
  {
    if Refused(o, Liquidity(book, o)) {
      PlaceRejects(book, o);
    } else {
      var filled, left := PlaceIsSettle(book, o);
      TradedOwnSide(book, o);
    }
  }

  /** Trading leaves the taker's own side alone. */
  lemma TradedOwnSide(book: Book, o: PlaceOrder)
    requires BookOk(book)
    ensures ConsumeIn(book, o.Wants(), o.quantity).On(o.side) == book.On(o.side)
    ensures ConsumeIn(book, o.Wants(), o.quantity).On(o.side.Opposite())
         == Consume(o.Wants(), book.On(o.side.Opposite()), o.quantity)
  {
  }

  // ---------------------------------------------------------------------------
  // The two sides after a placement
  // ---------------------------------------------------------------------------

  /** The maker side is consumed, and the taker's side gains the remainder if it rests. */
  lemma PlaceBySide(book: Book, o: PlaceOrder)
    requires BookOk(book) && Place(book, o).1.Accepted?
    ensures Place(book, o).0.On(o.side.Opposite())
         == Consume(o.Wants(), book.On(o.side.Opposite()), o.quantity)
    ensures Place(book, o).1.orderIndex.None? ==> Place(book, o).0.On(o.side) == book.On(o.side)
    ensures Place(book, o).1.orderIndex.Some? ==>
              && Place(book, o).1.remaining > 0
              && Push(book.On(o.side), Order(U32_MAX, Place(book, o).1.remaining, o.price))
                 == Some(Place(book, o).0.On(o.side))
              && Place(book, o).1.orderIndex
                 == Some(OrderIndex(o.side, o.price, NextMemo(book.On(o.side), o.price)))
  {
    PlaceOutcome(book, o);
    var filled, left := PlaceIsSettle(book, o);
    TradedOwnSide(book, o);
  }

  /** The representation invariant survives every placement. */
  lemma PlaceKeepsBookOk(book: Book, o: PlaceOrder)
    requires BookOk(book)
    ensures BookOk(Place(book, o).0)
  {
    if Refused(o, Liquidity(book, o)) {
      PlaceRejects(book, o);
    } else {
      var filled, left := PlaceIsSettle(book, o);
      if left > 0 && !o.timeInForce.ImmediateOrCancel? {
        SettleKeepsBookOk(book, o, left);
      }
    }
  }

  lemma SettleKeepsBookOk(book: Book, o: PlaceOrder, left: NonZeroU32)
    requires BookOk(book)
    ensures var traded := ConsumeIn(book, o.Wants(), o.quantity);
            var pushed := Push(traded.On(o.side), Order(U32_MAX, left, o.price));
            pushed.Some? ==> BookOk(traded.With(o.side, pushed.value))
  {
    var traded := ConsumeIn(book, o.Wants(), o.quantity);
    var t := Order(U32_MAX, left, o.price);
    if Push(traded.On(o.side), t).Some? {
      PushKeepsLevelsOk(traded.On(o.side), t);
    }
  }

  // ---------------------------------------------------------------------------
  // The book is never crossed
  // ---------------------------------------------------------------------------

  /** The first order of every level is in the list. */
  lemma LevelShows(side: OrderSide, levels: Levels, l: Level)
    requires LevelsOk(levels) && l in levels
    ensures l.price > 0 && l.orders != [] && l.orders[0].price == l.price
    ensures l.orders[0] in Walk(side, levels)
  {
    var i :| 0 <= i < |levels| && levels[i] == l;
    assert LevelOk(levels[i]);
    RangeMember(side, levels, 0, |levels|, l.orders[0]);
  }

  /** Taking as much as there is leaves only levels at prices the taker refuses. */
  lemma ExhaustedRefuses(terms: Terms, levels: Levels, q: nat)
    requires LevelsOk(levels)
    requires TotalQuantity(Eligible(terms, Walk(terms.MakerSide(), levels))) <= q
    ensures forall l :: l in Consume(terms, levels, q) ==> l.price > 0 && !terms.Accepts(l.price)
  {
    var side := terms.MakerSide();
    var w, after := Walk(side, levels), Consume(terms, levels, q);
    WalkInPriorityOrder(side, levels);
    ExhaustedList(terms, w, q);
    ConsumeInWalk(terms, levels, q);
    forall l | l in after ensures l.price > 0 && !terms.Accepts(l.price) {
      LevelShows(side, after, l);
    }
  }

  lemma ExhaustedList(terms: Terms, orders: seq<Order>, q: nat)
    requires InPriorityOrder(terms.MakerSide(), orders)
    requires TotalQuantity(Eligible(terms, orders)) <= q
    ensures forall o :: o in Taken(terms, orders, q) ==> !terms.Accepts(o.price)
  {
    var n := Reach(terms, orders);
    EligibleIsPrefix(terms, orders);
    GreedyOfAll(orders[..n], q);
    AcceptedIsPrefix(terms, orders);
  }

  /** A push brings no price but that of the order pushed. */
  lemma PushPrices(levels: Levels, t: Order, l: Level)
    requires Push(levels, t).Some? && l in Push(levels, t).value
    ensures l.price == t.price || exists k :: k in levels && k.price == l.price
  {
    var i, after := Rank(levels, t.price), Push(levels, t).value;
    var j :| 0 <= j < |after| && after[j] == l;
    if j != i {
      var k := levels[if HasLevel(levels, t.price) || j < i then j else j - 1];
      assert k in levels && k.price == l.price;
    }
  }

  lemma TradingKeepsUncrossed(book: Book, terms: Terms, q: nat)
    requires BookOk(book) && Uncrossed(book)
    ensures Uncrossed(ConsumeIn(book, terms, q))
  {
    ConsumeKeepsCounters(terms, book.On(terms.MakerSide()), q);
  }

  /** Resting an order whose price does not reach the other side keeps the book uncrossed. */
  lemma RestingKeepsUncrossed(book: Book, side: OrderSide, t: Order, levels: Levels)
    requires Uncrossed(book) && Push(book.On(side), t) == Some(levels)
    requires forall l :: l in book.On(side.Opposite()) ==> Better(side.Opposite(), t.price, l.price)
    ensures Uncrossed(book.With(side, levels))
  {
    forall l, k | l in levels && k in book.On(side.Opposite())
      ensures Better(side.Opposite(), l.price, k.price)
    {
      PushPrices(book.On(side), t, l);
    }
  }

  /** Placing any order, limit or market, with any time in force, leaves every bid strictly
      below every ask. */
  lemma PlaceKeepsUncrossed(book: Book, o: PlaceOrder)
    requires BookOk(book) && Uncrossed(book)
    ensures Uncrossed(Place(book, o).0)
  {
    if Refused(o, Liquidity(book, o)) {
      PlaceRejects(book, o);
    } else {
      var filled, left := PlaceIsSettle(book, o);
      var traded := ConsumeIn(book, o.Wants(), o.quantity);
      TradingKeepsUncrossed(book, o.Wants(), o.quantity);
      if left > 0 && !o.timeInForce.ImmediateOrCancel? {
        RemainderKeepsUncrossed(book, o, left, traded);
      }
    }
  }

  lemma RemainderKeepsUncrossed(book: Book, o: PlaceOrder, left: NonZeroU32, traded: Book)
    requires BookOk(book) && left == LeftNow(book, o)
    requires traded == ConsumeIn(book, o.Wants(), o.quantity) && Uncrossed(traded)
    ensures var pushed := Push(traded.On(o.side), Order(U32_MAX, left, o.price));
            pushed.Some? ==> Uncrossed(traded.With(o.side, pushed.value))
  {
    var t := Order(U32_MAX, left, o.price);
    TradedOwnSide(book, o);
    ExhaustedRefuses(o.Wants(), book.On(o.side.Opposite()), o.quantity);
    if Push(traded.On(o.side), t).Some? {
      RestingKeepsUncrossed(traded, o.side, t, Push(traded.On(o.side), t).value);
    }
  }

  // ---------------------------------------------------------------------------
  // The limit, price by price
  // ---------------------------------------------------------------------------

  /** The quantity resting on a side. */
  function Resting(side: OrderSide, levels: Levels): nat {
    TotalQuantity(Walk(side, levels))
  }

  /** What rests within the limit of an order: all of the other side for a market order, the asks
      at its price or below for a buy, the bids at its price or above for a sell. */
  function Reachable(book: Book, o: PlaceOrder): nat {
    match (o.orderType, o.side)
    case (Market, Buy) => Resting(Sell, book.asks)
    case (Market, Sell) => Resting(Buy, book.bids)
    case (Limit, Buy) => TotalQuantity(PricedAtMost(Walk(Sell, book.asks), o.price))
    case (Limit, Sell) => TotalQuantity(PricedAtLeast(Walk(Buy, book.bids), o.price))
  }

  lemma LiquidityMeaning(book: Book, o: PlaceOrder)
    ensures Liquidity(book, o) == Reachable(book, o)
  {
    EligibleMeaning(o.Wants(), Walk(o.side.Opposite(), book.On(o.side.Opposite())));
  }

  /** An order is rejected exactly when what rests within its limit falls short of its time in
      force, and otherwise trades as much of it as it can. */
  lemma PlaceFillsReachable(book: Book, o: PlaceOrder, r: PlaceResult, reachable: nat)
    requires BookOk(book) && r == Place(book, o).1 && reachable == Reachable(book, o)
    ensures r == Rejected(FillOrKillFailed) <==> o.timeInForce == FillOrKill && reachable < o.quantity
    ensures r == Rejected(InsufficientLiquidity) <==> o.timeInForce == ImmediateOrCancel && reachable == 0
    ensures r.Rejected? ==> r.error == FillOrKillFailed || r.error == InsufficientLiquidity
    ensures r.Accepted? ==> r.filled == (if reachable < o.quantity then reachable else o.quantity)
    ensures r.Accepted? ==> r.remaining == (if reachable < o.quantity then o.quantity - reachable else 0)
  {
    LiquidityMeaning(book, o);
    PlaceOutcome(book, o);
    if Refused(o, Liquidity(book, o)) {
      PlaceRejects(book, o);
    }
  }

  /** An order trades at its limit or better. */
  lemma PlaceTradesWithinLimit(book: Book, o: PlaceOrder, fills: seq<MakerFill>, i: nat)
    requires fills == PlanFor(book, o.Wants(), o.quantity) && i < |fills|
    ensures o.orderType == Limit && o.side == Buy ==> fills[i].maker.price <= o.price
    ensures o.orderType == Limit && o.side == Sell ==> fills[i].maker.price >= o.price
    ensures o.side == Buy ==> fills[i].oix.side == Sell && fills[i].maker in Walk(Sell, book.asks)
    ensures o.side == Sell ==> fills[i].oix.side == Buy && fills[i].maker in Walk(Buy, book.bids)
  {
    var w := Walk(o.side.Opposite(), book.On(o.side.Opposite()));
    FillsWithinLimit(o.Wants(), w, o.quantity);
    PlannedMakersListed(o.Wants(), w, o.quantity);
  }

  /** An order that is not filled has used up what its limit allows: behind a limit order there
      is no level left at its price or better, behind a market order no level at all. */
  lemma PlaceExhaustsLimit(book: Book, o: PlaceOrder, after: Book, r: PlaceResult)
    requires BookOk(book) && after == Place(book, o).0 && r == Place(book, o).1
    requires r.Accepted? && r.remaining > 0
    ensures o.orderType == Limit && o.side == Buy ==> forall l :: l in after.asks ==> l.price > o.price
    ensures o.orderType == Limit && o.side == Sell ==> forall l :: l in after.bids ==> l.price < o.price
    ensures o.orderType == Market && o.side == Buy ==> after.asks == []
    ensures o.orderType == Market && o.side == Sell ==> after.bids == []
  {
    PlaceOutcome(book, o);
    PlaceBySide(book, o);
    ExhaustedRefuses(o.Wants(), book.On(o.side.Opposite()), o.quantity);
    HasMember(after.asks);
    HasMember(after.bids);
  }

  lemma HasMember<T>(s: seq<T>)
    ensures s != [] ==> exists x :: x in s
  {
    if s != [] {
      assert s[0] in s;
    }
  }

  // ---------------------------------------------------------------------------
  // Conservation of quantity
  // ---------------------------------------------------------------------------

  lemma TakenTotal(terms: Terms, orders: seq<Order>, q: nat)
    requires InPriorityOrder(terms.MakerSide(), orders)
    ensures TotalQuantity(Taken(terms, orders, q)) + Min(q, TotalQuantity(Eligible(terms, orders)))
         == TotalQuantity(orders)
  {
    var n := Reach(terms, orders);
    EligibleIsPrefix(terms, orders);
    GreedyTakes(orders[..n], q);
    TotalQuantityConcat(Greedy(orders[..n], q), orders[n..]);
    TotalQuantityConcat(orders[..n], orders[n..]);
    assert orders == orders[..n] + orders[n..];
  }

  lemma ConsumeTotal(terms: Terms, levels: Levels, q: nat)
    requires LevelsOk(levels)
    ensures Resting(terms.MakerSide(), Consume(terms, levels, q))
            + Min(q, TotalQuantity(Eligible(terms, Walk(terms.MakerSide(), levels))))
         == Resting(terms.MakerSide(), levels)
  {
    WalkInPriorityOrder(terms.MakerSide(), levels);
    TakenTotal(terms, Walk(terms.MakerSide(), levels), q);
    ConsumeInWalk(terms, levels, q);
  }

  lemma InsertTotal(orders: seq<Order>, k: nat, o: Order)
    requires k <= |orders|
    ensures TotalQuantity(InsertAt(orders, k, o)) == TotalQuantity(orders) + o.quantity
  {
    assert orders == orders[..k] + orders[k..];
    TotalQuantityConcat(orders[..k], orders[k..]);
    TotalQuantityConcat(orders[..k] + [o], orders[k..]);
    TotalQuantityConcat(orders[..k], [o]);
  }

  lemma PushTotal(side: OrderSide, levels: Levels, t: Order, after: Levels)
    requires LevelsOk(levels) && Push(levels, t) == Some(after)
    ensures Resting(side, after) == Resting(side, levels) + t.quantity
  {
    var k := PushAgreesWithWalk(side, levels, t);
    InsertTotal(Walk(side, levels), k, t.(memo := NextMemo(levels, t.price)));
  }

  /** What rests of an accepted order. */
  function Rests(r: PlaceResult): u32
    requires r.Accepted?
  {
    if r.orderIndex.Some? then r.remaining else 0
  }

  /** An accepted order splits into what is filled and what remains; the other side loses
      exactly what is filled, and the order's own side gains exactly what rests. */
  lemma PlaceConserves(book: Book, o: PlaceOrder, after: Book, r: PlaceResult)
    requires BookOk(book) && after == Place(book, o).0 && r == Place(book, o).1 && r.Accepted?
    ensures r.filled + r.remaining == o.quantity
    ensures Resting(o.side.Opposite(), after.On(o.side.Opposite())) + r.filled
         == Resting(o.side.Opposite(), book.On(o.side.Opposite()))
    ensures Resting(o.side, after.On(o.side)) == Resting(o.side, book.On(o.side)) + Rests(r)
  {
    PlaceOutcome(book, o);
    PlaceBySide(book, o);
    ConsumeTotal(o.Wants(), book.On(o.side.Opposite()), o.quantity);
    if r.orderIndex.Some? {
      PushTotal(o.side, book.On(o.side), Order(U32_MAX, r.remaining, o.price), after.On(o.side));
    }
  }

  /** Short of a panic, placing an order leaves the book as it was exactly when the order is
      rejected. */
  lemma UnchangedIffRejected(book: Book, o: PlaceOrder)
    requires BookOk(book) && !Place(book, o).1.Crashed?
    ensures Place(book, o).0 == book <==> Refused(o, Liquidity(book, o))
  {
    PlaceOutcome(book, o);
    if Refused(o, Liquidity(book, o)) {
      PlaceRejects(book, o);
    } else {
      EligibleTotalBound(o.Wants(), Walk(o.side.Opposite(), book.On(o.side.Opposite())));
      PlaceConserves(book, o, Place(book, o).0, Place(book, o).1);
    }
  }

  // ---------------------------------------------------------------------------
  // Where the remainder rests
  // ---------------------------------------------------------------------------

  /** A returned index locates an order of exactly the remaining quantity, last in the queue
      at its price, under an index that nobody had before. */
  lemma RemainderIsLast(book: Book, o: PlaceOrder, after: Levels, r: PlaceResult, oix: OrderIndex)
    requires BookOk(book) && after == Place(book, o).0.On(o.side) && r == Place(book, o).1
    requires r.Accepted? && r.orderIndex == Some(oix)
    ensures oix.side == o.side && oix.price == o.price && r.remaining > 0
    ensures LookupIn(book, oix) == None
    ensures Lookup(after, oix.price, oix.memo) == Some(Order(oix.memo, r.remaining, o.price))
    ensures HasLevel(after, o.price)
    ensures var queue := after[Rank(after, o.price)].orders;
            queue != [] && queue[|queue| - 1] == Order(oix.memo, r.remaining, o.price)
  {
    PlaceBySide(book, o);
    var t := Order(U32_MAX, r.remaining, o.price);
    PushIsFound(book.On(o.side), t);
    PushKeepsLevelsOk(book.On(o.side), t);
    RankAt(after, Rank(book.On(o.side), o.price));
  }

  // ---------------------------------------------------------------------------
  // Splitting an immediate-or-cancel order
  // ---------------------------------------------------------------------------

  /** An immediate-or-cancel order leaves the book consumed, rejected or not. */
  lemma IocConsumes(book: Book, o: PlaceOrder)
    requires BookOk(book) && o.timeInForce.ImmediateOrCancel?
    ensures Place(book, o).0 == ConsumeIn(book, o.Wants(), o.quantity)
  {
    if Refused(o, Liquidity(book, o)) {
      PlaceRejects(book, o);
      NothingToConsume(o.Wants(), book.On(o.side.Opposite()), o.quantity);
    } else {
      var filled, left := PlaceIsSettle(book, o);
    }
  }

  lemma NothingToConsume(terms: Terms, levels: Levels, q: nat)
    requires LevelsOk(levels)
    requires TotalQuantity(Eligible(terms, Walk(terms.MakerSide(), levels))) == 0
    ensures Consume(terms, levels, q) == levels
  {
    if levels != [] {
      EligibleTotalBound(terms, Walk(terms.MakerSide(), levels));
      BestLeads(terms.MakerSide(), levels);
    }
  }

  /** Placing immediate-or-cancel orders of `first` and then of `second` leaves exactly the
      book that one order of both together leaves. */
  lemma IocSplits(book: Book, o: PlaceOrder, first: NonZeroU32, second: NonZeroU32, between: Book)
    requires BookOk(book) && o.timeInForce.ImmediateOrCancel?
    requires o.quantity == first + second
    requires between == Place(book, o.(quantity := first)).0
    ensures BookOk(between)
    ensures Place(between, o.(quantity := second)).0 == Place(book, o).0
  {
    var terms := o.Wants();
    IocConsumes(book, o.(quantity := first));
    IocConsumes(between, o.(quantity := second));
    IocConsumes(book, o);
    ConsumeTwice(terms, book.On(terms.MakerSide()), first, second, o.quantity);
  }

  function FilledBy(r: PlaceResult): u32 {
    if r.Accepted? then r.filled else 0
  }

  lemma IocTakes(book: Book, o: PlaceOrder, after: Book)
    requires BookOk(book) && o.timeInForce.ImmediateOrCancel? && after == Place(book, o).0
    ensures Resting(o.side.Opposite(), after.On(o.side.Opposite())) + FilledBy(Place(book, o).1)
         == Resting(o.side.Opposite(), book.On(o.side.Opposite()))
  {
    PlaceOutcome(book, o);
    if Refused(o, Liquidity(book, o)) {
      PlaceRejects(book, o);
    } else {
      PlaceConserves(book, o, after, Place(book, o).1);
    }
  }

  /** The two parts together fill what the whole fills, a rejected part counting for nothing. */
  lemma IocSplitFills(
      book: Book, o: PlaceOrder, first: NonZeroU32, second: NonZeroU32, between: Book, after: Book)
    requires BookOk(book) && o.timeInForce.ImmediateOrCancel?
    requires o.quantity == first + second
    requires between == Place(book, o.(quantity := first)).0 && after == Place(book, o).0
    ensures FilledBy(Place(book, o.(quantity := first)).1) + FilledBy(Place(between, o.(quantity := second)).1)
         == FilledBy(Place(book, o).1)
  {
    IocSplits(book, o, first, second, between);
    IocTakes(book, o.(quantity := first), between);
    IocTakes(between, o.(quantity := second), after);
    IocTakes(book, o, after);
  }
}
