/** How memo counters, and with them panics and order indices, develop over a run of commands. */
module RunLaws {
  import opened Types
  import opened BookModel
  import opened FillPlan
  import opened FillCommit
  import opened Placement
  import opened PlacementLaws
  import opened TradingModel

  // ---------------------------------------------------------------------------
  // Memo counters across one command
  // ---------------------------------------------------------------------------

  /** Where a level may be: one price on one side of the book of one asset. */
  datatype Spot = Spot(asset: Asset, side: OrderSide, price: NonZeroU32)

  function LevelsAt(assets: AssetsView, at: Spot): Levels {
    assets.On(at.asset).On(at.side)
  }

  predicate LevelAt(assets: AssetsView, at: Spot) {
    HasLevel(LevelsAt(assets, at), at.price)
  }

  /** The memo that the next order to rest there is given. */
  function MemoAt(assets: AssetsView, at: Spot): u32 {
    NextMemo(LevelsAt(assets, at), at.price)
  }

  /** The index that a command's reply hands out. */
  function HandedOut(cmd: TradeCmd, reply: Reply): Option<OrderIndex> {
    if cmd.PlaceCmd? && reply.Placed? then reply.orderIndex else None
  }

  /** Whether a command's reply hands out an index there. */
  predicate HandsOut(cmd: TradeCmd, reply: Reply, at: Spot) {
    match HandedOut(cmd, reply)
    case None => false
    case Some(oix) => cmd.order.asset == at.asset && oix.side == at.side && oix.price == at.price
  }

  lemma MemberLevel(levels: Levels, l: Level)
    requires LevelsOk(levels) && l in levels
    ensures HasLevel(levels, l.price) && levels[Rank(levels, l.price)] == l
  {
    var i :| 0 <= i < |levels| && levels[i] == l;
    RankAt(levels, i);
  }

  /** Trading leaves the counter of a level that survives it alone. */
  lemma ConsumeCounter(terms: Terms, levels: Levels, q: nat, price: NonZeroU32)
    requires LevelsOk(levels) && HasLevel(Consume(terms, levels, q), price)
    ensures HasLevel(levels, price)
    ensures NextMemo(Consume(terms, levels, q), price) == NextMemo(levels, price)
  {
    var after := Consume(terms, levels, q);
    ConsumeKeepsCounters(terms, levels, q);
    var l := after[Rank(after, price)];
    var k :| k in levels && k.price == l.price && k.memoSeq == l.memoSeq;
    MemberLevel(levels, k);
  }

  /** A push advances the counter at its own price, which is then there. */
  lemma PushCounts(levels: Levels, t: Order, after: Levels)
    requires LevelsOk(levels) && Push(levels, t) == Some(after)
    ensures HasLevel(after, t.price) && NextMemo(after, t.price) == NextMemo(levels, t.price) + 1
  {
    PushKeepsLevelsOk(levels, t);
    RankAt(after, Rank(levels, t.price));
  }

  /** A push touches no other counter. */
  lemma PushCountsNoOther(levels: Levels, t: Order, after: Levels, price: NonZeroU32)
    requires LevelsOk(levels) && Push(levels, t) == Some(after)
    requires price != t.price && HasLevel(after, price)
    ensures HasLevel(levels, price) && NextMemo(after, price) == NextMemo(levels, price)
  {
    var i, j := Rank(levels, t.price), Rank(after, price);
    assert after[i].price == t.price;
    var l := after[j];
    assert l == levels[if HasLevel(levels, t.price) || j < i then j else j - 1];
    MemberLevel(levels, l);
  }

  /** Placing an order advances the counter where its remainder rests, and no other counter of
      a level that is there afterwards. */
  lemma PlaceCounter(book: Book, o: PlaceOrder, r: PlaceResult, side: OrderSide, price: NonZeroU32)
    requires BookOk(book) && r == Place(book, o).1 && r.Accepted?
    ensures r.orderIndex.Some? && r.orderIndex.value.side == side && r.orderIndex.value.price == price ==>
              && HasLevel(Place(book, o).0.On(side), price)
              && r.orderIndex.value.memo == NextMemo(book.On(side), price)
              && NextMemo(Place(book, o).0.On(side), price) == NextMemo(book.On(side), price) + 1
    ensures !(r.orderIndex.Some? && r.orderIndex.value.side == side && r.orderIndex.value.price == price) ==>
              (HasLevel(Place(book, o).0.On(side), price) ==>
                 NextMemo(Place(book, o).0.On(side), price) == NextMemo(book.On(side), price))
  {
    PlaceBySide(book, o);
    var after := Place(book, o).0.On(side);
    if side != o.side {
      if HasLevel(after, price) {
        ConsumeCounter(o.Wants(), book.On(side), o.quantity, price);
      }
    } else if r.orderIndex.Some? {
      var t := Order(U32_MAX, r.remaining, o.price);
      if price == o.price {
        PushCounts(book.On(side), t, after);
      } else if HasLevel(after, price) {
        PushCountsNoOther(book.On(side), t, after, price);
      }
    }
  }

  /** A command advances the counter where it hands out an index, which is the index with the
      memo counted so far, and no other counter of a level that is there afterwards. */
  lemma ApplyCounter(assets: AssetsView, cmd: TradeCmd, after: AssetsView, reply: Reply, at: Spot)
    requires AssetsSafe(assets) && assets.orderUuids == map[]
    requires after == Apply(assets, cmd).0 && reply == Apply(assets, cmd).1 && !reply.Panic?
    ensures HandsOut(cmd, reply, at) ==>
              && LevelAt(after, at)
              && HandedOut(cmd, reply) == Some(OrderIndex(at.side, at.price, MemoAt(assets, at)))
              && MemoAt(after, at) == MemoAt(assets, at) + 1
    ensures !HandsOut(cmd, reply, at) && LevelAt(after, at) ==> MemoAt(after, at) == MemoAt(assets, at)
  {
    if cmd.PlaceCmd? && cmd.order.asset == at.asset {
      var book := assets.On(at.asset);
      var result := Place(book, cmd.order).1;
      assert after.On(at.asset) == Place(book, cmd.order).0;
      if result.Accepted? {
        PlaceCounter(book, cmd.order, result, at.side, at.price);
      } else {
        PlaceOutcome(book, cmd.order);
        PlaceRejects(book, cmd.order);
      }
    }
  }

  // ---------------------------------------------------------------------------
  // When a run is live
  // ---------------------------------------------------------------------------

  lemma {:induction false} PrefixLives(cmds: seq<TradeCmd>, n: nat)
    requires Fold(cmds).Live? && n <= |cmds|
    ensures Fold(cmds[..n]).Live?
  {
    if n == |cmds| {
      assert cmds[..n] == cmds;
    } else {
      var before := cmds[..|cmds| - 1];
      PrefixLives(before, n);
      assert before[..n] == cmds[..n];
    }
  }

  /** No counter exceeds the number of commands. */
  lemma {:induction false} CountersBounded(cmds: seq<TradeCmd>, at: Spot)
    requires Fold(cmds).Live?
    ensures MemoAt(Fold(cmds).assets, at) <= |cmds|
  {
    if cmds != [] {
      var before, cmd := cmds[..|cmds| - 1], cmds[|cmds| - 1];
      CountersBounded(before, at);
      RunsAreSafe(before);
      ApplyCounter(Fold(before).assets, cmd, Fold(cmds).assets, Apply(Fold(before).assets, cmd).1, at);
    }
  }

  /** A live run dies of its next command exactly when that is an order whose remainder meets a
      level out of memos. */
  lemma DiesIff(cmds: seq<TradeCmd>, cmd: TradeCmd)
    requires Fold(cmds).Live?
    ensures Fold(cmds + [cmd]).Dead?
       <==> cmd.PlaceCmd? && MemosExhausted(Fold(cmds).assets.On(cmd.order.asset), cmd.order)
  {
    RunsAreSafe(cmds);
    FoldSnoc(cmds, cmd);
    PanicCondition(Fold(cmds).assets, cmd);
  }

  /** No run of fewer than 2^32 commands panics. */
  lemma {:induction false} ShortRunsLive(cmds: seq<TradeCmd>)
    requires |cmds| <= U32_MAX
    ensures Fold(cmds).Live?
  {
    if cmds != [] {
      var before, cmd := cmds[..|cmds| - 1], cmds[|cmds| - 1];
      assert cmds == before + [cmd];
      ShortRunsLive(before);
      DiesIff(before, cmd);
      if cmd.PlaceCmd? {
        CountersBounded(before, Spot(cmd.order.asset, cmd.order.side, cmd.order.price));
      }
    }
  }

  /** The bound is the best there is: 2^32 equal good-til-cancelled orders exhaust the memos of
      their level, and the last of them panics. */
  lemma EqualOrdersDie(o: PlaceOrder, cmds: seq<TradeCmd>)
    requires o.timeInForce.GoodTilCanceled?
    requires |cmds| == U32_MAX + 1 && forall i :: 0 <= i < |cmds| ==> cmds[i] == PlaceCmd(o)
    ensures Fold(cmds[..U32_MAX]).Live? && Fold(cmds).Dead?
  {
    var before := cmds[..U32_MAX];
    assert cmds == before + [PlaceCmd(o)];
    ShortRunsLive(before);
    EqualOrdersPile(o, before);
    NothingToTrade(Fold(before).assets.On(o.asset), o);
    DiesIff(before, PlaceCmd(o));
  }

  /** Equal orders pile up on their own side, each with the next memo. */
  lemma {:induction false} EqualOrdersPile(o: PlaceOrder, cmds: seq<TradeCmd>)
    requires o.timeInForce.GoodTilCanceled? && Fold(cmds).Live?
    requires forall i :: 0 <= i < |cmds| ==> cmds[i] == PlaceCmd(o)
    ensures Fold(cmds).assets.On(o.asset).On(o.side.Opposite()) == []
    ensures MemoAt(Fold(cmds).assets, Spot(o.asset, o.side, o.price)) == |cmds|
  {
    if cmds != [] {
      var before := cmds[..|cmds| - 1];
      EqualOrdersPile(o, before);
      RunsAreSafe(before);
      OneMoreOnThePile(Fold(before).assets.On(o.asset), o);
    }
  }

  lemma OneMoreOnThePile(book: Book, o: PlaceOrder)
    requires BookOk(book) && book.On(o.side.Opposite()) == []
    requires o.timeInForce.GoodTilCanceled? && !Place(book, o).1.Crashed?
    ensures Place(book, o).0.On(o.side.Opposite()) == []
    ensures NextMemo(Place(book, o).0.On(o.side), o.price) == NextMemo(book.On(o.side), o.price) + 1
  {
    var r := Place(book, o).1;
    NothingToTrade(book, o);
    PlaceOutcome(book, o);
    PlaceBySide(book, o);
    PlaceCounter(book, o, r, o.side, o.price);
  }

  lemma NothingToTrade(book: Book, o: PlaceOrder)
    requires book.On(o.side.Opposite()) == []
    ensures Liquidity(book, o) == 0
    ensures LeftNow(book, o) == o.quantity
  {
  }

  // ---------------------------------------------------------------------------
  // Indices that are handed out again
  // ---------------------------------------------------------------------------

  /** The reply to a command of a run; there is none after a panic. */
  function ReplyAt(cmds: seq<TradeCmd>, n: nat): Reply
    requires n < |cmds|
  {
    match Fold(cmds[..n])
    case Dead => Panic
    case Live(assets) => Apply(assets, cmds[n]).1
  }

  /** The index that a command of a run hands out. */
  function IndexAt(cmds: seq<TradeCmd>, n: nat): Option<OrderIndex>
    requires n < |cmds|
  {
    HandedOut(cmds[n], ReplyAt(cmds, n))
  }

  /** Whether there is a level when a run has come to its end. */
  predicate LevelAfter(cmds: seq<TradeCmd>, at: Spot) {
    Fold(cmds).Live? && LevelAt(Fold(cmds).assets, at)
  }

  /** How many indices a run has handed out at a price since there was last no level. */
  function SinceDrop(cmds: seq<TradeCmd>, at: Spot): nat {
    if cmds == [] || !LevelAfter(cmds, at) then 0
    else
      var last := |cmds| - 1;
      SinceDrop(cmds[..last], at) + if HandsOut(cmds[last], ReplyAt(cmds, last), at) then 1 else 0
  }

  /** A memo counter counts the indices handed out since its level was last absent. */
  lemma {:induction false} MemoIsSinceDrop(cmds: seq<TradeCmd>, at: Spot)
    requires Fold(cmds).Live?
    ensures MemoAt(Fold(cmds).assets, at) == SinceDrop(cmds, at)
  {
    if LevelAfter(cmds, at) && cmds != [] {
      var before, cmd := cmds[..|cmds| - 1], cmds[|cmds| - 1];
      MemoIsSinceDrop(before, at);
      RunsAreSafe(before);
      ApplyCounter(Fold(before).assets, cmd, Fold(cmds).assets, Apply(Fold(before).assets, cmd).1, at);
    }
  }

  /** The index that a command of a run hands out carries that count. */
  lemma IndexCountsSinceDrop(cmds: seq<TradeCmd>, n: nat, at: Spot)
    requires Fold(cmds).Live? && n < |cmds|
    requires HandsOut(cmds[n], ReplyAt(cmds, n), at)
    ensures SinceDrop(cmds[..n], at) <= U32_MAX
    ensures IndexAt(cmds, n) == Some(OrderIndex(at.side, at.price, SinceDrop(cmds[..n], at)))
    ensures SinceDrop(cmds[..n + 1], at) == SinceDrop(cmds[..n], at) + 1
  {
    var before, after := cmds[..n], cmds[..n + 1];
    assert after[..n] == before;
    PrefixLives(cmds, n);
    PrefixLives(cmds, n + 1);
    RunsAreSafe(before);
    MemoIsSinceDrop(before, at);
    ApplyCounter(Fold(before).assets, cmds[n], Fold(after).assets, ReplyAt(cmds, n), at);
  }

  /** While the level stays, the count does not go back. */
  lemma {:induction false} SinceDropGrows(cmds: seq<TradeCmd>, i: nat, at: Spot)
    requires i <= |cmds|
    requires forall k :: i < k <= |cmds| ==> LevelAfter(cmds[..k], at)
    ensures SinceDrop(cmds[..i], at) <= SinceDrop(cmds, at)
    decreases |cmds|
  {
    assert cmds[..|cmds|] == cmds;
    if i < |cmds| {
      var before := cmds[..|cmds| - 1];
      assert before[..i] == cmds[..i];
      forall k | i < k <= |before| ensures LevelAfter(before[..k], at) {
        assert before[..k] == cmds[..k];
      }
      SinceDropGrows(before, i, at);
    }
  }

  /** Two commands of a run hand out the same index at a price exactly when as many indices had
      been handed out there since its level was last absent. */
  lemma IndexReissuedIff(cmds: seq<TradeCmd>, i: nat, j: nat, at: Spot)
    requires Fold(cmds).Live? && i < j < |cmds|
    requires HandsOut(cmds[i], ReplyAt(cmds, i), at) && HandsOut(cmds[j], ReplyAt(cmds, j), at)
    ensures IndexAt(cmds, i) == IndexAt(cmds, j) <==> SinceDrop(cmds[..i], at) == SinceDrop(cmds[..j], at)
  {
    IndexCountsSinceDrop(cmds, i, at);
    IndexCountsSinceDrop(cmds, j, at);
  }

  /** So an index is handed out again only if the level at its price was dropped in between. */
  lemma {:induction false} ReissueTakesDrop(cmds: seq<TradeCmd>, i: nat, j: nat, at: Spot)
    requires Fold(cmds).Live? && i < j < |cmds|
    requires HandsOut(cmds[i], ReplyAt(cmds, i), at) && IndexAt(cmds, i) == IndexAt(cmds, j)
    requires HandsOut(cmds[j], ReplyAt(cmds, j), at)
    ensures exists k :: i < k <= j && !LevelAfter(cmds[..k], at)
  {
    IndexReissuedIff(cmds, i, j, at);
    IndexCountsSinceDrop(cmds, i, at);
    if forall k :: i < k <= j ==> LevelAfter(cmds[..k], at) {
      var upTo := cmds[..j];
      assert upTo[..i + 1] == cmds[..i + 1];
      forall k | i + 1 < k <= j ensures LevelAfter(upTo[..k], at) {
        assert upTo[..k] == cmds[..k];
      }
      SinceDropGrows(upTo, i + 1, at);
    }
  }

  /** A book with one resting order and nothing else. */
  function OneOrder(o: PlaceOrder): Book {
    EMPTY_BOOK.With(o.side, [Level(o.price, 1, [Order(0, o.quantity, o.price)])])
  }

  /** A good-til-cancelled order on an empty book rests alone. */
  lemma RestsAlone(o: PlaceOrder)
    requires o.timeInForce.GoodTilCanceled?
    ensures Place(EMPTY_BOOK, o).0 == OneOrder(o)
    ensures Place(EMPTY_BOOK, o).1
         == Accepted(Some(OrderIndex(o.side, o.price, 0)), Unfilled, 0, o.quantity)
  {
    NothingToTrade(EMPTY_BOOK, o);
    PlaceOutcome(EMPTY_BOOK, o);
    PlaceBySide(EMPTY_BOOK, o);
    var t := Order(U32_MAX, o.quantity, o.price);
    var l := Enqueue(Level(o.price, 0, []), t);
    assert l == Level(o.price, 1, [Order(0, o.quantity, o.price)]);
    assert InsertAt<Level>([], 0, l) == [l];
    assert Push([], t) == Some([l]);
  }

  /** `t` trades against all of `o` at the price of `o`. */
  predicate Mirrors(t: PlaceOrder, o: PlaceOrder) {
    t.asset == o.asset && t.side == o.side.Opposite() && t.price == o.price && t.quantity == o.quantity
  }

  /** What a side with one order lists, and what it is without it. */
  lemma LoneOrder(side: OrderSide, levels: Levels, maker: Order)
    requires levels == [Level(maker.price, 1, [maker])] && maker.memo == 0
    ensures LevelsOk(levels)
    ensures Walk(side, levels) == [maker] && Best(side, levels) == maker && DropBest(side, levels) == []
  {
    WalkAround(side, levels, 0);
  }

  lemma ConsumeLone(terms: Terms, levels: Levels, maker: Order)
    requires levels == [Level(maker.price, 1, [maker])] && maker.memo == 0
    requires terms.Accepts(maker.price)
    ensures LevelsOk(levels) && Consume(terms, levels, maker.quantity) == []
    ensures TotalQuantity(Eligible(terms, Walk(terms.MakerSide(), levels))) == maker.quantity
  {
    LoneOrder(terms.MakerSide(), levels, maker);
  }

  /** An order that meets its equal takes it, and the level is gone. */
  lemma TakesTheOne(o: PlaceOrder, t: PlaceOrder)
    requires Mirrors(t, o)
    ensures Place(OneOrder(o), t).0 == EMPTY_BOOK
    ensures Place(OneOrder(o), t).1 == Accepted(None, Complete, t.quantity, 0)
  {
    var book := OneOrder(o);
    ConsumeLone(t.Wants(), book.On(o.side), Order(0, o.quantity, o.price));
    assert Liquidity(book, t) == t.quantity;
    PlaceOutcome(book, t);
    PlaceBySide(book, t);
  }

  /** An index handed out again: a sell order, a buy order that takes it, and the sell order once
      more get the same index for two different orders. */
  lemma {:induction false} IndexIsReissued(o: PlaceOrder, t: PlaceOrder, cmds: seq<TradeCmd>)
    requires o.timeInForce.GoodTilCanceled? && Mirrors(t, o)
    requires cmds == [PlaceCmd(o), PlaceCmd(t), PlaceCmd(o)]
    ensures Fold(cmds).Live?
    ensures IndexAt(cmds, 0) == IndexAt(cmds, 2) == Some(OrderIndex(o.side, o.price, 0))
  {
    assert cmds[..0] == [] && cmds[..1] == [PlaceCmd(o)] && cmds[..2] == [PlaceCmd(o), PlaceCmd(t)];
    assert cmds == cmds[..2] + [cmds[2]];
    RestsAlone(o);
    TakesTheOne(o, t);
    FoldSnoc([], PlaceCmd(o));
    FoldSnoc([PlaceCmd(o)], PlaceCmd(t));
    FoldSnoc(cmds[..2], PlaceCmd(o));
  }
}
