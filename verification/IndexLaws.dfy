/** What an order index denotes while the book changes around it. */
module IndexLaws {
  import opened Types
  import opened BookModel
  import opened FillPlan
  import opened FillCommit
  import opened Placement
  import opened PlacementLaws

  /** What is left of the last maker of a plan, if it is only filled in part. */
  function Stump(fills: seq<MakerFill>): seq<Order> {
    if fills == [] then []
    else
      var last := fills[|fills| - 1];
      if last.fillAmount < last.maker.quantity
      then [last.maker.(quantity := last.maker.quantity - last.fillAmount)]
      else []
  }

  lemma StumpCons(fill: MakerFill, later: seq<MakerFill>)
    ensures later != [] ==> Stump([fill] + later) == Stump(later)
  {
  }

  /** The list after a fill is the list before it, with the filled makers gone except for what
      is left of the last. */
  lemma {:induction false} TakenByPlan(terms: Terms, orders: seq<Order>, rem: u32, fills: seq<MakerFill>)
    requires InPriorityOrder(terms.MakerSide(), orders)
    requires fills == Plan(terms, orders, rem)
    ensures |fills| <= |orders|
    ensures Taken(terms, orders, rem) == Stump(fills) + orders[|fills|..]
  {
    if rem == 0 || orders == [] {
      TakenStep(terms, orders, rem);
    } else if !terms.Accepts(orders[0].price) {
      TakenStep(terms, orders, rem);
      AcceptedIsPrefix(terms, orders);
      PlanOfRefused(terms, orders, rem);
    } else {
      var fill, rest := FillOf(terms, orders[0], rem), orders[1..];
      var left: u32 := rem - fill.fillAmount;
      var later := Plan(terms, rest, left);
      TakenByPlan(terms, rest, left, later);
      TakenCons(terms, orders, rem, left, fill, later);
    }
  }

  lemma TakenCons(
      terms: Terms, orders: seq<Order>, rem: NonZeroU32, left: u32, fill: MakerFill, later: seq<MakerFill>)
    requires orders != [] && terms.Accepts(orders[0].price)
    requires fill == FillOf(terms, orders[0], rem) && left == rem - fill.fillAmount
    requires later == Plan(terms, orders[1..], left) && |later| <= |orders[1..]|
    requires Taken(terms, orders[1..], left) == Stump(later) + orders[1..][|later|..]
    ensures Taken(terms, orders, rem) == Stump([fill] + later) + orders[|later| + 1..]
  {
    TakenStep(terms, orders, rem);
    assert orders[1..][|later|..] == orders[|later| + 1..];
    if left == 0 {
      TakenLast(terms, orders, rem, fill);
    } else {
      assert fill.fillAmount == orders[0].quantity;
      StumpCons(fill, later);
    }
  }

  lemma TakenLast(terms: Terms, orders: seq<Order>, rem: NonZeroU32, fill: MakerFill)
    requires orders != [] && terms.Accepts(orders[0].price)
    requires fill == FillOf(terms, orders[0], rem) && fill.fillAmount == rem
    ensures Plan(terms, orders[1..], 0) == []
    ensures Taken(terms, orders, rem) == Stump([fill]) + orders[1..]
  {
    TakenStep(terms, orders, rem);
    TakenStep(terms, orders[1..], 0);
  }

  /** The fills of a side's plan, in terms of its list before and after. */
  lemma PlanInWalk(terms: Terms, levels: Levels, q: u32, fills: seq<MakerFill>)
    requires LevelsOk(levels)
    requires fills == Plan(terms, Walk(terms.MakerSide(), levels), q)
    ensures var w := Walk(terms.MakerSide(), levels);
            && |fills| <= |w|
            && (forall i :: 0 <= i < |fills| ==>
                  fills[i].maker == w[i] && fills[i].oix == IndexOf(terms.MakerSide(), w[i]))
            && Walk(terms.MakerSide(), Consume(terms, levels, q)) == Stump(fills) + w[|fills|..]
  {
    var w := Walk(terms.MakerSide(), levels);
    WalkInPriorityOrder(terms.MakerSide(), levels);
    PlanIsPrefix(terms, w, q);
    TakenByPlan(terms, w, q, fills);
    ConsumeInWalk(terms, levels, q);
  }

  /** An index without a fill denotes after the fill what it denoted before, or nothing still. */
  lemma UnfilledIndex(
      terms: Terms, levels: Levels, q: u32, fills: seq<MakerFill>, price: NonZeroU32, memo: u32)
    requires LevelsOk(levels)
    requires fills == Plan(terms, Walk(terms.MakerSide(), levels), q)
    requires forall i :: 0 <= i < |fills| ==> fills[i].oix != OrderIndex(terms.MakerSide(), price, memo)
    ensures Lookup(Consume(terms, levels, q), price, memo) == Lookup(levels, price, memo)
  {
    var side := terms.MakerSide();
    var after := Consume(terms, levels, q);
    PlanInWalk(terms, levels, q, fills);
    if Lookup(levels, price, memo).Some? {
      var o := Lookup(levels, price, memo).value;
      LookupAgreesWithWalk(side, levels, price, memo, o);
      assert o in Walk(side, levels)[|fills|..];
      LookupAgreesWithWalk(side, after, price, memo, o);
    } else if Lookup(after, price, memo).Some? {
      var o := Lookup(after, price, memo).value;
      LookupAgreesWithWalk(side, after, price, memo, o);
      assert o in Walk(side, levels)[|fills|..];
      LookupAgreesWithWalk(side, levels, price, memo, o);
    }
  }

  /** An index with a fill denotes nothing after it, if the fill takes the whole order, and
      otherwise the same order less the filled amount. */
  lemma FilledIndex(terms: Terms, levels: Levels, q: u32, fills: seq<MakerFill>, i: nat)
    requires LevelsOk(levels)
    requires fills == Plan(terms, Walk(terms.MakerSide(), levels), q)
    requires i < |fills|
    ensures Lookup(levels, fills[i].oix.price, fills[i].oix.memo) == Some(fills[i].maker)
    ensures fills[i].fillAmount <= fills[i].maker.quantity
    ensures Lookup(Consume(terms, levels, q), fills[i].oix.price, fills[i].oix.memo)
         == if fills[i].fillAmount == fills[i].maker.quantity then None
            else Some(fills[i].maker.(quantity := fills[i].maker.quantity - fills[i].fillAmount))
  {
    var w := Walk(terms.MakerSide(), levels);
    PlanInWalk(terms, levels, q, fills);
    ListedIsFound(terms.MakerSide(), levels, w[i]);
    FillWithinMaker(terms, w, q, fills, i);
    if fills[i].fillAmount < fills[i].maker.quantity {
      PartIsLeft(terms, levels, q, fills, i);
    } else {
      WholeIsGone(terms, levels, q, fills, i);
    }
  }

  lemma {:induction false} FillWithinMaker(terms: Terms, orders: seq<Order>, q: u32, fills: seq<MakerFill>, i: nat)
    requires fills == Plan(terms, orders, q) && i < |fills|
    ensures 0 < fills[i].fillAmount <= fills[i].maker.quantity
  {
    if q != 0 && orders != [] {
      var rest := orders[1..];
      if !terms.Accepts(orders[0].price) {
        FillWithinMaker(terms, rest, q, fills, i);
      } else if i > 0 {
        var left := q - FillOf(terms, orders[0], q).fillAmount;
        var later := Plan(terms, rest, left);
        assert fills[i] == later[i - 1];
        FillWithinMaker(terms, rest, left, later, i - 1);
      }
    }
  }

  lemma PartIsLeft(terms: Terms, levels: Levels, q: u32, fills: seq<MakerFill>, i: nat)
    requires LevelsOk(levels)
    requires fills == Plan(terms, Walk(terms.MakerSide(), levels), q)
    requires i < |fills| && fills[i].fillAmount < fills[i].maker.quantity
    ensures Lookup(Consume(terms, levels, q), fills[i].oix.price, fills[i].oix.memo)
         == Some(fills[i].maker.(quantity := fills[i].maker.quantity - fills[i].fillAmount))
  {
    var side, after := terms.MakerSide(), Consume(terms, levels, q);
    PlanInWalk(terms, levels, q, fills);
    PartialHasStump(terms, levels, q, fills, i);
    assert Walk(side, after)[0] == Stump(fills)[0];
    ListedIsFound(side, after, Stump(fills)[0]);
  }

  lemma PartialHasStump(terms: Terms, levels: Levels, q: u32, fills: seq<MakerFill>, i: nat)
    requires LevelsOk(levels)
    requires fills == Plan(terms, Walk(terms.MakerSide(), levels), q)
    requires i < |fills| && fills[i].fillAmount < fills[i].maker.quantity
    ensures Stump(fills) == [fills[i].maker.(quantity := fills[i].maker.quantity - fills[i].fillAmount)]
  {
    WalkInPriorityOrder(terms.MakerSide(), levels);
    PartialIsLast(terms, Walk(terms.MakerSide(), levels), q, fills, i);
  }

  lemma PartialIsLast(terms: Terms, orders: seq<Order>, q: u32, fills: seq<MakerFill>, i: nat)
    requires InPriorityOrder(terms.MakerSide(), orders)
    requires fills == Plan(terms, orders, q)
    requires i < |fills| && fills[i].fillAmount < fills[i].maker.quantity
    ensures i == |fills| - 1
  {
    if i < |fills| - 1 {
      OnlyLastIsPartial(terms, orders, q, i);
      PlanIsPrefix(terms, orders, q);
    }
  }

  lemma WholeIsGone(terms: Terms, levels: Levels, q: u32, fills: seq<MakerFill>, i: nat)
    requires LevelsOk(levels)
    requires fills == Plan(terms, Walk(terms.MakerSide(), levels), q)
    requires i < |fills| && fills[i].fillAmount == fills[i].maker.quantity
    ensures Lookup(Consume(terms, levels, q), fills[i].oix.price, fills[i].oix.memo) == None
  {
    var side := terms.MakerSide();
    var w, after := Walk(side, levels), Consume(terms, levels, q);
    var oix := fills[i].oix;
    PlanInWalk(terms, levels, q, fills);
    if Lookup(after, oix.price, oix.memo).Some? {
      var o := Lookup(after, oix.price, oix.memo).value;
      LookupAgreesWithWalk(side, after, oix.price, oix.memo, o);
      if o in w[|fills|..] {
        var j :| |fills| <= j < |w| && w[j] == o;
        IndexUnique(side, levels, i, j);
      } else {
        IndexUnique(side, levels, i, |fills| - 1);
      }
    }
  }

  /** A push leaves every index but the one it hands out as it was. */
  lemma PushLeavesOthers(levels: Levels, t: Order, after: Levels, price: NonZeroU32, memo: u32)
    requires LevelsOk(levels) && Push(levels, t) == Some(after)
    requires price != t.price || memo != NextMemo(levels, t.price)
    ensures Lookup(after, price, memo) == Lookup(levels, price, memo)
  {
    var k := PushAgreesWithWalk(Sell, levels, t);
    var w, pushed := Walk(Sell, levels), t.(memo := NextMemo(levels, t.price));
    assert forall o: Order :: o.price == price && o.memo == memo ==> (o in w <==> o in InsertAt(w, k, pushed)) by {
      forall o: Order | o.price == price && o.memo == memo
        ensures o in w <==> o in InsertAt(w, k, pushed)
      {
        assert w == w[..k] + w[k..];
      }
    }
    SameFinds(Sell, levels, after, price, memo);
  }

  /** A removal leaves every other index as it was. */
  lemma RemoveLeavesOthers(
      levels: Levels, oix: OrderIndex, after: Levels, price: NonZeroU32, memo: u32)
    requires LevelsOk(levels) && after == Remove(levels, oix.price, oix.memo).0
    requires price != oix.price || memo != oix.memo
    ensures Lookup(after, price, memo) == Lookup(levels, price, memo)
  {
    RemoveAgreesWithWalk(Sell, levels, oix.price, oix.memo);
    if Lookup(levels, oix.price, oix.memo).Some? {
      var k := PlaceInWalk(Sell, levels, oix.price, oix.memo);
      PlaceInWalkHolds(Sell, levels, oix.price, oix.memo);
      var w, gone := Walk(Sell, levels), Lookup(levels, oix.price, oix.memo).value;
      LookupAgreesWithWalk(Sell, levels, oix.price, oix.memo, gone);
      forall o: Order | o.price == price && o.memo == memo
        ensures o in w <==> o in RemoveAt(w, k)
      {
        assert w == w[..k] + [gone] + w[k + 1..];
      }
      SameFinds(Sell, levels, after, price, memo);
    }
  }

  /** A removed index denotes nothing. */
  lemma RemoveForgets(levels: Levels, price: NonZeroU32, memo: u32, after: Levels)
    requires LevelsOk(levels) && after == Remove(levels, price, memo).0
    ensures Lookup(after, price, memo) == None
  {
    RemoveAgreesWithWalk(Sell, levels, price, memo);
    if Lookup(levels, price, memo).Some? && Lookup(after, price, memo).Some? {
      var w, k := Walk(Sell, levels), PlaceInWalk(Sell, levels, price, memo);
      PlaceInWalkHolds(Sell, levels, price, memo);
      LookupAgreesWithWalk(Sell, levels, price, memo, w[k]);
      var o := Lookup(after, price, memo).value;
      LookupAgreesWithWalk(Sell, after, price, memo, o);
      var j :| 0 <= j < |RemoveAt(w, k)| && RemoveAt(w, k)[j] == o;
      IndexUnique(Sell, levels, k, if j < k then j else j + 1);
    }
  }

  /** Lists that agree on the orders under an index give the same lookup. */
  lemma SameFinds(side: OrderSide, a: Levels, b: Levels, price: NonZeroU32, memo: u32)
    requires LevelsOk(a) && LevelsOk(b)
    requires forall o: Order :: o.price == price && o.memo == memo ==> (o in Walk(side, a) <==> o in Walk(side, b))
    ensures Lookup(b, price, memo) == Lookup(a, price, memo)
  {
    if Lookup(a, price, memo).Some? {
      LookupAgreesWithWalk(side, a, price, memo, Lookup(a, price, memo).value);
      LookupAgreesWithWalk(side, b, price, memo, Lookup(a, price, memo).value);
    } else if Lookup(b, price, memo).Some? {
      LookupAgreesWithWalk(side, a, price, memo, Lookup(b, price, memo).value);
      LookupAgreesWithWalk(side, b, price, memo, Lookup(b, price, memo).value);
    }
  }

  // ---------------------------------------------------------------------------
  // Indices across a placement
  // ---------------------------------------------------------------------------

  /** The amount that a plan takes from the order at `oix`. */
  function TakenFrom(fills: seq<MakerFill>, oix: OrderIndex): nat {
    if fills == [] then 0
    else (if fills[0].oix == oix then fills[0].fillAmount else 0) + TakenFrom(fills[1..], oix)
  }

  /** The first fill of the order at `oix`. */
  function FillAt(fills: seq<MakerFill>, oix: OrderIndex): (p: Option<nat>)
    ensures p.Some? ==> p.value < |fills| && fills[p.value].oix == oix
    ensures p.None? ==> forall i :: 0 <= i < |fills| ==> fills[i].oix != oix
  {
    if fills == [] then None
    else if fills[0].oix == oix then Some(0)
    else match FillAt(fills[1..], oix)
      case None => None
      case Some(i) => Some(i + 1)
  }

  lemma {:induction false} TakenFromNobody(fills: seq<MakerFill>, oix: OrderIndex)
    requires forall i :: 0 <= i < |fills| ==> fills[i].oix != oix
    ensures TakenFrom(fills, oix) == 0
  {
    if fills != [] {
      TakenFromNobody(fills[1..], oix);
    }
  }

  lemma {:induction false} TakenFromOne(fills: seq<MakerFill>, i: nat)
    requires i < |fills|
    requires forall j :: 0 <= j < |fills| && j != i ==> fills[j].oix != fills[i].oix
    ensures TakenFrom(fills, fills[i].oix) == fills[i].fillAmount
  {
    if i == 0 {
      TakenFromNobody(fills[1..], fills[0].oix);
    } else {
      TakenFromOne(fills[1..], i - 1);
    }
  }

  /** The order at `oix` with `amount` taken from it. */
  function Less(before: Option<Order>, amount: nat): Option<Order> {
    match before
    case None => None
    case Some(o) => if amount < o.quantity then Some(o.(quantity := o.quantity - amount)) else None
  }

  /** On the side that is traded with, every index denotes the same order less what the plan
      took from it; an order that is taken whole is gone. */
  lemma IndexAfterConsume(
      terms: Terms, levels: Levels, q: u32, fills: seq<MakerFill>, oix: OrderIndex)
    requires LevelsOk(levels) && oix.side == terms.MakerSide()
    requires fills == Plan(terms, Walk(terms.MakerSide(), levels), q)
    ensures Lookup(Consume(terms, levels, q), oix.price, oix.memo)
         == Less(Lookup(levels, oix.price, oix.memo), TakenFrom(fills, oix))
  {
    match FillAt(fills, oix)
    case Some(i) =>
      FilledIndexLoses(terms, levels, q, fills, i, oix);
    case None =>
      TakenFromNobody(fills, oix);
      UnfilledIndex(terms, levels, q, fills, oix.price, oix.memo);
  }

  lemma {:induction false} FilledIndexLoses(
      terms: Terms, levels: Levels, q: u32, fills: seq<MakerFill>, i: nat, oix: OrderIndex)
    requires LevelsOk(levels)
    requires fills == Plan(terms, Walk(terms.MakerSide(), levels), q)
    requires i < |fills| && fills[i].oix == oix
    ensures Lookup(Consume(terms, levels, q), oix.price, oix.memo)
         == Less(Lookup(levels, oix.price, oix.memo), TakenFrom(fills, oix))
  {
    TakenFromFilled(terms, levels, q, fills, i);
    FilledIndex(terms, levels, q, fills, i);
  }

  lemma TakenFromFilled(terms: Terms, levels: Levels, q: u32, fills: seq<MakerFill>, i: nat)
    requires LevelsOk(levels)
    requires fills == Plan(terms, Walk(terms.MakerSide(), levels), q)
    requires i < |fills|
    ensures TakenFrom(fills, fills[i].oix) == fills[i].fillAmount
  {
    FillsDistinct(terms, levels, q, fills, i);
    TakenFromOne(fills, i);
  }

  lemma FillsDistinct(terms: Terms, levels: Levels, q: u32, fills: seq<MakerFill>, i: nat)
    requires LevelsOk(levels)
    requires fills == Plan(terms, Walk(terms.MakerSide(), levels), q)
    requires i < |fills|
    ensures forall j :: 0 <= j < |fills| && j != i ==> fills[j].oix != fills[i].oix
  {
    PlanInWalk(terms, levels, q, fills);
    forall j | 0 <= j < |fills| && j != i ensures fills[j].oix != fills[i].oix {
      if fills[j].oix == fills[i].oix {
        IndexUnique(terms.MakerSide(), levels, i, j);
      }
    }
  }

  /** On the side that a placement trades with, an index denotes what it denoted, less what the
      plan took from it. */
  lemma IndexAcrossPlace(book: Book, o: PlaceOrder, after: Book, oix: OrderIndex)
    requires BookOk(book) && after == Place(book, o).0 && Place(book, o).1.Accepted?
    requires oix.side != o.side
    ensures LookupIn(after, oix) == Less(LookupIn(book, oix), TakenFrom(PlanFor(book, o.Wants(), o.quantity), oix))
  {
    var levels := book.On(oix.side);
    PlaceBySide(book, o);
    IndexAfterConsume(o.Wants(), levels, o.quantity, PlanFor(book, o.Wants(), o.quantity), oix);
  }

  /** On the side of the placed order every index denotes what it denoted, save the one handed
      out, which denotes the remainder and denoted nothing before. */
  lemma IndexBesidePlace(book: Book, o: PlaceOrder, after: Book, r: PlaceResult, oix: OrderIndex)
    requires BookOk(book) && after == Place(book, o).0 && r == Place(book, o).1 && r.Accepted?
    requires oix.side == o.side
    ensures r.orderIndex != Some(oix) ==> LookupIn(after, oix) == LookupIn(book, oix)
    ensures r.orderIndex == Some(oix) ==> LookupIn(book, oix) == None && r.remaining > 0
    ensures r.orderIndex == Some(oix) && r.remaining > 0 ==>
              LookupIn(after, oix) == Some(Order(oix.memo, r.remaining, o.price))
  {
    PlaceBySide(book, o);
    if r.orderIndex == Some(oix) {
      RemainderIsLast(book, o, after.On(o.side), r, oix);
    } else if r.orderIndex.Some? {
      var t := Order(U32_MAX, r.remaining, o.price);
      PushLeavesOthers(book.On(o.side), t, after.On(o.side), oix.price, oix.memo);
    }
  }

  /** An index that is live before and after a placement denotes the same order, of no greater
      quantity: no placement hands out the index of a live order or of one it removes. */
  lemma LiveIndexOnlyShrinks(book: Book, o: PlaceOrder, after: Book, oix: OrderIndex)
    requires BookOk(book) && after == Place(book, o).0 && !Place(book, o).1.Crashed?
    requires LookupIn(book, oix).Some? && LookupIn(after, oix).Some?
    ensures LookupIn(after, oix).value.quantity <= LookupIn(book, oix).value.quantity
    ensures LookupIn(after, oix).value
         == LookupIn(book, oix).value.(quantity := LookupIn(after, oix).value.quantity)
    ensures Place(book, o).1.Accepted? ==> Place(book, o).1.orderIndex != Some(oix)
  {
    PlaceOutcome(book, o);
    if Refused(o, Liquidity(book, o)) {
      PlaceRejects(book, o);
    } else if oix.side == o.side {
      IndexBesidePlace(book, o, after, Place(book, o).1, oix);
    } else {
      IndexAcrossPlace(book, o, after, oix);
      PlaceBySide(book, o);
    }
  }
}
