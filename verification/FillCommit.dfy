/** What committing a planned fill does to the book, and why a plan always commits. */
module FillCommit {
  import opened Types
  import opened BookModel
  import opened FillPlan

  // ---------------------------------------------------------------------------
  // Reference definition: consuming a side of the book from its best order onwards
  // ---------------------------------------------------------------------------

  /** The order that trades first. */
  function Best(side: OrderSide, levels: Levels): Order
    requires LevelsOk(levels) && levels != []
  {
    assert LevelOk(levels[BestAt(side, levels)]);
    levels[BestAt(side, levels)].orders[0]
  }

  /** The side without its best order. */
  function DropBest(side: OrderSide, levels: Levels): (after: Levels)
    requires LevelsOk(levels) && levels != []
    ensures LevelsOk(after)
  {
    var b := BestAt(side, levels);
    assert LevelOk(levels[b]);
    assert RemoveAt(levels[b].orders, 0) == levels[b].orders[1..];
    RemoveKeepsLevelsOk(levels, b, 0);
    SetOrders(levels, b, levels[b].orders[1..])
  }

  /** The side with only `quantity` left of its best order. */
  function ShrinkBest(side: OrderSide, levels: Levels, quantity: NonZeroU32): (after: Levels)
    requires LevelsOk(levels) && levels != []
    ensures LevelsOk(after)
  {
    var b := BestAt(side, levels);
    assert LevelOk(levels[b]);
    var queue := levels[b].orders;
    var shrunk := levels[b].(orders := queue[0 := queue[0].(quantity := quantity)]);
    ReplaceOk(levels, b, shrunk);
    levels[b := shrunk]
  }

  /** Takes `q` from the best orders of a side, as long as their price is acceptable. */
  function Consume(terms: Terms, levels: Levels, q: nat): (after: Levels)
    requires LevelsOk(levels)
    ensures LevelsOk(after)
    decreases q
  {
    var side := terms.MakerSide();
    if q == 0 || levels == [] || !terms.Accepts(Best(side, levels).price) then levels
    else
      var quantity := Best(side, levels).quantity;
      if quantity <= q then Consume(terms, DropBest(side, levels), q - quantity)
      else ShrinkBest(side, levels, quantity - q)
  }

  /** Giving the best level another queue changes only the head of the list. */
  lemma BestQueueLeads(side: OrderSide, levels: Levels, queue: seq<Order>)
    requires levels != []
    ensures levels[BestAt(side, levels)].orders <= Walk(side, levels)
    ensures Walk(side, SetOrders(levels, BestAt(side, levels), queue))
         == queue + Walk(side, levels)[|levels[BestAt(side, levels)].orders|..]
  {
    var b := BestAt(side, levels);
    var behind := Behind(side, levels, b, b + 1);
    WalkAround(side, levels, b);
    WalkSetOrders(side, levels, b, queue);
    assert Ahead(side, levels, b, b + 1) == [];
    NothingAhead(levels[b].orders, behind);
    NothingAhead(queue, behind);
  }

  lemma NothingAhead<T>(queue: seq<T>, behind: seq<T>)
    ensures [] + queue + behind == queue + behind
    ensures queue <= queue + behind && (queue + behind)[|queue|..] == behind
  {
  }

  /** The best order heads the list. */
  lemma BestLeads(side: OrderSide, levels: Levels)
    requires LevelsOk(levels) && levels != []
    ensures Walk(side, levels) != [] && Walk(side, levels)[0] == Best(side, levels)
  {
    BestQueueLeads(side, levels, []);
  }

  lemma DropBestInWalk(side: OrderSide, levels: Levels)
    requires LevelsOk(levels) && levels != [] && Walk(side, levels) != []
    ensures Walk(side, DropBest(side, levels)) == Walk(side, levels)[1..]
  {
    var b := BestAt(side, levels);
    assert LevelOk(levels[b]);
    BestQueueLeads(side, levels, levels[b].orders[1..]);
  }

  lemma ShrinkBestInWalk(side: OrderSide, levels: Levels, quantity: NonZeroU32)
    requires LevelsOk(levels) && levels != [] && Walk(side, levels) != []
    ensures Walk(side, ShrinkBest(side, levels, quantity))
         == [Best(side, levels).(quantity := quantity)] + Walk(side, levels)[1..]
  {
    var b := BestAt(side, levels);
    assert LevelOk(levels[b]);
    BestQueueLeads(side, levels, levels[b].orders[0 := levels[b].orders[0].(quantity := quantity)]);
  }

  /** The index of the best order removes the best order. */
  lemma RemoveBest(side: OrderSide, levels: Levels)
    requires LevelsOk(levels) && levels != []
    ensures var best := Best(side, levels);
            && Lookup(levels, best.price, best.memo) == Some(best)
            && Remove(levels, best.price, best.memo).0 == DropBest(side, levels)
            && Remove(levels, best.price, best.memo).1 == Some(best)
  {
    var b := BestAt(side, levels);
    assert LevelOk(levels[b]);
    SlotAddressed(levels, b, 0);
    assert RemoveAt(levels[b].orders, 0) == levels[b].orders[1..];
  }

  /** The index of the best order shrinks the best order. */
  lemma SetBestQuantity(side: OrderSide, levels: Levels, quantity: NonZeroU32)
    requires LevelsOk(levels) && levels != []
    ensures var best := Best(side, levels);
            SetQuantity(levels, best.price, best.memo, quantity) == ShrinkBest(side, levels, quantity)
  {
    var b := BestAt(side, levels);
    assert LevelOk(levels[b]);
    RankAt(levels, b);
    PositionAt(levels[b], 0);
  }

  /** What can be done to a best order that has shrunk could have been done before. */
  lemma ShrinkThen(side: OrderSide, levels: Levels, first: NonZeroU32, second: NonZeroU32)
    requires LevelsOk(levels) && levels != []
    ensures var shrunk := ShrinkBest(side, levels, first);
            && Best(side, shrunk) == Best(side, levels).(quantity := first)
            && DropBest(side, shrunk) == DropBest(side, levels)
            && ShrinkBest(side, shrunk, second) == ShrinkBest(side, levels, second)
  {
    var b := BestAt(side, levels);
    assert LevelOk(levels[b]);
    var shrunk := ShrinkBest(side, levels, first);
    assert shrunk[b].orders[1..] == levels[b].orders[1..];
    var queue, queue' := levels[b].orders, shrunk[b].orders;
    assert queue'[0 := queue'[0].(quantity := second)] == queue[0 := queue[0].(quantity := second)];
  }

  /** The list after taking `q` greedily from its acceptable head. */
  function Taken(terms: Terms, orders: seq<Order>, q: nat): seq<Order> {
    Greedy(orders[..Reach(terms, orders)], q) + orders[Reach(terms, orders)..]
  }

  lemma TakenStep(terms: Terms, orders: seq<Order>, q: nat)
    ensures (q == 0 || orders == [] || !terms.Accepts(orders[0].price)) ==> Taken(terms, orders, q) == orders
    ensures q != 0 && orders != [] && terms.Accepts(orders[0].price) ==>
              Taken(terms, orders, q)
              == if orders[0].quantity <= q then Taken(terms, orders[1..], q - orders[0].quantity)
                 else [orders[0].(quantity := orders[0].quantity - q)] + orders[1..]
  {
    var n := Reach(terms, orders);
    var head := orders[..n];
    assert orders == head + orders[n..];
    if n > 0 && q != 0 {
      assert head[1..] == orders[1..][..n - 1];
      assert orders[1..][n - 1..] == orders[n..];
      assert orders[1..] == head[1..] + orders[n..];
    }
  }

  /** Consuming a side is taking greedily from the acceptable head of its list and leaving
      the rest of the list alone. */
  lemma {:induction false} ConsumeInWalk(terms: Terms, levels: Levels, q: nat)
    requires LevelsOk(levels)
    ensures Walk(terms.MakerSide(), Consume(terms, levels, q)) == Taken(terms, Walk(terms.MakerSide(), levels), q)
    decreases q
  {
    var side := terms.MakerSide();
    var w := Walk(side, levels);
    if levels != [] {
      BestLeads(side, levels);
    }
    TakenStep(terms, w, q);
    if q != 0 && levels != [] && terms.Accepts(w[0].price) {
      if w[0].quantity <= q {
        DropBestInWalk(side, levels);
        ConsumeInWalk(terms, DropBest(side, levels), q - w[0].quantity);
      } else {
        ShrinkBestInWalk(side, levels, w[0].quantity - q);
      }
    }
  }

  /** Every level of `after` is a level of `before`, with the same memo counter. */
  ghost predicate CountersKept(before: Levels, after: Levels) {
    forall l :: l in after ==> exists k :: k in before && k.price == l.price && k.memoSeq == l.memoSeq
  }

  /** Consuming makes no level and touches no memo counter. */
  lemma {:induction false} ConsumeKeepsCounters(terms: Terms, levels: Levels, q: nat)
    requires LevelsOk(levels)
    ensures CountersKept(levels, Consume(terms, levels, q))
    decreases q
  {
    var side := terms.MakerSide();
    if q != 0 && levels != [] && terms.Accepts(Best(side, levels).price) {
      var quantity := Best(side, levels).quantity;
      if quantity <= q {
        ConsumeKeepsCounters(terms, DropBest(side, levels), q - quantity);
        SetOrdersKeepsCounters(levels, BestAt(side, levels), levels[BestAt(side, levels)].orders[1..]);
      }
    }
  }

  lemma SetOrdersKeepsCounters(levels: Levels, i: nat, queue: seq<Order>)
    requires i < |levels|
    ensures CountersKept(levels, SetOrders(levels, i, queue))
  {
    var after := SetOrders(levels, i, queue);
    forall k | 0 <= k < |after|
      ensures exists l :: l in levels && l.price == after[k].price && l.memoSeq == after[k].memoSeq
    {
      var l := levels[if queue == [] && k >= i then k + 1 else k];
      assert l in levels && l.price == after[k].price && l.memoSeq == after[k].memoSeq;
    }
  }

  /** Consuming in two goes is consuming once. */
  lemma {:induction false} ConsumeTwice(terms: Terms, levels: Levels, q1: nat, q2: nat, q: nat)
    requires LevelsOk(levels) && q == q1 + q2
    ensures Consume(terms, Consume(terms, levels, q1), q2) == Consume(terms, levels, q)
    decreases q1
  {
    var side := terms.MakerSide();
    if q1 == 0 {
    } else if levels == [] || !terms.Accepts(Best(side, levels).price) {
    } else {
      var quantity := Best(side, levels).quantity;
      if quantity <= q1 {
        var next, left1, left := DropBest(side, levels), q1 - quantity, q - quantity;
        ConsumeDrop(terms, levels, q1, next, left1);
        ConsumeDrop(terms, levels, q, next, left);
        ConsumeTwice(terms, next, left1, q2, left);
      } else {
        var left := quantity - q1;
        ConsumeAfterShrink(terms, levels, left, q2, q);
      }
    }
  }

  lemma ConsumeDrop(terms: Terms, levels: Levels, q: nat, next: Levels, left: nat)
    requires LevelsOk(levels) && levels != [] && next == DropBest(terms.MakerSide(), levels)
    requires terms.Accepts(Best(terms.MakerSide(), levels).price)
    requires q == Best(terms.MakerSide(), levels).quantity + left
    ensures Consume(terms, levels, q) == Consume(terms, next, left)
  {
  }

  /** Consuming a side whose best order has already shrunk to `left`. */
  lemma ConsumeAfterShrink(terms: Terms, levels: Levels, left: NonZeroU32, q: nat, all: nat)
    requires LevelsOk(levels) && levels != []
    requires terms.Accepts(Best(terms.MakerSide(), levels).price)
    requires left < Best(terms.MakerSide(), levels).quantity
    requires all == Best(terms.MakerSide(), levels).quantity - left + q
    ensures Consume(terms, ShrinkBest(terms.MakerSide(), levels, left), q) == Consume(terms, levels, all)
  {
    var second := if q < left then left - q else 1;
    ShrinkThen(terms.MakerSide(), levels, left, second);
  }

  // ---------------------------------------------------------------------------
  // The commit, step by step
  // ---------------------------------------------------------------------------

  function LookupIn(book: Book, oix: OrderIndex): Option<Order> {
    Lookup(book.On(oix.side), oix.price, oix.memo)
  }

  function RemoveFrom(book: Book, oix: OrderIndex): (Book, Option<Order>) {
    var (levels, order) := Remove(book.On(oix.side), oix.price, oix.memo);
    (book.With(oix.side, levels), order)
  }

  function SetQuantityIn(book: Book, oix: OrderIndex, quantity: NonZeroU32): Book {
    book.With(oix.side, SetQuantity(book.On(oix.side), oix.price, oix.memo, quantity))
  }

  /** The check loop: the first fill whose maker is not in the book. */
  function FirstMissing(book: Book, fills: seq<MakerFill>): Option<OrderIndex> {
    if fills == [] then None
    else if LookupIn(book, fills[0].oix).None? then Some(fills[0].oix)
    else FirstMissing(book, fills[1..])
  }

  /** How far the execution loop got: through every fill, to an index that addresses nothing,
      or to a failed assertion. */
  datatype Progress = Left(rem: u32) | Missing(oix: OrderIndex) | Broken

  /** One round of the execution loop: a complete fill removes its maker, a partial fill shrinks
      it and leaves nothing to fill. */
  function ExecuteOne(book: Book, fill: MakerFill, rem: u32): (Book, Progress) {
    match fill.fillType
    case Complete =>
      var (after, order) := RemoveFrom(book, fill.oix);
      if order.None? then (after, Missing(fill.oix))
      else if order.value != fill.maker || rem < fill.maker.quantity then (after, Broken)
      else (after, Left(rem - fill.maker.quantity))
    case Partial =>
      var order := LookupIn(book, fill.oix);
      if order.None? then (book, Missing(fill.oix))
      else if order.value != fill.maker || rem >= fill.maker.quantity then (book, Broken)
      else (SetQuantityIn(book, fill.oix, fill.maker.quantity - rem), Left(0))
    case Unfilled => (book, Broken)
  }

  lemma RemoveOne(book: Book, fill: MakerFill, rem: u32, left: u32)
    requires fill.fillType == Complete && RemoveFrom(book, fill.oix).1 == Some(fill.maker)
    requires rem == fill.maker.quantity + left
    ensures ExecuteOne(book, fill, rem).0 == RemoveFrom(book, fill.oix).0
    ensures ExecuteOne(book, fill, rem).1 == Left(left)
  {
  }

  lemma ShrinkOne(book: Book, fill: MakerFill, rem: u32, less: NonZeroU32)
    requires fill.fillType == Partial && LookupIn(book, fill.oix) == Some(fill.maker)
    requires less == fill.maker.quantity - rem
    ensures ExecuteOne(book, fill, rem).0 == SetQuantityIn(book, fill.oix, less)
    ensures ExecuteOne(book, fill, rem).1 == Left(0)
  {
  }

  /** The execution loop. */
  function Execute(book: Book, fills: seq<MakerFill>, rem: u32): (Book, Progress)
    decreases |fills|
  {
    if fills == [] then (book, Left(rem))
    else
      var (after, progress) := ExecuteOne(book, fills[0], rem);
      if progress.Left? then Execute(after, fills[1..], progress.rem) else (after, progress)
  }

  lemma ExecuteUnfolds(book: Book, fills: seq<MakerFill>, rem: u32, after: Book, progress: Progress)
    requires fills != []
    requires after == ExecuteOne(book, fills[0], rem).0 && progress == ExecuteOne(book, fills[0], rem).1
    ensures progress.Left? ==> Execute(book, fills, rem) == Execute(after, fills[1..], progress.rem)
    ensures !progress.Left? ==> Execute(book, fills, rem) == (after, progress)
  {
  }

  /** Nothing is missing when every maker is found. */
  lemma {:induction false} NoneMissing(book: Book, fills: seq<MakerFill>)
    requires forall i :: 0 <= i < |fills| ==> LookupIn(book, fills[i].oix).Some?
    ensures FirstMissing(book, fills) == None
  {
    if fills != [] {
      NoneMissing(book, fills[1..]);
    }
  }

  /** The check loop looks one fill further. */
  lemma FirstMissingFrom(book: Book, fills: seq<MakerFill>, k: nat)
    requires k < |fills|
    ensures LookupIn(book, fills[k].oix).Some? ==> FirstMissing(book, fills[k..]) == FirstMissing(book, fills[k + 1..])
    ensures LookupIn(book, fills[k].oix).None? ==> FirstMissing(book, fills[k..]) == Some(fills[k].oix)
  {
    assert fills[k..][1..] == fills[k + 1..];
  }

  /** `Panicked` stands for a failed assertion or an unsigned subtraction below zero. */
  datatype CommitResult =
    | Committed(fillType: FillType, rest: Option<Order>)
    | InvalidOrderIndex(oix: OrderIndex)
    | Panicked

  /** The closing assertions: what the outcome says about the quantity left over. */
  predicate OutcomeMatches(outcome: FillType, quantity: NonZeroU32, left: u32) {
    match outcome
    case Complete => left == 0
    case Partial => quantity > left
    case Unfilled => left == quantity
  }

  function Remainder(taker: Order, left: u32): Option<Order> {
    if left == 0 then None else Some(taker.(quantity := left))
  }

  function Conclude(taker: Order, outcome: FillType, progress: Progress): CommitResult {
    match progress
    case Missing(oix) => InvalidOrderIndex(oix)
    case Broken => Panicked
    case Left(left) =>
      if OutcomeMatches(outcome, taker.quantity, left)
      then Committed(outcome, Remainder(taker, left))
      else Panicked
  }

  function Commit(book: Book, taker: Order, fills: seq<MakerFill>, outcome: FillType): (Book, CommitResult) {
    match FirstMissing(book, fills)
    case Some(oix) => (book, InvalidOrderIndex(oix))
    case None =>
      var (after, progress) := Execute(book, fills, taker.quantity);
      (after, Conclude(taker, outcome, progress))
  }

  // ---------------------------------------------------------------------------
  // A plan always commits
  // ---------------------------------------------------------------------------

  /** The plan for a book: the fills of its maker side, best first. */
  function PlanFor(book: Book, terms: Terms, quantity: u32): seq<MakerFill> {
    Plan(terms, Walk(terms.MakerSide(), book.On(terms.MakerSide())), quantity)
  }

  /** The book with its maker side consumed. */
  function ConsumeIn(book: Book, terms: Terms, quantity: nat): (after: Book)
    requires BookOk(book)
    ensures BookOk(after)
  {
    book.With(terms.MakerSide(), Consume(terms, book.On(terms.MakerSide()), quantity))
  }

  lemma {:induction false} PlannedMakersListed(terms: Terms, orders: seq<Order>, rem: u32)
    ensures forall i :: 0 <= i < |Plan(terms, orders, rem)| ==>
              var fill := Plan(terms, orders, rem)[i];
              fill.maker in orders && fill.oix == IndexOf(terms.MakerSide(), fill.maker)
  {
    if rem != 0 && orders != [] {
      if terms.Accepts(orders[0].price) {
        PlannedMakersListed(terms, orders[1..], rem - FillOf(terms, orders[0], rem).fillAmount);
      } else {
        PlannedMakersListed(terms, orders[1..], rem);
      }
    }
  }

  lemma PlannedMakersFound(book: Book, terms: Terms, quantity: u32)
    requires BookOk(book)
    ensures FirstMissing(book, PlanFor(book, terms, quantity)) == None
  {
    var side := terms.MakerSide();
    var fills := PlanFor(book, terms, quantity);
    PlannedMakersListed(terms, Walk(side, book.On(side)), quantity);
    forall i | 0 <= i < |fills| ensures LookupIn(book, fills[i].oix).Some? {
      ListedIsFound(side, book.On(side), fills[i].maker);
    }
    NoneMissing(book, fills);
  }

  /** Whether the taker meets a maker it accepts. */
  predicate HasMaker(book: Book, terms: Terms)
    requires BookOk(book)
  {
    var levels := book.On(terms.MakerSide());
    levels != [] && terms.Accepts(Best(terms.MakerSide(), levels).price)
  }

  /** The maker that the taker meets first. */
  function BestIn(book: Book, terms: Terms): Order
    requires BookOk(book) && HasMaker(book, terms)
  {
    Best(terms.MakerSide(), book.On(terms.MakerSide()))
  }

  function DropBestIn(book: Book, terms: Terms): (after: Book)
    requires BookOk(book) && HasMaker(book, terms)
    ensures BookOk(after)
  {
    book.With(terms.MakerSide(), DropBest(terms.MakerSide(), book.On(terms.MakerSide())))
  }

  /** Executing the plan of a book consumes its maker side, although each fill is found again
      by index in a book that the fills before it have changed. */
  lemma {:induction false} ExecutePlan(book: Book, terms: Terms, rem: u32, fills: seq<MakerFill>) returns (left: u32)
    requires BookOk(book)
    requires fills == PlanFor(book, terms, rem)
    ensures Filled(fills) + left == rem
    ensures Execute(book, fills, rem).0 == ConsumeIn(book, terms, rem)
    ensures Execute(book, fills, rem).1 == Left(left)
    decreases rem
  {
    if rem == 0 || !HasMaker(book, terms) {
      NothingPlanned(book, terms, rem, fills);
      left := rem;
    } else if BestIn(book, terms).quantity <= rem {
      var rest, next, later := PlanHeadComplete(book, terms, rem, fills);
      left := ExecutePlan(next, terms, rest, later);
    } else {
      PlanHeadPartial(book, terms, rem, fills);
      left := 0;
    }
  }

  lemma NothingPlanned(book: Book, terms: Terms, rem: u32, fills: seq<MakerFill>)
    requires BookOk(book)
    requires fills == PlanFor(book, terms, rem)
    requires rem == 0 || !HasMaker(book, terms)
    ensures fills == [] && Filled(fills) == 0
    ensures Execute(book, fills, rem).0 == ConsumeIn(book, terms, rem) == book
    ensures Execute(book, fills, rem).1 == Left(rem)
  {
    var side := terms.MakerSide();
    var levels := book.On(side);
    if levels != [] {
      BestLeads(side, levels);
      WalkInPriorityOrder(side, levels);
      PlanIsPrefix(terms, Walk(side, levels), rem);
    }
    assert fills == [];
  }

  /** A first maker that is taken whole: its fill is executed, and what is left is the same
      situation with a smaller book and a smaller quantity. */
  lemma PlanHeadComplete(book: Book, terms: Terms, rem: NonZeroU32, fills: seq<MakerFill>)
    returns (left: u32, next: Book, later: seq<MakerFill>)
    requires BookOk(book) && HasMaker(book, terms) && BestIn(book, terms).quantity <= rem
    requires fills == PlanFor(book, terms, rem)
    ensures BookOk(next) && left < rem
    ensures later == PlanFor(next, terms, left)
    ensures Filled(fills) == rem - left + Filled(later)
    ensures Execute(book, fills, rem) == Execute(next, later, left)
    ensures ConsumeIn(book, terms, rem) == ConsumeIn(next, terms, left)
  {
    var side := terms.MakerSide();
    var best := BestIn(book, terms);
    left, next := rem - best.quantity, DropBestIn(book, terms);
    later := PlanFor(next, terms, left);
    var fill := MakerFill(IndexOf(side, best), best, Complete, best.quantity);
    PlanHead(book, terms, rem, fill, left, fills, later);
    RemoveBestIn(book, terms);
    ExecuteHead(book, rem, fill, left, later, next);
    ConsumeHead(book, terms, rem, left, next);
  }

  lemma PlanHead(
      book: Book, terms: Terms, rem: u32, fill: MakerFill, left: u32, fills: seq<MakerFill>, later: seq<MakerFill>)
    requires BookOk(book) && HasMaker(book, terms) && rem == BestIn(book, terms).quantity + left
    requires fills == PlanFor(book, terms, rem)
    requires later == PlanFor(DropBestIn(book, terms), terms, left)
    requires fill.oix == IndexOf(terms.MakerSide(), BestIn(book, terms)) && fill.maker == BestIn(book, terms)
    requires fill.fillType == Complete && fill.fillAmount == fill.maker.quantity
    ensures fills == [fill] + later
  {
    var side := terms.MakerSide();
    BestLeads(side, book.On(side));
    DropBestInWalk(side, book.On(side));
    PlanCons(terms, Walk(side, book.On(side)), rem, fill, left);
  }

  lemma PlanCons(terms: Terms, orders: seq<Order>, rem: NonZeroU32, fill: MakerFill, left: u32)
    requires orders != [] && terms.Accepts(orders[0].price) && rem == orders[0].quantity + left
    requires fill == MakerFill(IndexOf(terms.MakerSide(), orders[0]), orders[0], Complete, orders[0].quantity)
    ensures Plan(terms, orders, rem) == [fill] + Plan(terms, orders[1..], left)
  {
  }

  lemma ExecuteHead(book: Book, rem: u32, fill: MakerFill, left: u32, later: seq<MakerFill>, next: Book)
    requires fill.fillType == Complete && fill.fillAmount == fill.maker.quantity && rem == fill.fillAmount + left
    requires RemoveFrom(book, fill.oix).0 == next && RemoveFrom(book, fill.oix).1 == Some(fill.maker)
    ensures Filled([fill] + later) == fill.fillAmount + Filled(later)
    ensures Execute(book, [fill] + later, rem) == Execute(next, later, left)
  {
    var fills := [fill] + later;
    assert fills[1..] == later;
    RemoveOne(book, fill, rem, left);
    ExecuteUnfolds(book, fills, rem, next, Left(left));
  }

  lemma ConsumeHead(book: Book, terms: Terms, rem: NonZeroU32, left: u32, next: Book)
    requires BookOk(book) && HasMaker(book, terms)
    requires rem == BestIn(book, terms).quantity + left && next == DropBestIn(book, terms)
    ensures ConsumeIn(book, terms, rem) == ConsumeIn(next, terms, left)
  {
    ConsumeDrop(terms, book.On(terms.MakerSide()), rem, next.On(terms.MakerSide()), left);
  }

  lemma RemoveBestIn(book: Book, terms: Terms)
    requires BookOk(book) && HasMaker(book, terms)
    ensures RemoveFrom(book, IndexOf(terms.MakerSide(), BestIn(book, terms))).0 == DropBestIn(book, terms)
    ensures RemoveFrom(book, IndexOf(terms.MakerSide(), BestIn(book, terms))).1 == Some(BestIn(book, terms))
  {
    RemoveBest(terms.MakerSide(), book.On(terms.MakerSide()));
  }

  lemma PlanHeadPartial(book: Book, terms: Terms, rem: NonZeroU32, fills: seq<MakerFill>)
    requires BookOk(book) && HasMaker(book, terms) && rem < BestIn(book, terms).quantity
    requires fills == PlanFor(book, terms, rem)
    ensures Filled(fills) == rem
    ensures Execute(book, fills, rem).0 == ConsumeIn(book, terms, rem)
    ensures Execute(book, fills, rem).1 == Left(0)
  {
    var side := terms.MakerSide();
    var levels := book.On(side);
    var best := BestIn(book, terms);
    BestLeads(side, levels);
    RemoveBest(side, levels);
    SetBestQuantity(side, levels, best.quantity - rem);
    var fill := MakerFill(IndexOf(side, best), best, Partial, rem);
    assert Plan(terms, Walk(side, levels)[1..], 0) == [];
    assert fills == [fill];
    assert [fill][1..] == [];
  }

  /** On the valid book it was made from, a plan commits: no index is invalid, no assertion
      fails and nothing underflows; the maker side is consumed, the other side is untouched,
      and the taker is left with what was not filled. */
  lemma PlanAlwaysCommits(
      book: Book, taker: Order, terms: Terms, fills: seq<MakerFill>, outcome: FillType) returns (left: u32)
    requires BookOk(book)
    requires fills == PlanFor(book, terms, taker.quantity)
    requires outcome == OutcomeOf(fills, taker.quantity)
    ensures Filled(fills) + left == taker.quantity
    ensures Commit(book, taker, fills, outcome).0 == ConsumeIn(book, terms, taker.quantity)
    ensures Commit(book, taker, fills, outcome).1 == Committed(outcome, Remainder(taker, left))
  {
    PlannedMakersFound(book, terms, taker.quantity);
    left := ExecutePlan(book, terms, taker.quantity, fills);
    OutcomeOfPlanMatches(book, terms, taker.quantity, fills, left);
    CommitConcludes(book, taker, fills, outcome, ConsumeIn(book, terms, taker.quantity), left);
  }

  lemma CommitOf(
      book: Book, taker: Order, fills: seq<MakerFill>, outcome: FillType, after: Book, progress: Progress)
    requires FirstMissing(book, fills) == None
    requires Execute(book, fills, taker.quantity).0 == after
    requires Execute(book, fills, taker.quantity).1 == progress
    ensures Commit(book, taker, fills, outcome).0 == after
    ensures Commit(book, taker, fills, outcome).1 == Conclude(taker, outcome, progress)
  {
  }

  lemma CommitConcludes(
      book: Book, taker: Order, fills: seq<MakerFill>, outcome: FillType, after: Book, left: u32)
    requires FirstMissing(book, fills) == None
    requires Execute(book, fills, taker.quantity).0 == after
    requires Execute(book, fills, taker.quantity).1 == Left(left)
    requires OutcomeMatches(outcome, taker.quantity, left)
    ensures Commit(book, taker, fills, outcome).0 == after
    ensures Commit(book, taker, fills, outcome).1 == Committed(outcome, Remainder(taker, left))
  {
  }

  lemma OutcomeOfPlanMatches(
      book: Book, terms: Terms, quantity: NonZeroU32, fills: seq<MakerFill>, left: u32)
    requires fills == PlanFor(book, terms, quantity) && Filled(fills) + left == quantity
    ensures OutcomeMatches(OutcomeOf(fills, quantity), quantity, left)
  {
    var orders := Walk(terms.MakerSide(), book.On(terms.MakerSide()));
    PlanFillsWhatItCan(terms, orders, quantity);
    PlanEmptyIffNothingEligible(terms, orders, quantity);
    EligibleTotalBound(terms, orders);
  }
}
