/** What a commit makes of any fills, planned or not: when it succeeds, when it reports an invalid
    index, and when an assertion fails. */
module CommitLaws {
  import opened Types
  import opened BookModel
  import opened FillPlan
  import opened FillCommit
  import opened IndexLaws

  /** Writing a quantity through an index changes what that index denotes and nothing else. */
  lemma {:induction false} SetQuantityLeavesOthers(
      levels: Levels, oix: OrderIndex, quantity: NonZeroU32, price: NonZeroU32, memo: u32)
    requires LevelsOk(levels) && Lookup(levels, oix.price, oix.memo).Some?
    requires price != oix.price || memo != oix.memo
    ensures LevelsOk(SetQuantity(levels, oix.price, oix.memo, quantity))
    ensures Lookup(SetQuantity(levels, oix.price, oix.memo, quantity), price, memo) == Lookup(levels, price, memo)
  {
    var i := Rank(levels, oix.price);
    var j := Position(levels[i].orders, oix.memo).value;
    var orders := levels[i].orders[j := levels[i].orders[j].(quantity := quantity)];
    var l := levels[i].(orders := orders);
    var after := levels[i := l];
    assert LevelOk(levels[i]);
    assert LevelOk(l);
    ReplaceOk(levels, i, l);
    RanksAgree(levels, after, price);
    if price == oix.price {
      SlotsAgree(levels[i].orders, orders, j, memo);
    }
  }

  lemma {:induction false} RanksAgree(levels: Levels, after: Levels, price: NonZeroU32)
    requires |after| == |levels| && forall k :: 0 <= k < |levels| ==> after[k].price == levels[k].price
    ensures Rank(after, price) == Rank(levels, price)
    ensures HasLevel(after, price) <==> HasLevel(levels, price)
  {
    if levels != [] && levels[0].price < price {
      RanksAgree(levels[1..], after[1..], price);
    }
  }

  lemma SlotsAgree(orders: seq<Order>, after: seq<Order>, j: nat, memo: u32)
    requires |after| == |orders| && forall k :: 0 <= k < |orders| ==> after[k].memo == orders[k].memo
    requires j < |orders| && orders[j].memo != memo
    requires forall k :: 0 <= k < |orders| && k != j ==> after[k] == orders[k]
    ensures Position(after, memo).Some? <==> Position(orders, memo).Some?
    ensures Position(after, memo).Some? ==>
              after[Position(after, memo).value] == orders[Position(orders, memo).value]
  {
  }

  /** No two fills are of the same maker. */
  ghost predicate Distinct(fills: seq<MakerFill>) {
    forall i, j :: 0 <= i < j < |fills| ==> fills[i].oix != fills[j].oix
  }

  /** Every maker rests in the book just as the fill recorded it. */
  ghost predicate AsRecorded(book: Book, fills: seq<MakerFill>) {
    forall i :: 0 <= i < |fills| ==> LookupIn(book, fills[i].oix) == Some(fills[i].maker)
  }

  /** What one fill leaves of `rem`, if its quantity fits: a maker that is taken whole must not
      exceed what is left, a maker that is filled in part must, and takes all of it. */
  function LeftBy(fill: MakerFill, rem: u32): Option<u32> {
    match fill.fillType
    case Complete => if fill.maker.quantity <= rem then Some(rem - fill.maker.quantity) else None
    case Partial => if rem < fill.maker.quantity then Some(0) else None
    case Unfilled => None
  }

  /** What the fills leave of `rem`, if all their quantities fit. */
  function Rundown(fills: seq<MakerFill>, rem: u32): Option<u32> {
    if fills == [] then Some(rem)
    else match LeftBy(fills[0], rem)
      case None => None
      case Some(left) => Rundown(fills[1..], left)
  }

  lemma {:induction false} ShrinkLeavesOthers(book: Book, at: OrderIndex, quantity: NonZeroU32, oix: OrderIndex)
    requires BookOk(book) && LookupIn(book, at).Some? && oix != at
    ensures BookOk(SetQuantityIn(book, at, quantity))
    ensures LookupIn(SetQuantityIn(book, at, quantity), oix) == LookupIn(book, oix)
  {
    var levels := book.On(at.side);
    if oix.side == at.side {
      SetQuantityLeavesOthers(levels, at, quantity, oix.price, oix.memo);
    } else {
      var memo := if at.memo == 0 then 1 else 0;
      SetQuantityLeavesOthers(levels, at, quantity, at.price, memo);
    }
  }

  lemma {:induction false} RemovalLeavesOthers(book: Book, at: OrderIndex, oix: OrderIndex)
    requires BookOk(book) && LookupIn(book, at).Some? && oix != at
    ensures BookOk(RemoveFrom(book, at).0)
    ensures LookupIn(RemoveFrom(book, at).0, oix) == LookupIn(book, oix)
  {
    var levels := book.On(at.side);
    RemoveAgreesWithWalk(Sell, levels, at.price, at.memo);
    if oix.side == at.side {
      RemoveLeavesOthers(levels, at, Remove(levels, at.price, at.memo).0, oix.price, oix.memo);
    }
  }

  /** What a round does to the book, if it does anything. */
  lemma RoundDoes(book: Book, fill: MakerFill, rem: u32, less: NonZeroU32)
    requires rem < fill.maker.quantity ==> less == fill.maker.quantity - rem
    ensures || ExecuteOne(book, fill, rem).0 == book
            || ExecuteOne(book, fill, rem).0 == RemoveFrom(book, fill.oix).0
            || ExecuteOne(book, fill, rem).0 == SetQuantityIn(book, fill.oix, less)
  {
    if fill.fillType == Partial && LookupIn(book, fill.oix) == Some(fill.maker) && rem < fill.maker.quantity {
      ShrinkOne(book, fill, rem, less);
    }
  }

  /** One round leaves every other index as it was. */
  lemma {:induction false} RoundLeavesOthers(book: Book, fill: MakerFill, rem: u32, oix: OrderIndex)
    requires BookOk(book) && LookupIn(book, fill.oix).Some? && oix != fill.oix
    ensures BookOk(ExecuteOne(book, fill, rem).0)
    ensures LookupIn(ExecuteOne(book, fill, rem).0, oix) == LookupIn(book, oix)
  {
    var less: NonZeroU32 := if rem < fill.maker.quantity then fill.maker.quantity - rem else 1;
    RoundDoes(book, fill, rem, less);
    RemovalLeavesOthers(book, fill.oix, oix);
    ShrinkLeavesOthers(book, fill.oix, less, oix);
  }

  lemma RecordsCons(book: Book, fills: seq<MakerFill>)
    requires fills != []
    ensures AsRecorded(book, fills)
       <==> LookupIn(book, fills[0].oix) == Some(fills[0].maker) && AsRecorded(book, fills[1..])
  {
    if AsRecorded(book, fills[1..]) && LookupIn(book, fills[0].oix) == Some(fills[0].maker) {
      forall i | 0 <= i < |fills| ensures LookupIn(book, fills[i].oix) == Some(fills[i].maker) {
        assert i > 0 ==> fills[i] == fills[1..][i - 1];
      }
    }
  }

  lemma RoundIff(book: Book, fill: MakerFill, rem: u32, progress: Progress)
    requires LookupIn(book, fill.oix).Some? && BookOk(book)
    requires progress == ExecuteOne(book, fill, rem).1
    ensures progress
         == if LookupIn(book, fill.oix) != Some(fill.maker) || LeftBy(fill, rem).None? then Broken
            else Left(LeftBy(fill, rem).value)
  {
    RemoveAgreesWithWalk(Sell, book.On(fill.oix.side), fill.oix.price, fill.oix.memo);
  }

  lemma {:induction false} RoundKeepsRecords(
      book: Book, fill: MakerFill, rem: u32, after: Book, later: seq<MakerFill>)
    requires BookOk(book) && LookupIn(book, fill.oix).Some? && after == ExecuteOne(book, fill, rem).0
    requires forall i :: 0 <= i < |later| ==> later[i].oix != fill.oix
    ensures BookOk(after)
    ensures forall i :: 0 <= i < |later| ==> LookupIn(after, later[i].oix) == LookupIn(book, later[i].oix)
    ensures AsRecorded(after, later) <==> AsRecorded(book, later)
  {
    var memo := if fill.oix.memo == 0 then 1 else 0;
    RoundLeavesOthers(book, fill, rem, fill.oix.(memo := memo));
    forall i | 0 <= i < |later| ensures LookupIn(after, later[i].oix) == LookupIn(book, later[i].oix) {
      RoundLeavesOthers(book, fill, rem, later[i].oix);
    }
  }

  /** How far fills get whose makers are all in the book. */
  ghost function Expected(book: Book, fills: seq<MakerFill>, rem: u32): Progress {
    if !AsRecorded(book, fills) then Broken
    else match Rundown(fills, rem)
      case None => Broken
      case Some(left) => Left(left)
  }

  lemma ExpectedCons(book: Book, fills: seq<MakerFill>, rem: u32, after: Book, progress: Progress)
    requires fills != []
    requires progress
          == if LookupIn(book, fills[0].oix) != Some(fills[0].maker) || LeftBy(fills[0], rem).None? then Broken
             else Left(LeftBy(fills[0], rem).value)
    requires AsRecorded(after, fills[1..]) <==> AsRecorded(book, fills[1..])
    ensures Expected(book, fills, rem)
         == if progress.Left? then Expected(after, fills[1..], progress.rem) else Broken
  {
    RecordsCons(book, fills);
  }

  /** Fills that no round can fail to find. */
  ghost predicate Findable(book: Book, fills: seq<MakerFill>) {
    BookOk(book) && Distinct(fills) && forall i :: 0 <= i < |fills| ==> LookupIn(book, fills[i].oix).Some?
  }

  /** One round of the loop. */
  lemma FirstRoundRuns(book: Book, fills: seq<MakerFill>, rem: u32, after: Book, progress: Progress)
    requires Findable(book, fills) && fills != []
    requires after == ExecuteOne(book, fills[0], rem).0 && progress == ExecuteOne(book, fills[0], rem).1
    ensures progress
         == if LookupIn(book, fills[0].oix) != Some(fills[0].maker) || LeftBy(fills[0], rem).None? then Broken
            else Left(LeftBy(fills[0], rem).value)
    ensures Execute(book, fills, rem).1
         == if progress.Left? then Execute(after, fills[1..], progress.rem).1 else progress
  {
    RoundIff(book, fills[0], rem, progress);
    ExecuteUnfolds(book, fills, rem, after, progress);
  }

  lemma FindableTail(book: Book, fills: seq<MakerFill>, later: seq<MakerFill>)
    requires Findable(book, fills) && fills != [] && later == fills[1..]
    ensures Distinct(later) && forall i :: 0 <= i < |later| ==> later[i].oix != fills[0].oix
    ensures forall i :: 0 <= i < |later| ==> LookupIn(book, later[i].oix).Some?
  {
    assert forall i :: 0 <= i < |later| ==> later[i] == fills[i + 1];
  }

  /** What one round leaves of the fills can be found still, and is as recorded if it was. */
  lemma FirstRoundKeeps(book: Book, fills: seq<MakerFill>, rem: u32, after: Book)
    requires Findable(book, fills) && fills != []
    requires after == ExecuteOne(book, fills[0], rem).0
    ensures Findable(after, fills[1..])
    ensures AsRecorded(after, fills[1..]) <==> AsRecorded(book, fills[1..])
  {
    var later := fills[1..];
    FindableTail(book, fills, later);
    RoundKeepsRecords(book, fills[0], rem, after, later);
  }

  /** The execution loop gets through all fills exactly when every maker is as recorded and the
      quantities fit, and is then left with what they leave. Otherwise an assertion fails. */
  lemma {:induction false} ExecuteIff(book: Book, fills: seq<MakerFill>, rem: u32)
    requires Findable(book, fills)
    ensures Execute(book, fills, rem).1 == Expected(book, fills, rem)
    decreases |fills|
  {
    if fills != [] {
      var after, progress := ExecuteOne(book, fills[0], rem).0, ExecuteOne(book, fills[0], rem).1;
      FirstRoundRuns(book, fills, rem, after, progress);
      FirstRoundKeeps(book, fills, rem, after);
      ExpectedCons(book, fills, rem, after, progress);
      if progress.Left? {
        ExecuteIff(after, fills[1..], progress.rem);
      }
    }
  }

  lemma {:induction false} MissingIff(book: Book, fills: seq<MakerFill>, k: nat)
    requires k < |fills| && LookupIn(book, fills[k].oix).None?
    requires forall i :: 0 <= i < k ==> LookupIn(book, fills[i].oix).Some?
    ensures FirstMissing(book, fills) == Some(fills[k].oix)
  {
    if k > 0 {
      MissingIff(book, fills[1..], k - 1);
    }
  }

  /** A commit with a maker that is not in the book names the first such maker, and leaves the
      book alone. */
  lemma {:induction false} CommitMissing(
      book: Book, taker: Order, fills: seq<MakerFill>, outcome: FillType, k: nat)
    requires k < |fills| && LookupIn(book, fills[k].oix).None?
    requires forall i :: 0 <= i < k ==> LookupIn(book, fills[i].oix).Some?
    ensures Commit(book, taker, fills, outcome) == (book, InvalidOrderIndex(fills[k].oix))
  {
    MissingIff(book, fills, k);
  }

  /** A commit of fills of different makers, all in the book, succeeds exactly when every maker is
      as recorded, the quantities fit, and the outcome is what they leave of the taker; otherwise an
      assertion fails. */
  lemma {:induction false} CommitIff(
      book: Book, taker: Order, fills: seq<MakerFill>, outcome: FillType, result: CommitResult)
    requires Findable(book, fills)
    requires result == Commit(book, taker, fills, outcome).1
    ensures result.Committed? || result.Panicked?
    ensures result.Committed?
       <==> && AsRecorded(book, fills) && Rundown(fills, taker.quantity).Some?
            && var left := Rundown(fills, taker.quantity).value;
               && (outcome == Complete ==> left == 0)
               && (outcome == Partial ==> left < taker.quantity)
               && (outcome == Unfilled ==> left == taker.quantity)
    ensures result.Committed? ==>
              var left := Rundown(fills, taker.quantity).value;
              && result.fillType == outcome
              && result.rest == if left == 0 then None else Some(taker.(quantity := left))
  {
    var after, progress := Execute(book, fills, taker.quantity).0, Execute(book, fills, taker.quantity).1;
    NoneMissing(book, fills);
    ExecuteIff(book, fills, taker.quantity);
    CommitOf(book, taker, fills, outcome, after, progress);
  }
}
