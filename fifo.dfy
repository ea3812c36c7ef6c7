/**
  The FIFO cost engine of coincount.go (`CalcCost`): the cost of `qty` units
  of inventory, taken from the oldest acquisition lots left after the recorded
  disposals have used theirs up.

  `multiplyRoundUp` (extended cost of a quantity at a unit cost) and
  `divideRound` (average of an extended cost over a quantity) are not part of
  this model; they are parameters, and every result is stated in their terms.
 */
module Fifo {
  import opened Records
  import opened Queue

  /** The acquisitions, in order: movements with a positive `QtyIn`. */
  function Inbound(ts: seq<InventoryTransaction>): seq<InventoryTransaction> {
    if ts == [] then []
    else
      var t := ts[|ts| - 1];
      Inbound(ts[..|ts| - 1]) + if t.QtyIn > 0 then [t] else []
  }

  /** The disposals, in order: movements that are not acquisitions and have a positive `QtyOut`. */
  function Outbound(ts: seq<InventoryTransaction>): seq<InventoryTransaction> {
    if ts == [] then []
    else
      var t := ts[|ts| - 1];
      Outbound(ts[..|ts| - 1]) + if t.QtyIn <= 0 && t.QtyOut > 0 then [t] else []
  }

  /** Every acquisition adds units and every disposal removes some. */
  lemma {:induction false} QueuedPositive(ts: seq<InventoryTransaction>)
    ensures forall k :: 0 <= k < |Inbound(ts)| ==> Inbound(ts)[k].QtyIn > 0
    ensures forall k :: 0 <= k < |Outbound(ts)| ==> Outbound(ts)[k].QtyOut > 0
  {
    if ts != [] {
      QueuedPositive(ts[..|ts| - 1]);
    }
  }

  lemma InboundStep(ts: seq<InventoryTransaction>, i: nat)
    requires i < |ts|
    ensures Inbound(ts[..i + 1]) == Inbound(ts[..i]) + if ts[i].QtyIn > 0 then [ts[i]] else []
    ensures Outbound(ts[..i + 1])
         == Outbound(ts[..i]) + if ts[i].QtyIn <= 0 && ts[i].QtyOut > 0 then [ts[i]] else []
  {
    assert ts[..i + 1][..i] == ts[..i];
  }

  lemma {:induction false} QueuesAppend(a: seq<InventoryTransaction>, b: seq<InventoryTransaction>)
    ensures Inbound(a + b) == Inbound(a) + Inbound(b)
    ensures Outbound(a + b) == Outbound(a) + Outbound(b)
  {
    if b != [] {
      var init := b[..|b| - 1];
      QueuesAppend(a, init);
      assert (a + b)[..|a + b| - 1] == a + init;
    } else {
      assert a + b == a;
    }
  }

  /** A movement that neither adds nor removes units enters neither queue,
      wherever it stands, so it does not change the cost. */
  lemma IgnoredMovement(a: seq<InventoryTransaction>, t: InventoryTransaction, b: seq<InventoryTransaction>,
                        qty: int, multiplyRoundUp: (int, int) -> int, divideRound: (int, int) -> int)
    requires t.QtyIn <= 0 && t.QtyOut <= 0
    ensures Inbound(a + [t] + b) == Inbound(a + b)
    ensures Outbound(a + [t] + b) == Outbound(a + b)
    ensures FifoCost(a + [t] + b, qty, multiplyRoundUp, divideRound)
         == FifoCost(a + b, qty, multiplyRoundUp, divideRound)
  {
    QueuesAppend(a + [t], b);
    QueuesAppend(a, [t]);
    QueuesAppend(a, b);
    assert [t][..0] == [];
  }

  function TotalIn(lots: seq<InventoryTransaction>): int {
    if lots == [] then 0 else lots[0].QtyIn + TotalIn(lots[1..])
  }

  function TotalOut(ds: seq<InventoryTransaction>): int {
    if ds == [] then 0 else ds[0].QtyOut + TotalOut(ds[1..])
  }

  function Max(a: int, b: int): int {
    if a < b then b else a
  }

  /** Adds `base` to a price, if there is one. */
  function AddPrice(price: Option<int>, base: int): Option<int> {
    match price
    case None => None
    case Some(p) => Some(base + p)
  }

  /** The reference definition: pass over the first `skip` units of the lots,
      oldest first, then price the next `need` units, each portion taken from
      one lot costed with `multiplyRoundUp(portion, lot cost)`.  `None` when the
      lots run out first.  A `need` that is not positive is priced against the
      first lot with units left. */
  function FifoPrice(lots: seq<InventoryTransaction>, skip: int, need: int,
                     multiplyRoundUp: (int, int) -> int): Option<int>
  {
    if lots == [] then None
    else if skip >= lots[0].QtyIn then FifoPrice(lots[1..], skip - lots[0].QtyIn, need, multiplyRoundUp)
    else
      var avail := lots[0].QtyIn - skip;
      if need <= avail then Some(multiplyRoundUp(need, lots[0].Cost))
      else AddPrice(FifoPrice(lots[1..], 0, need - avail, multiplyRoundUp), multiplyRoundUp(avail, lots[0].Cost))
  }

  /** What `CalcCost` returns, by the reference definition. */
  function FifoCost(transactions: seq<InventoryTransaction>, qty: int,
                    multiplyRoundUp: (int, int) -> int, divideRound: (int, int) -> int): Result<int>
  {
    if qty == 0 then Ok(0)
    else
      match FifoPrice(Inbound(transactions), TotalOut(Outbound(transactions)), qty, multiplyRoundUp)
      case None => Err(OutOfInventory)
      case Some(price) => Ok(divideRound(price, qty))
  }

  /** The lots run out exactly when they hold fewer units than the skipped ones
      plus the need (plus one unit when the need is not positive, which still
      has to find a lot to be priced against). */
  lemma {:induction false} FifoPriceFails(lots: seq<InventoryTransaction>, skip: int, need: int,
                                          multiplyRoundUp: (int, int) -> int)
    requires forall k :: 0 <= k < |lots| ==> lots[k].QtyIn > 0
    requires skip >= 0
    ensures FifoPrice(lots, skip, need, multiplyRoundUp).None? <==> TotalIn(lots) < skip + Max(need, 1)
  {
    if lots != [] {
      var a := lots[0].QtyIn;
      if skip >= a {
        FifoPriceFails(lots[1..], skip - a, need, multiplyRoundUp);
      } else if need > a - skip {
        FifoPriceFails(lots[1..], 0, need - (a - skip), multiplyRoundUp);
      } else {
        TotalInNonNegative(lots[1..]);
      }
    }
  }

  lemma {:induction false} TotalInNonNegative(lots: seq<InventoryTransaction>)
    requires forall k :: 0 <= k < |lots| ==> lots[k].QtyIn > 0
    ensures TotalIn(lots) >= 0
  {
    if lots != [] {
      TotalInNonNegative(lots[1..]);
    }
  }

  /** A zero quantity costs 0. A positive quantity fails exactly when the
      acquisitions hold fewer units than the recorded disposals plus the
      quantity; a negative one exactly when they hold no more units than the
      disposals. The only error is "Out of Inventory". */
  lemma OutOfInventoryExactly(transactions: seq<InventoryTransaction>, qty: int,
                              multiplyRoundUp: (int, int) -> int, divideRound: (int, int) -> int)
    ensures qty == 0 ==> FifoCost(transactions, qty, multiplyRoundUp, divideRound) == Ok(0)
    ensures qty > 0 ==>
      (FifoCost(transactions, qty, multiplyRoundUp, divideRound).Err? <==>
       TotalIn(Inbound(transactions)) < TotalOut(Outbound(transactions)) + qty)
    ensures qty < 0 ==>
      (FifoCost(transactions, qty, multiplyRoundUp, divideRound).Err? <==>
       TotalIn(Inbound(transactions)) <= TotalOut(Outbound(transactions)))
    ensures FifoCost(transactions, qty, multiplyRoundUp, divideRound).Err? ==>
      FifoCost(transactions, qty, multiplyRoundUp, divideRound).error == OutOfInventory
  {
    var ds := Outbound(transactions);
    QueuedPositive(transactions);
    TotalOutNonNegative(ds);
    FifoPriceFails(Inbound(transactions), TotalOut(ds), qty, multiplyRoundUp);
  }

  lemma {:induction false} TotalOutNonNegative(ds: seq<InventoryTransaction>)
    requires forall k :: 0 <= k < |ds| ==> ds[k].QtyOut > 0
    ensures TotalOut(ds) >= 0
  {
    if ds != [] {
      TotalOutNonNegative(ds[1..]);
    }
  }

  /** The zero value of a movement (what an unset Go struct holds). */
  const NoTransaction := InventoryTransaction(0, 0, Account(0, ""), Item(0, ""), 0, 0, 0, 0, "")

  /** A lot of `units` units at `cost` each; pricing reads nothing else. */
  function LotOf(units: int, cost: int): (t: InventoryTransaction)
    ensures t.QtyIn == units && t.Cost == cost
  {
    NoTransaction.(QtyIn := units, Cost := cost)
  }

  /** Two lots with the same units and cost price alike. */
  lemma SameTerms(x: InventoryTransaction, y: InventoryTransaction, rest: seq<InventoryTransaction>,
                  skip: int, need: int, multiplyRoundUp: (int, int) -> int)
    requires x.QtyIn == y.QtyIn && x.Cost == y.Cost
    ensures FifoPrice([x] + rest, skip, need, multiplyRoundUp) == FifoPrice([y] + rest, skip, need, multiplyRoundUp)
  {
    assert ([x] + rest)[1..] == rest;
    assert ([y] + rest)[1..] == rest;
  }

  /** Taking `k` units off the front lot (at most what it holds and at most
      what is still to be skipped) does not change the reference price. */
  lemma ConsumeFront(cost: int, a: int, k: int, rest: seq<InventoryTransaction>,
                     skip: int, need: int, multiplyRoundUp: (int, int) -> int)
    requires 0 < a && 0 <= k <= a && k <= skip
    ensures FifoPrice([LotOf(a, cost)] + rest, skip, need, multiplyRoundUp)
         == FifoPrice((if a - k > 0 then [LotOf(a - k, cost)] else []) + rest, skip - k, need, multiplyRoundUp)
  {
    assert ([LotOf(a, cost)] + rest)[1..] == rest;
    if a - k > 0 {
      assert ([LotOf(a - k, cost)] + rest)[1..] == rest;
    } else {
      assert [] + rest == rest;
    }
  }

  /** Pricing with nothing left to skip starts with the front lot. */
  lemma FrontLot(cost: int, a: int, rest: seq<InventoryTransaction>, need: int,
                 multiplyRoundUp: (int, int) -> int)
    requires a > 0
    ensures need <= a ==>
      FifoPrice([LotOf(a, cost)] + rest, 0, need, multiplyRoundUp) == Some(multiplyRoundUp(need, cost))
    ensures need > a ==>
      FifoPrice([LotOf(a, cost)] + rest, 0, need, multiplyRoundUp)
      == AddPrice(FifoPrice(rest, 0, need - a, multiplyRoundUp), multiplyRoundUp(a, cost))
  {
    assert ([LotOf(a, cost)] + rest)[1..] == rest;
  }

  lemma AddPriceTwice(p: Option<int>, a: int, b: int)
    ensures AddPrice(AddPrice(p, a), b) == AddPrice(p, b + a)
  {
  }

  /** The lots the matching loop has not used up: the active lot's remainder,
      then the queued ones, oldest first. */
  ghost function LotsLeft(cost: int, inQty: int, queued: seq<InventoryTransaction>): seq<InventoryTransaction> {
    (if inQty > 0 then [LotOf(inQty, cost)] else []) + queued
  }

  /** The disposal units still to be matched: the active demand's remainder,
      then the queued disposals after it; the active disposal stays queued
      until it is fully matched. */
  ghost function DisposalsLeft(outQty: int, queued: seq<InventoryTransaction>): int {
    if outQty == 0 then TotalOut(queued)
    else if queued == [] then outQty
    else outQty + TotalOut(queued[1..])
  }

  /** What the matching loop of `CalcCost` keeps between rounds: the lots not
      yet used up (`inQty` units at `cost`, then `ins`) priced against the
      disposal units not yet matched (`outQty` of the disposal at the head of
      `outs`, then the rest of `outs`) give `target`; once the requested
      quantity itself is the active demand (`terminal`), `target` is `price`
      plus the price of the `outQty` units still to cover. */
  ghost predicate Tracks(target: Option<int>, terminal: bool, cost: int, inQty: int,
                         ins: seq<InventoryTransaction>, outQty: int, outs: seq<InventoryTransaction>,
                         price: int, qty: int, multiplyRoundUp: (int, int) -> int)
  {
    && inQty >= 0
    && (forall k :: 0 <= k < |ins| ==> ins[k].QtyIn > 0)
    && (forall k :: 0 <= k < |outs| ==> outs[k].QtyOut > 0)
    && (terminal ==>
          outs == [] && outQty != 0 &&
          target == AddPrice(FifoPrice(LotsLeft(cost, inQty, ins), 0, outQty, multiplyRoundUp), price))
    && (!terminal ==>
          (outQty != 0 ==> outs != [] && outQty > 0) &&
          target == FifoPrice(LotsLeft(cost, inQty, ins), DisposalsLeft(outQty, outs), qty, multiplyRoundUp))
  }

  /** Loading the next lot when the active one is used up: none left means the
      reference price fails too. */
  lemma LoadStep(target: Option<int>, terminal: bool, cost: int,
                 ins: seq<InventoryTransaction>, outQty: int, outs: seq<InventoryTransaction>,
                 price: int, qty: int, multiplyRoundUp: (int, int) -> int)
    requires Tracks(target, terminal, cost, 0, ins, outQty, outs, price, qty, multiplyRoundUp)
    ensures ins == [] ==> target == None
    ensures ins != [] ==>
      ins[0].QtyIn > 0 &&
      Tracks(target, terminal, ins[0].Cost, ins[0].QtyIn, ins[1..], outQty, outs, price, qty, multiplyRoundUp)
  {
    assert LotsLeft(cost, 0, ins) == ins;
    if ins != [] {
      assert ins == [ins[0]] + ins[1..];
      var front := LotOf(ins[0].QtyIn, ins[0].Cost);
      assert LotsLeft(ins[0].Cost, ins[0].QtyIn, ins[1..]) == [front] + ins[1..];
      if terminal {
        SameTerms(front, ins[0], ins[1..], 0, outQty, multiplyRoundUp);
      } else {
        SameTerms(front, ins[0], ins[1..], DisposalsLeft(outQty, outs), qty, multiplyRoundUp);
      }
    }
  }

  /** Taking up the next demand when the active one is met: the oldest
      recorded disposal, or the requested quantity when none is left, with the
      accumulated price reset. */
  lemma DemandStep(target: Option<int>, terminal: bool, cost: int, inQty: int,
                   ins: seq<InventoryTransaction>, outs: seq<InventoryTransaction>,
                   price: int, qty: int, multiplyRoundUp: (int, int) -> int)
    requires qty != 0
    requires Tracks(target, terminal, cost, inQty, ins, 0, outs, price, qty, multiplyRoundUp)
    ensures !terminal
    ensures outs == [] ==>
      Tracks(target, true, cost, inQty, ins, qty, outs, 0, qty, multiplyRoundUp)
    ensures outs != [] ==>
      outs[0].QtyOut > 0 &&
      Tracks(target, false, cost, inQty, ins, outs[0].QtyOut, outs, 0, qty, multiplyRoundUp)
  {
    if outs == [] {
      assert AddPrice(target, 0) == target;
    }
  }

  /** The active lot covers the active demand: the demand is met; when it is
      the requested quantity, `target` is the accumulated price. */
  lemma MatchWithin(target: Option<int>, terminal: bool, cost: int, inQty: int,
                    ins: seq<InventoryTransaction>, outQty: int, outs: seq<InventoryTransaction>,
                    price: int, qty: int, multiplyRoundUp: (int, int) -> int)
    requires 0 < inQty && outQty != 0 && outQty <= inQty
    requires Tracks(target, terminal, cost, inQty, ins, outQty, outs, price, qty, multiplyRoundUp)
    ensures terminal ==> outs == [] && target == Some(price + multiplyRoundUp(outQty, cost))
    ensures !terminal ==>
      outs != [] &&
      Tracks(target, false, cost, inQty - outQty, ins, 0, outs[1..],
             price + multiplyRoundUp(outQty, cost), qty, multiplyRoundUp)
  {
    if terminal {
      FrontLot(cost, inQty, ins, outQty, multiplyRoundUp);
    } else {
      var skip := DisposalsLeft(outQty, outs);
      TotalOutNonNegative(outs[1..]);
      ConsumeFront(cost, inQty, outQty, ins, skip, qty, multiplyRoundUp);
    }
  }

  /** The active demand exceeds the active lot: the lot is used up and the
      demand shrinks by its units; here the demand is the requested quantity. */
  lemma MatchBeyondLast(target: Option<int>, cost: int, inQty: int,
                        ins: seq<InventoryTransaction>, outQty: int, outs: seq<InventoryTransaction>,
                        price: int, qty: int, multiplyRoundUp: (int, int) -> int)
    requires 0 < inQty < outQty
    requires Tracks(target, true, cost, inQty, ins, outQty, outs, price, qty, multiplyRoundUp)
    ensures Tracks(target, true, cost, 0, ins, outQty - inQty, outs,
                   price + multiplyRoundUp(inQty, cost), qty, multiplyRoundUp)
  {
    assert LotsLeft(cost, 0, ins) == ins;
    assert LotsLeft(cost, inQty, ins) == [LotOf(inQty, cost)] + ins;
    FrontLot(cost, inQty, ins, outQty, multiplyRoundUp);
    AddPriceTwice(FifoPrice(ins, 0, outQty - inQty, multiplyRoundUp), multiplyRoundUp(inQty, cost), price);
  }

  /** As `MatchBeyondLast`, for a demand that is a recorded disposal. */
  lemma MatchBeyondRecorded(target: Option<int>, cost: int, inQty: int,
                            ins: seq<InventoryTransaction>, outQty: int, outs: seq<InventoryTransaction>,
                            price: int, qty: int, multiplyRoundUp: (int, int) -> int)
    requires 0 < inQty < outQty
    requires Tracks(target, false, cost, inQty, ins, outQty, outs, price, qty, multiplyRoundUp)
    ensures Tracks(target, false, cost, 0, ins, outQty - inQty, outs,
                   price + multiplyRoundUp(inQty, cost), qty, multiplyRoundUp)
  {
    assert LotsLeft(cost, 0, ins) == ins;
    var skip := DisposalsLeft(outQty, outs);
    TotalOutNonNegative(outs[1..]);
    ConsumeFront(cost, inQty, inQty, ins, skip, qty, multiplyRoundUp);
    assert DisposalsLeft(outQty - inQty, outs) == skip - inQty;
  }

  /** The variables of the matching loop of `CalcCost`: the cost of the
      active lot and its units left, the queued lots (oldest first), the units
      left of the active demand, the queued disposals (oldest first, the
      active one still at the head) and the price accumulated for the active
      demand. */
  datatype Matching = Matching(cost: int, inQty: int, lots: seq<InventoryTransaction>,
                               outQty: int, disposals: seq<InventoryTransaction>, price: int)

  /** How a round of the matching loop ends: with the final price (`None`
      for "Out of Inventory"), or with the state of the next round. */
  datatype Outcome = Priced(price: Option<int>) | Next(state: Matching)

  /** What is left to do: each round uses up a queued lot, the active lot or a
      queued disposal. */
  function Work(s: Matching): nat {
    |s.lots| + (if s.inQty != 0 then 1 else 0) + |s.disposals|
  }

  /** Loads the oldest queued lot when the active one is used up; `None`
      when there is none. */
  function Load(s: Matching): (r: Option<Matching>)
    ensures r.None? <==> s.inQty == 0 && s.lots == []
    ensures r.Some? ==> r.value.inQty != 0 || Work(r.value) < Work(s)
    ensures r.Some? ==> Work(r.value) <= Work(s) && r.value.disposals == s.disposals
  {
    if s.inQty != 0 then Some(s)
    else if s.lots == [] then None
    else Some(s.(cost := s.lots[0].Cost, inQty := s.lots[0].QtyIn, lots := s.lots[1..]))
  }

  /** Takes up the oldest queued disposal, or `qty` when there is none, with
      a zero price, when the active demand is met. */
  function Demand(s: Matching, qty: int): (r: Matching)
    ensures Work(r) == Work(s) && r.disposals == s.disposals
    ensures s.outQty != 0 ==> r == s
    ensures s.outQty == 0 ==> r.price == 0 && r.lots == s.lots && r.inQty == s.inQty
  {
    if s.outQty != 0 then s
    else s.(price := 0, outQty := if s.disposals == [] then qty else s.disposals[0].QtyOut)
  }

  /** Matches the active lot against the active demand; a met demand leaves
      the disposal queue, and when that queue is already empty the loop ends
      with the accumulated price. */
  function Settle(s: Matching, multiplyRoundUp: (int, int) -> int): (o: Outcome)
    ensures o.Next? && s.inQty != 0 ==> Work(o.state) < Work(s)
    ensures o.Next? && s.inQty == 0 ==> Work(o.state) <= Work(s)
    ensures o.Priced? ==> o.price.Some? && s.outQty <= s.inQty && s.disposals == []
    ensures o.Next? ==> o.state.inQty == 0 || o.state.outQty == 0
  {
    if s.outQty <= s.inQty then
      var price := s.price + multiplyRoundUp(s.outQty, s.cost);
      if s.disposals == [] then Priced(Some(price))
      else Next(Matching(s.cost, s.inQty - s.outQty, s.lots, 0, s.disposals[1..], price))
    else
      var price := s.price + multiplyRoundUp(s.inQty, s.cost);
      Next(Matching(s.cost, 0, s.lots, s.outQty - s.inQty, s.disposals, price))
  }

  /** One round of the matching loop: load, take up a demand, match. */
  function Round(s: Matching, qty: int, multiplyRoundUp: (int, int) -> int): (o: Outcome)
    ensures o.Next? ==> Work(o.state) < Work(s)
  {
    match Load(s)
    case None => Priced(None)
    case Some(l) => Settle(Demand(l, qty), multiplyRoundUp)
  }

  /** The matching loop run to its end from `s`. */
  function Run(s: Matching, qty: int, multiplyRoundUp: (int, int) -> int): Option<int>
    decreases Work(s)
  {
    match Round(s, qty, multiplyRoundUp)
    case Priced(p) => p
    case Next(t) => Run(t, qty, multiplyRoundUp)
  }

  /** Matching the active lot against the active demand keeps `Tracks`, and
      a final price is `target`. */
  lemma SettleKeeps(target: Option<int>, terminal: bool, d: Matching, qty: int,
                    multiplyRoundUp: (int, int) -> int)
    requires 0 < d.inQty && d.outQty != 0
    requires Tracks(target, terminal, d.cost, d.inQty, d.lots, d.outQty, d.disposals, d.price, qty, multiplyRoundUp)
    ensures Settle(d, multiplyRoundUp).Priced? ==> Settle(d, multiplyRoundUp).price == target
    ensures Settle(d, multiplyRoundUp).Next? ==>
      var t := Settle(d, multiplyRoundUp).state;
      Tracks(target, terminal && t.inQty == 0, t.cost, t.inQty, t.lots, t.outQty, t.disposals, t.price,
             qty, multiplyRoundUp)
  {
    if d.outQty <= d.inQty {
      MatchWithin(target, terminal, d.cost, d.inQty, d.lots, d.outQty, d.disposals, d.price, qty, multiplyRoundUp);
    } else {
      if terminal {
        MatchBeyondLast(target, d.cost, d.inQty, d.lots, d.outQty, d.disposals, d.price, qty, multiplyRoundUp);
      } else {
        MatchBeyondRecorded(target, d.cost, d.inQty, d.lots, d.outQty, d.disposals, d.price, qty, multiplyRoundUp);
      }
    }
  }

  /** A round keeps `Tracks`, and a final price is `target`. */
  lemma RoundKeeps(target: Option<int>, terminal: bool, s: Matching, qty: int,
                   multiplyRoundUp: (int, int) -> int)
    returns (terminal': bool)
    requires qty != 0
    requires Tracks(target, terminal, s.cost, s.inQty, s.lots, s.outQty, s.disposals, s.price, qty, multiplyRoundUp)
    ensures Round(s, qty, multiplyRoundUp).Priced? ==> Round(s, qty, multiplyRoundUp).price == target
    ensures Round(s, qty, multiplyRoundUp).Next? ==>
      var t := Round(s, qty, multiplyRoundUp).state;
      Tracks(target, terminal', t.cost, t.inQty, t.lots, t.outQty, t.disposals, t.price, qty, multiplyRoundUp)
  {
    terminal' := false;
    if s.inQty == 0 {
      LoadStep(target, terminal, s.cost, s.lots, s.outQty, s.disposals, s.price, qty, multiplyRoundUp);
    }
    if Load(s).Some? {
      var l := Load(s).value;
      assert Tracks(target, terminal, l.cost, l.inQty, l.lots, l.outQty, l.disposals, l.price, qty, multiplyRoundUp);
      var d := Demand(l, qty);
      var term := terminal || (l.outQty == 0 && l.disposals == []);
      if l.outQty == 0 {
        DemandStep(target, terminal, l.cost, l.inQty, l.lots, l.disposals, l.price, qty, multiplyRoundUp);
      }
      assert Tracks(target, term, d.cost, d.inQty, d.lots, d.outQty, d.disposals, d.price, qty, multiplyRoundUp);
      SettleKeeps(target, term, d, qty, multiplyRoundUp);
      if Settle(d, multiplyRoundUp).Next? {
        terminal' := term && Settle(d, multiplyRoundUp).state.inQty == 0;
      }
    }
  }

  /** From any state the loop keeps, running it to the end yields `target`. */
  lemma {:induction false} RunTracks(target: Option<int>, terminal: bool, s: Matching, qty: int,
                                     multiplyRoundUp: (int, int) -> int)
    requires qty != 0
    requires Tracks(target, terminal, s.cost, s.inQty, s.lots, s.outQty, s.disposals, s.price,
                    qty, multiplyRoundUp)
    ensures Run(s, qty, multiplyRoundUp) == target
    decreases Work(s)
  {
    var terminal' := RoundKeeps(target, terminal, s, qty, multiplyRoundUp);
    if Round(s, qty, multiplyRoundUp).Next? {
      RunTracks(target, terminal', Round(s, qty, multiplyRoundUp).state, qty, multiplyRoundUp);
    }
  }

  /** The matching loop, started with no active lot, no active demand and a
      zero price, computes the reference price of `qty` units after the
      disposals' units. */
  lemma RunIsFifoPrice(lots: seq<InventoryTransaction>, disposals: seq<InventoryTransaction>, qty: int,
                       multiplyRoundUp: (int, int) -> int)
    requires qty != 0
    requires forall k :: 0 <= k < |lots| ==> lots[k].QtyIn > 0
    requires forall k :: 0 <= k < |disposals| ==> disposals[k].QtyOut > 0
    ensures Run(Matching(0, 0, lots, 0, disposals, 0), qty, multiplyRoundUp)
         == FifoPrice(lots, TotalOut(disposals), qty, multiplyRoundUp)
  {
    assert LotsLeft(0, 0, lots) == lots;
    RunTracks(FifoPrice(lots, TotalOut(disposals), qty, multiplyRoundUp), false,
              Matching(0, 0, lots, 0, disposals, 0), qty, multiplyRoundUp);
  }

  /** Sorts the movements into a queue of acquisitions and a queue of
      disposals, then matches the oldest lots against each recorded disposal
      and finally against `qty`, accumulating the cost of the lot portions
      matched to the current demand only (the price is reset whenever a new
      demand is taken up).  Fails with "Out of Inventory" when no lot is
      left. */
  method CalcCost(transactions: seq<InventoryTransaction>, qty: int,
                  multiplyRoundUp: (int, int) -> int, divideRound: (int, int) -> int)
    returns (r: Result<int>)
    ensures r == FifoCost(transactions, qty, multiplyRoundUp, divideRound)
    ensures qty == 0 ==> r == Ok(0)
    ensures qty > 0 ==>
      (r.Err? <==> TotalIn(Inbound(transactions)) < TotalOut(Outbound(transactions)) + qty)
    ensures r.Err? ==> r.error == OutOfInventory && r.error.Message() == "Out of Inventory"
  {
    if qty == 0 {
      return Ok(0);
    }

    var inQueue := new TransactionQueue();
    var outQueue := new TransactionQueue();
    var i := 0;
    while i < |transactions|
      invariant 0 <= i <= |transactions|
      invariant inQueue != outQueue
      invariant inQueue.Arrivals() == Inbound(transactions[..i])
      invariant outQueue.Arrivals() == Outbound(transactions[..i])
    {
      var transaction := transactions[i];
      InboundStep(transactions, i);
      if transaction.QtyIn > 0 {
        inQueue.Enqueue(transaction);
        assert Outbound(transactions[..i + 1]) == Outbound(transactions[..i]);
      } else if transaction.QtyOut > 0 {
        outQueue.Enqueue(transaction);
        assert Inbound(transactions[..i + 1]) == Inbound(transactions[..i]);
      } else {
        assert Inbound(transactions[..i + 1]) == Inbound(transactions[..i]);
        assert Outbound(transactions[..i + 1]) == Outbound(transactions[..i]);
      }
      i := i + 1;
    }
    assert transactions[..i] == transactions;

    QueuedPositive(transactions);
    RunIsFifoPrice(inQueue.Arrivals(), outQueue.Arrivals(), qty, multiplyRoundUp);
    OutOfInventoryExactly(transactions, qty, multiplyRoundUp, divideRound);
    r := MatchLots(inQueue, outQueue, qty, multiplyRoundUp, divideRound);
    assert r == FifoCost(transactions, qty, multiplyRoundUp, divideRound);
    assert OutOfInventory.Message() == "Out of Inventory";
  }

  /** The matching loop of `CalcCost`, over the two queues it has filled. */
  method MatchLots(inQueue: TransactionQueue, outQueue: TransactionQueue, qty: int,
                   multiplyRoundUp: (int, int) -> int, divideRound: (int, int) -> int)
    returns (r: Result<int>)
    requires inQueue != outQueue
    modifies inQueue, outQueue
    ensures r == match Run(Matching(0, 0, old(inQueue.Arrivals()), 0, old(outQueue.Arrivals()), 0),
                           qty, multiplyRoundUp)
                 case None => Err(OutOfInventory)
                 case Some(price) => Ok(divideRound(price, qty))
  {
    var inQty, outQty := 0, 0;
    var price := 0;
    var currentIn := NoTransaction;
    // The loop variables and the contents of the two queues, oldest first.
    ghost var st := Matching(0, 0, inQueue.Arrivals(), 0, outQueue.Arrivals(), 0);
    ghost var outcome := Run(st, qty, multiplyRoundUp);
    while true
      invariant inQueue != outQueue
      invariant inQueue.Arrivals() == st.lots && outQueue.Arrivals() == st.disposals
      invariant st.cost == currentIn.Cost && st.inQty == inQty && st.outQty == outQty && st.price == price
      invariant Run(st, qty, multiplyRoundUp) == outcome
      decreases Work(st)
    {
      if inQty == 0 {
        var next := inQueue.Dequeue();
        if next.Err? {
          assert Load(st) == None;
          return Err(OutOfInventory);
        }
        currentIn := next.value;
        inQty := currentIn.QtyIn;
      }
      ghost var loaded := Load(st).value;
      assert loaded.cost == currentIn.Cost && loaded.inQty == inQty && loaded.lots == inQueue.Arrivals();
      assert loaded.outQty == outQty && loaded.disposals == outQueue.Arrivals() && loaded.price == price;

      if outQty == 0 {
        price := 0;
        var currentOut := outQueue.Peek();
        if currentOut.Err? {
          outQty := qty;
        } else {
          outQty := currentOut.value.QtyOut;
        }
      }
      ghost var demanded := Demand(loaded, qty);
      assert demanded.outQty == outQty && demanded.price == price;

      if outQty <= inQty {
        inQty := inQty - outQty;
        price := price + multiplyRoundUp(outQty, currentIn.Cost);
        outQty := 0;
        var done := outQueue.Dequeue();
        if done.Err? {
          assert Settle(demanded, multiplyRoundUp).price == Some(price);
          return Ok(divideRound(price, qty));
        }
      } else {
        outQty := outQty - inQty;
        price := price + multiplyRoundUp(inQty, currentIn.Cost);
        inQty := 0;
      }
      st := Settle(demanded, multiplyRoundUp).state;
    }
  }
}
