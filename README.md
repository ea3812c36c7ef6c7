# coincount bookkeeping core in Dafny

This project models the bookkeeping core of coincount, a small Go program that
keeps an Ether inventory.

- **Posting.** A mining payout becomes a purchase. A purchase becomes inventory
  movements and general-ledger rows (module `Posting`, coincount.go
  `MiningPayout` and `PostPurchase`).
- **FIFO cost.** The cost of a quantity is taken from the oldest acquisition
  lots left after the recorded disposals (module `Fifo`, coincount.go
  `CalcCost`). It uses the slice-backed `TransactionQueue` (module `Queue`).
- **Parsing.** A decimal ether amount becomes wei (module `Units`, units.go
  `parseEtherFloatToWei`, `PadRight` and `weiPerEth`).
- **Shared pieces.** Module `Records` holds the record types. `Fixtures` holds
  the four fixtures.go constants `MiningPayout` uses. `Decimal` renders and
  reads digit strings.

## How the model is built

- **Numbers.** Quantities (`*big.Int`) and money (`int64`) are unbounded
  integers. `time.Time` is an opaque `Date` that is only copied.
- **Rounding helpers.** `multiplyRoundUp` and `divideRound` are defined in a
  file that is not part of this model. They are function-typed parameters
  `(int, int) -> int`, and every result about prices is stated in their terms.
- **Queue.** `TransactionQueue` is a class whose `items` field is the Go slice.
  `Enqueue` keeps the element-shifting loop. The ghost view `Arrivals()` lists the
  queue oldest first.
- **`CalcCost`.** It is a method with the source's two loops.
  - The first loop sorts the movements into two queues.
  - The matching loop sits in `MatchLots`, which `CalcCost` calls. It keeps
    the source's variables (`inQty`, `outQty`, `price`, `currentIn`) and its
    branch order.
  - Each pass of the loop is one `Round` of a pure state machine, and `Run`
    iterates `Round`.
  - `RunIsFifoPrice` proves that `Run` equals an independent reference
    definition, `FifoPrice`. That definition skips the units used by the
    recorded disposals, oldest lot first, then prices the requested
    quantity lot by lot.
  - The cost is `divideRound` of that price. A zero request costs 0. A
    positive request fails with "Out of Inventory" exactly when the
    acquisitions hold fewer units than the disposals plus the request. A
    negative one fails exactly when they hold no more units than the
    disposals.
- **`parseEtherFloatToWei`.** It is a method that calls the `PadRight` method.
  - Both are proved against the functions `WeiValue` and `Padded`.
  - `strings.Split` is modelled by `Split`, and `big.Int.SetString(s, 10)` by
    `IntegerValue`. `SetString` accepts an optional sign and then digits.
- **Code behaviour, not stated intent.** Three behaviours are modelled as the
  code has them:
  - an amount with two or more dots keeps only its integer part
    (`ExtraDotDropsFraction`);
  - a minus sign negates only the integer part, and the fraction is still
    added (`SignedEtherPart`);
  - a line of zero quantity and zero amount still posts a movement with
    `QtyIn == QtyOut == 0` and a ledger row with `Debit == Credit == 0`, so the
    split guarantees at most one nonzero side, not exactly one
    (`ZeroLinePostsZeros`).

## Model

| member | source | states |
|---|---|---|
| Posting.MiningPayout | coincount.go:65-83 | the purchase keeps the zero ID, and has vendor `ElectricCompany`, payable account `ElectricBill`, amount `multiplyRoundUp(qty, cost)` and exactly one line: Ether into `EthMain` with the given quantity, cost and the whole amount |
| Posting.SplitSigned | coincount.go:98-103 | a signed value is split into two non-negative parts whose difference is the value, at most one of them nonzero |
| Posting.PurchaseMemo | coincount.go:92 | the memo is "PUR-" followed by the decimal rendering of the purchase ID |
| Decimal.FormatInt | coincount.go:92 | `%d` rendering: digits whose value is the number, after a minus sign when it is negative; "0" for zero and no leading zero otherwise |
| Decimal.NatToDigitsCanonical | coincount.go:92 | every digit string without a leading zero is the rendering of its own value, so the shortest rendering is unique |
| Posting.KeptExactly | coincount.go:93-96 | posting keeps exactly the lines whose item ID is positive |
| Posting.MovementOf | coincount.go:98-113 | a movement's `QtyIn`/`QtyOut` are the split of the line's quantity |
| Posting.LineRow | coincount.go:115-128 | a line's ledger row has `Debit`/`Credit` split from the line amount |
| Posting.ZeroLinePostsZeros | coincount.go:98-119 | a line of zero quantity and zero amount posts a movement and a row with both sides zero |
| Posting.PayableRow | coincount.go:131-144 | the payable row has `Credit - Debit` equal to the purchase amount, both non-negative, at most one nonzero |
| Posting.PostPurchase | coincount.go:85-147 | the loop emits one movement per kept line and one ledger row per kept line plus the payable row; the rows balance exactly when the purchase amount equals the sum of the kept lines' amounts |
| Posting.PostingShape | coincount.go:93-144 | row by row: each movement copies its line's account, item and cost and splits its quantity; every ledger row carries the posting's ID, date and memo; line rows split the line amounts and the last row splits the total for the payable account with debit and credit reversed |
| Posting.LineRowsNet | coincount.go:115-128 | the line rows' debits minus credits equal the sum of the line amounts |
| Posting.PostedRowsBalanced | coincount.go:93-144 | total debit equals total credit exactly when the purchase amount equals the sum of the kept lines' amounts |
| Posting.MiningPayoutPostsBalanced | coincount.go:65-147 | posting a mining payout always balances |
| Posting.SingleLineMirror | coincount.go:115-144 | a one-line purchase with a positive amount posts as a debit to inventory and an equal credit to payables |
| Queue.ReversedPrepend | coincount.go:238-248 | putting an element at index 0 puts it last in the oldest-first order |
| Queue.TransactionQueue.constructor | coincount.go:187 | a new queue is empty |
| Queue.TransactionQueue.Enqueue | coincount.go:238-248 | the slice becomes the new element followed by the old slice, so the element joins the end of the oldest-first order |
| Queue.TransactionQueue.Dequeue | coincount.go:249-259 | an empty queue gives `ErrEmptyQueue` and is unchanged; otherwise the last slice element, the oldest, is removed and returned |
| Queue.TransactionQueue.Peek | coincount.go:261-268 | `ErrEmptyQueue` exactly when the queue is empty; otherwise the oldest element, without a change |
| Fifo.QueuedPositive | coincount.go:188-194 | every queued acquisition has positive `QtyIn` and every queued disposal positive `QtyOut` |
| Fifo.QueuesAppend | coincount.go:188-194 | sorting a concatenation queues the first part's movements before the second's, in order |
| Fifo.IgnoredMovement | coincount.go:188-194 | a movement with neither positive `QtyIn` nor positive `QtyOut`, wherever it stands, enters neither queue and does not change the cost |
| Fifo.FifoPriceFails | coincount.go:199-206 | the reference price fails exactly when the lots hold fewer units than the skipped units plus the need, or plus one unit when the need is not positive |
| Fifo.OutOfInventoryExactly | coincount.go:181-232 | a zero quantity costs 0; a positive quantity fails exactly when the acquisitions' `QtyIn` sum to less than the disposals' `QtyOut` plus the quantity; a negative one exactly when the acquisitions hold no more units than the disposals; the only error is "Out of Inventory" |
| Fifo.CalcCost | coincount.go:181-232 | returns the reference FIFO cost; 0 for a zero quantity; for a positive quantity, fails exactly when the acquisitions' `QtyIn` sum to less than the disposals' `QtyOut` plus the quantity, and the error's message is "Out of Inventory" |
| Fifo.MatchLots | coincount.go:196-231 | the matching loop over the two queues returns what `Run` computes from their contents: "Out of Inventory" when it ends without a price, else `divideRound(price, qty)` |
| Fifo.Load | coincount.go:200-206 | loading fails exactly when the active lot is used up and no lot is queued |
| Fifo.Round | coincount.go:199-231 | every pass of the loop that does not return leaves strictly less work (termination) |
| Fifo.LoadStep | coincount.go:200-206 | loading the next lot keeps the loop invariant; with no lot left the reference price fails too |
| Fifo.Demand | coincount.go:208-216 | a pending demand is left as it is; a met one is replaced with the price reset to 0, the lots and the active lot untouched, and the disposal queue and the work left unchanged |
| Fifo.DemandStep | coincount.go:208-216 | taking up the next disposal, or the requested quantity when none is queued, with the price reset to 0, keeps the invariant |
| Fifo.MatchWithin | coincount.go:218-225 | a lot that covers the demand meets it and keeps the invariant; when the demand is the requested quantity, the accumulated price is the reference price |
| Fifo.MatchBeyondLast | coincount.go:226-230 | a lot smaller than the requested quantity is used up and the invariant kept |
| Fifo.MatchBeyondRecorded | coincount.go:226-230 | a lot smaller than a recorded disposal is used up and the invariant kept |
| Fifo.Settle | coincount.go:218-230 | after a match the lot or the demand is used up; the loop ends with a price only when the demand fits in the lot and no disposal is left; a lot not used up lowers the work left |
| Fifo.SettleKeeps | coincount.go:218-230 | matching keeps the invariant, and a final price is the reference price |
| Fifo.RoundKeeps | coincount.go:199-231 | one pass keeps the invariant, and a returned price is the reference price |
| Fifo.RunTracks | coincount.go:199-231 | from any state satisfying the invariant the loop ends with the reference price |
| Fifo.RunIsFifoPrice | coincount.go:196-231 | started with no active lot, no demand and a zero price, the loop computes the reference price of the quantity after the disposals' units |
| Units.WeiPerEthIsPow10 | units.go:9 | `weiPerEth` is 10^18 |
| Units.Split | units.go:12 | `strings.Split`: at least one piece, and no piece contains the separator |
| Units.SplitJoin | units.go:12 | joining the pieces with the separator gives back the string |
| Units.SplitNone | units.go:12-16 | a string without a dot is one piece |
| Units.SplitAfter | units.go:12-16 | the first piece ends at the first dot and the rest splits on its own |
| Units.Padded | units.go:43-50 | the result has exactly `length` characters and begins with `str`, or with its first `length` characters |
| Units.PaddedOneChar | units.go:43-50 | with a one-character pad, a string no longer than `length` gains exactly the missing number of pad characters |
| Units.PadRight | units.go:43-50 | the loop returns `str` cut to `length`, or `str` followed by the pad repeated up to `length`; it needs `length >= 0` and a non-empty pad unless `str` is longer than `length` |
| Units.IntegerValue | units.go:19-25 | `SetString` reads an unsigned digit string as its value, a "+" prefix as that value and a "-" prefix as its negation |
| Units.FractionWei | units.go:14-19 | the fraction contributes less than 10^18 |
| Units.FractionPadded | units.go:14-19 | a fraction of up to 18 digits is zero-filled, and a longer one is cut after 18 digits |
| Units.ParseEtherFloatToWei | units.go:11-32 | the method computes `WeiValue`: ether part times 10^18 plus the padded fraction |
| Units.WeiOfDecimal | units.go:11-31 | "I.F" with unsigned digits parses to I * 10^18 plus the first 18 fraction digits, zero-filled; an empty I is 0 |
| Units.WeiOfSplit | units.go:11-31 | with one dot, the result is the ether part as `SetString` reads it times 10^18, plus the fraction's wei |
| Units.EmptyEtherPart | units.go:21-23 | an empty ether part reads as "0": ".F" and "0.F" parse alike |
| Units.WholeEther | units.go:12-29 | an amount without a dot is a whole number of ether |
| Units.ExtraDotDropsFraction | units.go:12-29 | with a second dot the whole fraction is dropped |
| Units.SignedEtherPart | units.go:19-29 | a minus sign negates only the ether part; the fraction is still added |
| Units.WeiDivMod | units.go:14-31 | dividing the result by 10^18 gives the ether digits, and the remainder is the 18-digit fraction |
| Units.ParseFormatWei | units.go:11-32 | parsing the canonical rendering of a wei amount gives the amount back |
| Units.FormatParsedWei | units.go:11-32 | an amount with canonical ether digits and exactly 18 fraction digits is the rendering of what it parses to |
| Units.ParsesOneWei | units_test.go:18-24 | "0.000000000000000001" parses to 1 |
| Units.ParsesLargestFraction | units_test.go:25-31 | "0.999999999999999999" parses to 999999999999999999 |
| Units.ParsesBareFraction | units_test.go:32-38 | ".999999999999999999" parses to 999999999999999999 |
| Units.ParsesLargeAmount | units_test.go:39-63 | eighteen nines, a dot and eighteen nines parse to thirty-six nines |

## Left out

- db.go (the SQL schema, the table adapters and the base-16 persistence of quantities) and cmd/coincount/main.go (command line, environment, JSON files, logging) are I/O and are not part of this model.
- The bodies of `multiplyRoundUp` and `divideRound` are in a file that is not part of this model; they are parameters, so no rounding rule is assumed.
- `round` and `toFixed` (units.go:34-41) are float64 arithmetic and are not modelled.
- The commented-out `PurchaseAssetWithEth` (coincount.go:149-179) is not code.
- coincount_test.go assigns float literals to `*big.Int` fields, so its expected cost is not an oracle here.
- int64 overflow of money amounts (for example `-1 * debitAmount` at coincount.go:117 for the smallest int64) is not modelled; amounts are unbounded.
- `*big.Int` values are mathematical integers, so pointer aliasing between quantities is not modelled. The Go slice behind a `TransactionQueue` is a value, so sharing of its backing array is not modelled.
- `time.Time` is an opaque integer that is only copied.
- Go strings are byte sequences and Dafny strings are character sequences. They agree on the ASCII digits, dot and signs the parser is meant for.
- Units.ParseEtherFloatToWei: requires both digit strings it reads to be accepted by `SetString`. For other input math/big leaves the value undefined.
- `Err` carries only the error. The value Go returns beside an error is dropped: the `0` that `CalcCost` returns with "Out of Inventory" (coincount.go:203), and the zero `InventoryTransaction` that `Dequeue` and `Peek` return on an empty queue (coincount.go:251-253, 262-264). No caller reads them.
- Fifo.MatchLots: the matching loop of `CalcCost` is a separate method over the two queues, which are `CalcCost`'s locals (coincount.go:187); the contents of the queues after the loop are not specified.
- The fixture lists (`GLAccounts`, `InventoryItems`, `Vendors`) and the fixtures `MiningPayout` does not use are not modelled.
