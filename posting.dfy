/**
  The posting engine of coincount.go: a mining payout becomes a purchase,
  and a purchase becomes inventory movements plus general-ledger rows that
  share one ledger-transaction ID.
 */
module Posting {
  import opened Records
  import opened Fixtures
  import opened Decimal

  /** `pos`/`neg` is the normalised form of the signed value `v`: both
      non-negative, their difference `v`, at most one of them nonzero. */
  predicate IsSplitOf(pos: int, neg: int, v: int) {
    pos >= 0 && neg >= 0 && pos - neg == v && (pos == 0 || neg == 0)
  }

  /** The rule the source applies to a line's quantity, to a line's amount
      and (with the roles swapped) to the purchase total. */
  function SplitSigned(v: int): (r: (int, int))
    ensures IsSplitOf(r.0, r.1, v)
  {
    if v < 0 then (0, -v) else (v, 0)
  }

  /** A purchase for mined coins: one line of `qty` Ether at the cost of the
      electricity, owed to the electric company. */
  function MiningPayout(date: Date, qty: int, costOfElectricity: int,
                        multiplyRoundUp: (int, int) -> int): (p: Purchase)
    ensures p.ID == 0
    ensures p.Date == date && p.Vendor == ElectricCompany && p.PayableAccount == ElectricBill
    ensures p.Amount == multiplyRoundUp(qty, costOfElectricity)
    ensures |p.Items| == 1
    ensures p.Items[0].Item == Ether && p.Items[0].InventoryAccount == EthMain
    ensures p.Items[0].Qty == qty && p.Items[0].Cost == costOfElectricity
    ensures p.Items[0].Amount == p.Amount
  {
    var amt := multiplyRoundUp(qty, costOfElectricity);
    Purchase(0, date, ElectricCompany, ElectricBill, amt,
             [PurchaseItem(Ether, EthMain, qty, costOfElectricity, amt)])
  }

  /** The memo every row of a posting carries: "PUR-" and the purchase ID. */
  function PurchaseMemo(id: int): (memo: string)
    ensures |memo| > 4 && memo[..4] == "PUR-" && memo[4..] == FormatInt(id)
  {
    "PUR-" + FormatInt(id)
  }

  /** The lines that posting keeps, in order: those whose item ID is positive. */
  function Kept(items: seq<PurchaseItem>): (r: seq<PurchaseItem>)
    ensures |r| <= |items|
  {
    if items == [] then []
    else
      var init, last := items[..|items| - 1], items[|items| - 1];
      if last.Item.ID > 0 then Kept(init) + [last] else Kept(init)
  }

  /** Posting keeps exactly the lines whose item ID is positive. */
  lemma {:induction false} KeptExactly(items: seq<PurchaseItem>)
    ensures forall x :: x in Kept(items) <==> x in items && x.Item.ID > 0
  {
    if items != [] {
      var init, last := items[..|items| - 1], items[|items| - 1];
      assert items == init + [last];
      KeptExactly(init);
    }
  }

  /** The movement a kept line produces. */
  function MovementOf(date: Date, line: PurchaseItem, memo: string): (m: InventoryTransaction)
    ensures IsSplitOf(m.QtyIn, m.QtyOut, line.Qty)
  {
    var split := SplitSigned(line.Qty);
    InventoryTransaction(0, date, line.InventoryAccount, line.Item, split.0, split.1, line.Cost, 0, memo)
  }

  /** The ledger row a kept line produces against its inventory account. */
  function LineRow(date: Date, line: PurchaseItem, next: int, memo: string): (g: GLTransaction)
    ensures IsSplitOf(g.Debit, g.Credit, line.Amount)
  {
    var split := SplitSigned(line.Amount);
    GLTransaction(next, date, line.InventoryAccount, split.0, split.1, memo)
  }

  /** The closing row against the payable account: a positive total is a credit. */
  function PayableRow(date: Date, purchase: Purchase, next: int, memo: string): (g: GLTransaction)
    ensures IsSplitOf(g.Credit, g.Debit, purchase.Amount)
  {
    var split := SplitSigned(purchase.Amount);
    GLTransaction(next, date, purchase.PayableAccount, split.1, split.0, memo)
  }

  /** A line of zero quantity and zero amount still posts: a movement with
      neither side set and a ledger row with neither side set, so "at most
      one side nonzero" is all the split guarantees. */
  lemma ZeroLinePostsZeros(date: Date, line: PurchaseItem, next: int, memo: string)
    requires line.Qty == 0 && line.Amount == 0
    ensures MovementOf(date, line, memo).QtyIn == 0 && MovementOf(date, line, memo).QtyOut == 0
    ensures LineRow(date, line, next, memo).Debit == 0 && LineRow(date, line, next, memo).Credit == 0
  {
  }

  function Movements(date: Date, lines: seq<PurchaseItem>, memo: string): (r: seq<InventoryTransaction>)
    ensures |r| == |lines|
  {
    if lines == [] then []
    else Movements(date, lines[..|lines| - 1], memo) + [MovementOf(date, lines[|lines| - 1], memo)]
  }

  function LineRows(date: Date, lines: seq<PurchaseItem>, next: int, memo: string): (r: seq<GLTransaction>)
    ensures |r| == |lines|
  {
    if lines == [] then []
    else LineRows(date, lines[..|lines| - 1], next, memo) + [LineRow(date, lines[|lines| - 1], next, memo)]
  }

  lemma {:induction false} MovementsAt(date: Date, lines: seq<PurchaseItem>, memo: string, k: nat)
    requires k < |lines|
    ensures Movements(date, lines, memo)[k] == MovementOf(date, lines[k], memo)
  {
    if k < |lines| - 1 {
      MovementsAt(date, lines[..|lines| - 1], memo, k);
    }
  }

  lemma {:induction false} LineRowsAt(date: Date, lines: seq<PurchaseItem>, next: int, memo: string, k: nat)
    requires k < |lines|
    ensures LineRows(date, lines, next, memo)[k] == LineRow(date, lines[k], next, memo)
  {
    if k < |lines| - 1 {
      LineRowsAt(date, lines[..|lines| - 1], next, memo, k);
    }
  }

  lemma KeptStep(items: seq<PurchaseItem>, i: nat)
    requires i < |items|
    ensures Kept(items[..i + 1])
            == if items[i].Item.ID > 0 then Kept(items[..i]) + [items[i]] else Kept(items[..i])
  {
    assert items[..i + 1][..i] == items[..i];
  }

  lemma MovementsSnoc(date: Date, lines: seq<PurchaseItem>, line: PurchaseItem, memo: string)
    ensures Movements(date, lines + [line], memo) == Movements(date, lines, memo) + [MovementOf(date, line, memo)]
  {
    assert (lines + [line])[..|lines|] == lines;
  }

  lemma LineRowsSnoc(date: Date, lines: seq<PurchaseItem>, line: PurchaseItem, next: int, memo: string)
    ensures LineRows(date, lines + [line], next, memo)
            == LineRows(date, lines, next, memo) + [LineRow(date, line, next, memo)]
  {
    assert (lines + [line])[..|lines|] == lines;
  }

  /** All ledger rows of a posting: one per kept line, then the payable row. */
  function PostedRows(date: Date, purchase: Purchase, next: int): seq<GLTransaction> {
    var memo := PurchaseMemo(purchase.ID);
    LineRows(date, Kept(purchase.Items), next, memo) + [PayableRow(date, purchase, next, memo)]
  }

  /** The movement copies the line's account, item and cost and splits its quantity. */
  predicate MovementMatches(m: InventoryTransaction, line: PurchaseItem, date: Date, memo: string) {
    && IsSplitOf(m.QtyIn, m.QtyOut, line.Qty)
    && m.Account == line.InventoryAccount && m.Item == line.Item && m.Cost == line.Cost
    && m.Date == date && m.Memo == memo
  }

  function SumAmounts(lines: seq<PurchaseItem>): int {
    if lines == [] then 0 else SumAmounts(lines[..|lines| - 1]) + lines[|lines| - 1].Amount
  }

  function TotalDebit(rows: seq<GLTransaction>): int {
    if rows == [] then 0 else TotalDebit(rows[..|rows| - 1]) + rows[|rows| - 1].Debit
  }

  function TotalCredit(rows: seq<GLTransaction>): int {
    if rows == [] then 0 else TotalCredit(rows[..|rows| - 1]) + rows[|rows| - 1].Credit
  }

  /** Double-entry balance: the debits of a posting equal its credits. */
  predicate Balanced(rows: seq<GLTransaction>) {
    TotalDebit(rows) == TotalCredit(rows)
  }

  /** Posts a purchase: one movement and one ledger row per kept line, then the
      payable row; every row carries the given ID, date and memo. */
  method PostPurchase(date: Date, purchase: Purchase, nextGLTransaction: int)
    returns (inventoryTransactions: seq<InventoryTransaction>, glTransactions: seq<GLTransaction>)
    ensures inventoryTransactions == Movements(date, Kept(purchase.Items), PurchaseMemo(purchase.ID))
    ensures glTransactions == PostedRows(date, purchase, nextGLTransaction)
    ensures |glTransactions| == |inventoryTransactions| + 1
    ensures Balanced(glTransactions) <==> purchase.Amount == SumAmounts(Kept(purchase.Items))
  {
    var memo := PurchaseMemo(purchase.ID);
    var items := purchase.Items;
    inventoryTransactions, glTransactions := [], [];
    var i := 0;
    while i < |items|
      invariant 0 <= i <= |items|
      invariant inventoryTransactions == Movements(date, Kept(items[..i]), memo)
      invariant glTransactions == LineRows(date, Kept(items[..i]), nextGLTransaction, memo)
    {
      var item := items[i];
      KeptStep(items, i);
      if item.Item.ID > 0 {
        var qtyIn, qtyOut := item.Qty, 0;
        if qtyIn < 0 {
          qtyOut := -qtyIn;
          qtyIn := 0;
        }
        assert qtyIn == SplitSigned(item.Qty).0 && qtyOut == SplitSigned(item.Qty).1;
        MovementsSnoc(date, Kept(items[..i]), item, memo);
        inventoryTransactions := inventoryTransactions +
          [InventoryTransaction(0, date, item.InventoryAccount, item.Item, qtyIn, qtyOut, item.Cost, 0, memo)];

        var debitAmount, creditAmount := item.Amount, 0;
        if debitAmount < 0 {
          creditAmount := -1 * debitAmount;
          debitAmount := 0;
        }
        assert debitAmount == SplitSigned(item.Amount).0 && creditAmount == SplitSigned(item.Amount).1;
        LineRowsSnoc(date, Kept(items[..i]), item, nextGLTransaction, memo);
        glTransactions := glTransactions +
          [GLTransaction(nextGLTransaction, date, item.InventoryAccount, debitAmount, creditAmount, memo)];
      }
      i := i + 1;
    }
    assert items[..i] == items;

    var debitAmount, creditAmount := 0, purchase.Amount;
    if creditAmount < 0 {
      debitAmount := -1 * creditAmount;
      creditAmount := 0;
    }
    assert creditAmount == SplitSigned(purchase.Amount).0 && debitAmount == SplitSigned(purchase.Amount).1;
    glTransactions := glTransactions +
      [GLTransaction(nextGLTransaction, date, purchase.PayableAccount, debitAmount, creditAmount, memo)];
    PostedRowsBalanced(date, purchase, nextGLTransaction);
  }

  /** What a posting emits, row by row: one movement per kept line that copies
      the line and splits its quantity, one ledger row per kept line that splits
      its amount, and a last row for the payable account that splits the total
      with debit and credit reversed; every ledger row carries the posting's ID,
      date and memo. */
  lemma PostingShape(date: Date, purchase: Purchase, next: int)
    ensures var lines := Kept(purchase.Items);
      |Movements(date, lines, PurchaseMemo(purchase.ID))| == |lines| &&
      |PostedRows(date, purchase, next)| == |lines| + 1
    ensures var lines, memo := Kept(purchase.Items), PurchaseMemo(purchase.ID);
      forall k :: 0 <= k < |lines| ==> MovementMatches(Movements(date, lines, memo)[k], lines[k], date, memo)
    ensures forall g :: g in PostedRows(date, purchase, next) ==>
      g.ID == next && g.Date == date && g.Memo == PurchaseMemo(purchase.ID)
    ensures var lines, rows := Kept(purchase.Items), PostedRows(date, purchase, next);
      forall k :: 0 <= k < |lines| ==>
        rows[k].Account == lines[k].InventoryAccount && IsSplitOf(rows[k].Debit, rows[k].Credit, lines[k].Amount)
    ensures var lines, rows := Kept(purchase.Items), PostedRows(date, purchase, next);
      rows[|lines|].Account == purchase.PayableAccount &&
      IsSplitOf(rows[|lines|].Credit, rows[|lines|].Debit, purchase.Amount)
  {
    var lines, memo := Kept(purchase.Items), PurchaseMemo(purchase.ID);
    var rows := PostedRows(date, purchase, next);
    forall k | 0 <= k < |lines|
      ensures Movements(date, lines, memo)[k] == MovementOf(date, lines[k], memo)
      ensures rows[k] == LineRow(date, lines[k], next, memo)
    {
      MovementsAt(date, lines, memo, k);
      LineRowsAt(date, lines, next, memo, k);
    }
  }

  /** The line rows of a posting debit, net of credits, exactly the lines' amounts. */
  lemma {:induction false} LineRowsNet(date: Date, lines: seq<PurchaseItem>, next: int, memo: string)
    ensures TotalDebit(LineRows(date, lines, next, memo)) - TotalCredit(LineRows(date, lines, next, memo))
            == SumAmounts(lines)
  {
    if lines != [] {
      var init := lines[..|lines| - 1];
      LineRowsNet(date, init, next, memo);
      var rows := LineRows(date, lines, next, memo);
      assert rows[..|rows| - 1] == LineRows(date, init, next, memo);
    }
  }

  /** A posting balances exactly when the purchase total equals the sum of the
      amounts of the lines it keeps. */
  lemma PostedRowsBalanced(date: Date, purchase: Purchase, next: int)
    ensures Balanced(PostedRows(date, purchase, next))
            <==> purchase.Amount == SumAmounts(Kept(purchase.Items))
  {
    var memo := PurchaseMemo(purchase.ID);
    var lines := LineRows(date, Kept(purchase.Items), next, memo);
    var rows := PostedRows(date, purchase, next);
    assert rows[..|rows| - 1] == lines;
    LineRowsNet(date, Kept(purchase.Items), next, memo);
  }

  /** Posting a mining payout always balances: its single line is kept (Ether
      has a positive ID) and carries the whole purchase amount. */
  lemma MiningPayoutPostsBalanced(date: Date, qty: int, costOfElectricity: int,
                                  multiplyRoundUp: (int, int) -> int, next: int)
    ensures Balanced(PostedRows(date, MiningPayout(date, qty, costOfElectricity, multiplyRoundUp), next))
  {
    var p := MiningPayout(date, qty, costOfElectricity, multiplyRoundUp);
    assert p.Items[..0] == [];
    assert Kept(p.Items) == p.Items;
    PostedRowsBalanced(date, p, next);
  }

  /** A purchase of one kept, positive line whose amount is the total posts as
      two mirror-image rows: a debit to inventory and a credit to payables. */
  lemma SingleLineMirror(date: Date, purchase: Purchase, next: int)
    requires |purchase.Items| == 1 && purchase.Items[0].Item.ID > 0
    requires purchase.Items[0].Amount == purchase.Amount && purchase.Amount > 0
    ensures |PostedRows(date, purchase, next)| == 2
    ensures PostedRows(date, purchase, next)[0].Account == purchase.Items[0].InventoryAccount
    ensures PostedRows(date, purchase, next)[0].Debit == purchase.Amount
    ensures PostedRows(date, purchase, next)[0].Credit == 0
    ensures PostedRows(date, purchase, next)[1].Account == purchase.PayableAccount
    ensures PostedRows(date, purchase, next)[1].Debit == 0
    ensures PostedRows(date, purchase, next)[1].Credit == purchase.Amount
  {
    assert purchase.Items[..0] == [];
    assert Kept(purchase.Items) == purchase.Items;
  }
}
