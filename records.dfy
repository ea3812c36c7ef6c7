/**
  The record types of the bookkeeping core (coincount.go, lines 10-63) and
  the two errors it reports.  Quantities (`*big.Int` in the source) and
  money amounts (`int64`) are unbounded integers here.
 */
module Records {

  /** An instant (`time.Time`); the core only copies it from input to output. */
  type Date = int

  datatype Account = Account(ID: int, Name: string)

  datatype Item = Item(ID: int, Name: string)

  datatype Vendor = Vendor(ID: int, Name: string)

  /** One general-ledger row; all rows of one posting share `ID`. */
  datatype GLTransaction = GLTransaction(
    ID: int,
    Date: Date,
    Account: Account,
    Debit: int,
    Credit: int,
    Memo: string)

  /** One inventory movement: an acquisition (`QtyIn`) or a disposal (`QtyOut`). */
  datatype InventoryTransaction = InventoryTransaction(
    ID: int,
    Date: Date,
    Account: Account,
    Item: Item,
    QtyIn: int,
    QtyOut: int,
    Cost: int,
    Amount: int,
    Memo: string)

  /** One line of a purchase; `Qty` is signed, negative meaning a return. */
  datatype PurchaseItem = PurchaseItem(
    Item: Item,
    InventoryAccount: Account,
    Qty: int,
    Cost: int,
    Amount: int)

  datatype Purchase = Purchase(
    ID: int,
    Date: Date,
    Vendor: Vendor,
    PayableAccount: Account,
    Amount: int,
    Items: seq<PurchaseItem>)

  /** The errors the core returns (`ErrEmptyQueue` and "Out of Inventory"). */
  datatype Error = EmptyQueue | OutOfInventory {
    /** The text of the Go error value. */
    function Message(): string {
      match this
      case EmptyQueue => "Empty Queue"
      case OutOfInventory => "Out of Inventory"
    }
  }

  /** A value or the error a Go `(value, err)` pair carries instead. */
  datatype Result<T> = Ok(value: T) | Err(error: Error)

  datatype Option<T> = None | Some(value: T)
}
