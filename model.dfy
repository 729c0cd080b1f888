/** The value types of the `model` package and the error kinds of the `exceptions` package. */
module Model {
  import opened Wrappers

  /** The side of a resting order. */
  datatype OrderType = BUY | SELL

  /** The side of an incoming execution: an OFFER consumes BUY orders, an ASK consumes SELL orders. */
  datatype ExecutionType = OFFER | ASK

  /** An order as a client submits it. `orderId` is the nullable identity; prices are integers
      (the source only compares them) and `entryDate` is an integer timestamp. */
  datatype Order = Order(
    orderId: Option<int>,
    instrumentId: int,
    quantity: int,
    entryDate: int,
    orderType: OrderType,
    price: int,
    bookName: string)

  /** An incoming fill request against a book. */
  datatype Execution = Execution(
    instrumentId: int,
    quantity: int,
    executionType: ExecutionType,
    price: int,
    bookName: string)

  /** A book and its open/closed status. */
  datatype Book = Book(bookName: string, isClosed: bool)

  /** The exception classes the services throw, one constructor per class. */
  datatype Error =
    | BookDoesNotExists
    | BookAlreadyExists
    | BookClosed
    | BookOpen
    | OrderAlreadyExists
    | OrderNotAvailable
    | InactiveOrder
}
