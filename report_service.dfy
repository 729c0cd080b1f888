/** ReportService: a read-only summary of one book drawn from the three registries. */
module Reports {
  import opened Wrappers
  import opened Entities
  import opened Model
  import opened BookRegistry
  import opened OrderRegistry
  import opened ExecutionLog

  /** The report of a book: its name, "Closed" or "Open", its cached orders split into completed
      and pending, and the executions triggered on it. */
  datatype Report = Report(
    bookName: string,
    bookStatus: string,
    completedOrders: seq<OrderEntity>,
    pendingOrders: seq<OrderEntity>,
    triggeredExecutions: seq<ExecutionEntity>)

  class ReportService {
    const bookService: BookService
    const orderService: OrderService
    const executionService: ExecutionService

    constructor (books: BookService, orders: OrderService, executions: ExecutionService)
      ensures bookService == books && orderService == orders && executionService == executions
    {
      bookService := books;
      orderService := orders;
      executionService := executions;
    }

    /** The report of `bookName`. An unknown book fails with BookDoesNotExists, as the status
        query does. Otherwise the report carries the name, the status word matching the closed
        flag, the book's orders split by whether anything is left to fill (every cached order in
        exactly one of the two lists, none in both), and the book's execution history. */
    function GenerateReportForBook(bookName: string): (r: Result<Report, Error>)
      reads bookService, orderService, executionService
      ensures r.Failure? <==> !bookService.IsBookAvailable(bookName)
      ensures r.Failure? ==> r.error == BookDoesNotExists
      ensures r.Success? ==>
                && r.value.bookName == bookName
                && (r.value.bookStatus == "Closed" <==> bookService.booksMap[bookName])
                && (r.value.bookStatus == "Open" <==> !bookService.booksMap[bookName])
      ensures r.Success? ==>
                && r.value.completedOrders == orderService.GetCompletedOrdersForBook(bookName)
                && r.value.pendingOrders == orderService.GetPendingOrdersForBook(bookName)
                && r.value.triggeredExecutions == executionService.GetTriggeredExecutionsForBook(bookName)
      ensures r.Success? ==>
                var active := orderService.GetActiveOrdersForBook(bookName);
                && (forall o :: o in r.value.completedOrders <==> o in active && o.remainingQuantity == 0)
                && (forall o :: o in r.value.pendingOrders <==> o in active && o.remainingQuantity != 0)
                && multiset(r.value.completedOrders) + multiset(r.value.pendingOrders) == multiset(active)
                && multiset(r.value.completedOrders) !! multiset(r.value.pendingOrders)
      ensures r.Success? ==>
                && (bookName in executionService.executionsMap ==>
                      r.value.triggeredExecutions == executionService.executionsMap[bookName])
                && (bookName !in executionService.executionsMap ==> r.value.triggeredExecutions == [])
    {
      match bookService.IsBookClosed(bookName)
      case Failure(e) => Failure(e)
      case Success(isBookClosed) =>
        CompletedPendingPartition(orderService.GetActiveOrdersForBook(bookName));
        Success(Report(
          bookName,
          if isBookClosed then "Closed" else "Open",
          orderService.GetCompletedOrdersForBook(bookName),
          orderService.GetPendingOrdersForBook(bookName),
          executionService.GetTriggeredExecutionsForBook(bookName)))
    }
  }
}
