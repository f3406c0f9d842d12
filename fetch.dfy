/** The fetchers and the batch helpers: one request per symbol, and one
    outcome per request, in the order of the symbol list. */
module Fetch {
  import opened Wrappers

  /** A trading symbol such as "XRPUSDT". */
  type Symbol = string

  /** The two exchange endpoints: the current ticker price and the one-hour
      candlestick: the latest, still open hourly candle, whose high covers the
      time since the current hour began. */
  datatype Endpoint = TickerPrice | HourKlines

  /** One outbound request: an endpoint queried for a symbol. */
  datatype Request = Request(endpoint: Endpoint, symbol: Symbol)

  /** A response: its HTTP status and the price decoded from its body (the
      `price` field of a ticker, the high field of the first candlestick). */
  datatype Response = Response(status: int, price: real)

  const StatusOk: int := 200

  /** The outcome of one fetch: the decoded price when the status is 200,
      otherwise the not-available value. */
  function OutcomeOf(resp: Response): (r: Option<real>)
    ensures r == None <==> resp.status != StatusOk
    ensures r.Some? ==> r.value == resp.price
  {
    if resp.status == StatusOk then Some(resp.price) else None
  }

  /** The outcomes a batch over `symbols` yields when the i-th request of the
      batch receives `answer(i, symbols[i])`. */
  function Outcomes(symbols: seq<Symbol>, answer: (nat, Symbol) -> Response): seq<Option<real>>
  {
    seq(|symbols|, i requires 0 <= i < |symbols| => OutcomeOf(answer(i, symbols[i])))
  }

  /** The requests a batch over `symbols` issues at `endpoint`. */
  function Requests(endpoint: Endpoint, symbols: seq<Symbol>): seq<Request>
  {
    seq(|symbols|, i requires 0 <= i < |symbols| => Request(endpoint, symbols[i]))
  }

  /** A batch helper: one task per symbol, appended in list order, then all
      awaited together; the joined outcomes keep the order of the tasks. */
  method GatherBatch(endpoint: Endpoint, symbols: seq<Symbol>, answer: (nat, Symbol) -> Response)
    returns (requests: seq<Request>, outcomes: seq<Option<real>>)
    ensures |requests| == |symbols| && |outcomes| == |symbols|
    ensures forall i :: 0 <= i < |symbols| ==> requests[i] == Request(endpoint, symbols[i])
    ensures forall i :: 0 <= i < |symbols| ==> outcomes[i] == OutcomeOf(answer(i, symbols[i]))
    ensures requests == Requests(endpoint, symbols) && outcomes == Outcomes(symbols, answer)
  {
    requests := [];
    for i := 0 to |symbols|
      invariant |requests| == i
      invariant forall k :: 0 <= k < i ==> requests[k] == Request(endpoint, symbols[k])
    {
      requests := requests + [Request(endpoint, symbols[i])];
    }
    // gathering the tasks: all requests are answered, the results in task order
    outcomes := seq(|requests|, i requires 0 <= i < |requests| => OutcomeOf(answer(i, requests[i].symbol)));
  }
}
