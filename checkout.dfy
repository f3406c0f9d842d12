/** One checkout cycle: fetch the current prices and the one-hour highs of
    the configured symbols, pair them by position, and alert every position
    whose current price is more than one percent below the high. */
module Checkout {
  import opened Wrappers
  import opened Pairing
  import opened Fetch

  /** A price alerts when it is below this fraction of the high. */
  const DropFactor: real := 0.99

  /** Which operand of the comparison was the not-available value; Python
      raises a TypeError for either, evaluating the high's product first. */
  datatype Missing = MissingHigh | MissingPrice

  /** The cycle stopped at `position` of the symbol list. */
  datatype Abort = Abort(position: nat, missing: Missing)

  /** What one cycle did: the alerts it emitted, in order, and whether it
      was cut short by an exception (alerts emitted before it stay emitted). */
  datatype Cycle = Cycle(alerts: seq<Symbol>, abort: Option<Abort>)

  /** The comparison `price < high * 0.99` for one list position. */
  function Compare(price: Option<real>, high: Option<real>): (r: Result<bool, Missing>)
    ensures r.Ok? <==> price.Some? && high.Some?
    ensures high.None? ==> r == Err(MissingHigh)
    ensures high.Some? && price.None? ==> r == Err(MissingPrice)
    ensures r.Ok? ==> (r.value <==> price.value < high.value * DropFactor)
  {
    match high
    case None => Err(MissingHigh)
    case Some(h) =>
      match price
      case None => Err(MissingPrice)
      case Some(p) => Ok(p < h * DropFactor)
  }

  /** A comparison that does not raise has both operands available, and it
      alerts exactly when the price is below 99% of the high. */
  lemma CompareOkTrue(price: Option<real>, high: Option<real>)
    requires Compare(price, high).Ok?
    ensures price.Some? && high.Some?
    ensures Compare(price, high) == Ok(true) <==> price.value < high.value * DropFactor
  {
  }

  /** The comparison is strict: a price of exactly 99% of the high does not alert. */
  lemma CompareBoundary(high: real)
    ensures Compare(Some(high * DropFactor), Some(high)) == Ok(false)
  {
  }

  /** For a positive high, a price alerts exactly when it lies more than one
      percent below the high. */
  lemma CompareOnePercent(price: real, high: real)
    requires high > 0.0
    ensures Compare(Some(price), Some(high)) == Ok(true) <==> (high - price) / high > 0.01
  {
    var d := (high - price) / high;
    assert high - price == d * high;
    if d > 0.01 {
      assert d * high > 0.01 * high;
      assert price < high * DropFactor;
    } else {
      assert d * high <= 0.01 * high;
      assert price >= high * DropFactor;
    }
  }

  /** The dictionary from each symbol to its one-hour high, built from the
      two lists paired by position. */
  function HighMap(symbols: seq<Symbol>, highs: seq<Option<real>>): map<Symbol, Option<real>>
  {
    DictOf(Zip(symbols, highs))
  }

  /** The high map has exactly the symbols of the list as keys. */
  lemma HighMapKeys(symbols: seq<Symbol>, highs: seq<Option<real>>)
    requires |highs| == |symbols|
    ensures HighMap(symbols, highs).Keys == set s | s in symbols
  {
    ZipDictKeys(symbols, highs);
  }

  /** Every symbol of the list can be looked up in the high map. */
  lemma HighMapHasSymbols(symbols: seq<Symbol>, highs: seq<Option<real>>)
    requires |highs| == |symbols|
    ensures forall k :: 0 <= k < |symbols| ==> symbols[k] in HighMap(symbols, highs)
  {
    HighMapKeys(symbols, highs);
  }

  /** For a duplicated symbol the high from its last position wins. */
  lemma HighMapLastWins(symbols: seq<Symbol>, highs: seq<Option<real>>, i: nat)
    requires |highs| == |symbols| && i < |symbols|
    ensures symbols[i] in HighMap(symbols, highs)
    ensures HighMap(symbols, highs)[symbols[i]] == highs[LastIndex(symbols, symbols[i])]
  {
    ZipDictAt(symbols, highs, i);
  }

  /** The loop over the price list after its first `n` positions, looking
      each symbol up in the high map `m`. */
  function Scan(symbols: seq<Symbol>, prices: seq<Option<real>>, m: map<Symbol, Option<real>>, n: nat): Cycle
    requires n <= |symbols| && n <= |prices|
    requires forall i :: 0 <= i < n ==> symbols[i] in m
  {
    if n == 0 then Cycle([], None)
    else
      var c := Scan(symbols, prices, m, n - 1);
      if c.abort.Some? then c
      else
        match Compare(prices[n - 1], m[symbols[n - 1]])
        case Err(e) => Cycle(c.alerts, Some(Abort(n - 1, e)))
        case Ok(b) => Cycle(if b then c.alerts + [symbols[n - 1]] else c.alerts, None)
  }

  /** A cycle over equally long lists of symbols, current prices and highs. */
  function CycleOf(symbols: seq<Symbol>, prices: seq<Option<real>>, highs: seq<Option<real>>): Cycle
    requires |prices| == |symbols| && |highs| == |symbols|
  {
    HighMapKeys(symbols, highs);
    Scan(symbols, prices, HighMap(symbols, highs), |symbols|)
  }

  /** The position up to which the loop ran its comparisons without raising. */
  function Reached(c: Cycle, n: nat): nat
  {
    if c.abort.Some? then c.abort.value.position else n
  }

  /** The decision for every position, stated without the dictionary: the
      current price at `i` against the high at the last position of its symbol. */
  function Decisions(symbols: seq<Symbol>, prices: seq<Option<real>>, highs: seq<Option<real>>): (ds: seq<Result<bool, Missing>>)
    requires |prices| == |symbols| && |highs| == |symbols|
  {
    seq(|symbols|, i requires 0 <= i < |symbols| => Compare(prices[i], highs[LastIndex(symbols, symbols[i])]))
  }

  /** The positions below `b` whose decision is to alert, in increasing order. */
  function AlertPositions(ds: seq<Result<bool, Missing>>, b: nat): (r: seq<nat>)
    requires b <= |ds|
    ensures forall k :: 0 <= k < |r| ==> r[k] < b
  {
    if b == 0 then []
    else AlertPositions(ds, b - 1) + if ds[b - 1] == Ok(true) then [b - 1] else []
  }

  /** The alerting positions are strictly increasing, so each position alerts
      at most once, and a position below `b` is among them exactly when its
      decision is to alert. */
  lemma {:induction false} AlertPositionsSpec(ds: seq<Result<bool, Missing>>, b: nat)
    requires b <= |ds|
    ensures forall k, l :: 0 <= k < l < |AlertPositions(ds, b)| ==>
              AlertPositions(ds, b)[k] < AlertPositions(ds, b)[l]
    ensures forall i :: 0 <= i < b ==> (i in AlertPositions(ds, b) <==> ds[i] == Ok(true))
  {
    if b > 0 {
      AlertPositionsSpec(ds, b - 1);
      var r := AlertPositions(ds, b - 1);
      assert forall k :: 0 <= k < |r| ==> r[k] < b - 1;
    }
  }

  /** The symbols at the given positions, in the order of the positions. */
  function Pick(symbols: seq<Symbol>, positions: seq<nat>): seq<Symbol>
    requires forall k :: 0 <= k < |positions| ==> positions[k] < |symbols|
  {
    seq(|positions|, k requires 0 <= k < |positions| => symbols[positions[k]])
  }

  /** Picking one more position appends its symbol. */
  lemma PickAppend(symbols: seq<Symbol>, positions: seq<nat>, x: nat)
    requires forall k :: 0 <= k < |positions| ==> positions[k] < |symbols|
    requires x < |symbols|
    ensures Pick(symbols, positions + [x]) == Pick(symbols, positions) + [symbols[x]]
  {
  }

  /** Looking the symbols of the first `n` positions up in `m` gives the
      decisions `ds`. */
  ghost predicate Agrees(symbols: seq<Symbol>, prices: seq<Option<real>>, m: map<Symbol, Option<real>>, ds: seq<Result<bool, Missing>>, n: nat)
    requires n <= |symbols| && n <= |prices| && n <= |ds|
  {
    forall i :: 0 <= i < n ==> symbols[i] in m && Compare(prices[i], m[symbols[i]]) == ds[i]
  }

  /** Looking a symbol up in the high map finds the high of its last position. */
  lemma HighMapAgrees(symbols: seq<Symbol>, prices: seq<Option<real>>, highs: seq<Option<real>>)
    requires |prices| == |symbols| && |highs| == |symbols|
    ensures Agrees(symbols, prices, HighMap(symbols, highs), Decisions(symbols, prices, highs), |symbols|)
  {
    forall i | 0 <= i < |symbols|
      ensures symbols[i] in HighMap(symbols, highs)
      ensures Compare(prices[i], HighMap(symbols, highs)[symbols[i]]) == Decisions(symbols, prices, highs)[i]
    {
      HighMapLastWins(symbols, highs, i);
    }
  }

  /** The loop stops at the first decision that raises, and every decision
      before the stop succeeds. */
  lemma {:induction false} ScanReach(symbols: seq<Symbol>, prices: seq<Option<real>>, m: map<Symbol, Option<real>>, ds: seq<Result<bool, Missing>>, n: nat)
    requires n <= |symbols| && n <= |prices| && n <= |ds|
    requires Agrees(symbols, prices, m, ds, n)
    ensures Reached(Scan(symbols, prices, m, n), n) <= n
    ensures forall i :: 0 <= i < Reached(Scan(symbols, prices, m, n), n) ==> ds[i].Ok?
    ensures Scan(symbols, prices, m, n).abort.Some? ==>
              && Reached(Scan(symbols, prices, m, n), n) < n
              && ds[Reached(Scan(symbols, prices, m, n), n)] == Err(Scan(symbols, prices, m, n).abort.value.missing)
  {
    if n > 0 {
      ScanReach(symbols, prices, m, ds, n - 1);
    }
  }

  /** The alerts of the loop are the symbols of the alerting positions
      before the stop, in list order. */
  lemma {:induction false} ScanAlerts(symbols: seq<Symbol>, prices: seq<Option<real>>, m: map<Symbol, Option<real>>, ds: seq<Result<bool, Missing>>, n: nat)
    requires n <= |symbols| && n <= |prices| && n <= |ds|
    requires Agrees(symbols, prices, m, ds, n)
    ensures Reached(Scan(symbols, prices, m, n), n) <= n
    ensures Scan(symbols, prices, m, n).alerts ==
            Pick(symbols, AlertPositions(ds, Reached(Scan(symbols, prices, m, n), n)))
  {
    if n > 0 {
      ScanAlerts(symbols, prices, m, ds, n - 1);
      var c := Scan(symbols, prices, m, n - 1);
      if c.abort.None? {
        var pos := AlertPositions(ds, n - 1);
        if ds[n - 1] == Ok(true) {
          PickAppend(symbols, pos, n - 1);
        }
      }
    }
  }

  /** Once a cycle has raised, later positions change nothing. */
  lemma {:induction false} ScanStaysAborted(symbols: seq<Symbol>, prices: seq<Option<real>>, m: map<Symbol, Option<real>>, i: nat, n: nat)
    requires i <= n <= |symbols| && n <= |prices|
    requires forall k :: 0 <= k < n ==> symbols[k] in m
    requires Scan(symbols, prices, m, i).abort.Some?
    ensures Scan(symbols, prices, m, n) == Scan(symbols, prices, m, i)
  {
    if i < n {
      ScanStaysAborted(symbols, prices, m, i, n - 1);
    }
  }

  /** What a cycle does, stated position by position: it raises at the first
      position whose decision raises, and otherwise emits, in list order, the
      symbols of the positions before that whose decision is to alert. */
  lemma CheckoutSpec(symbols: seq<Symbol>, prices: seq<Option<real>>, highs: seq<Option<real>>)
    requires |prices| == |symbols| && |highs| == |symbols|
    ensures var c := CycleOf(symbols, prices, highs);
            var ds := Decisions(symbols, prices, highs);
            var b := Reached(c, |symbols|);
            && b <= |symbols|
            && (forall i :: 0 <= i < b ==> ds[i].Ok?)
            && (c.abort.Some? ==> b < |symbols| && ds[b] == Err(c.abort.value.missing))
            && c.alerts == Pick(symbols, AlertPositions(ds, b))
  {
    HighMapAgrees(symbols, prices, highs);
    var m := HighMap(symbols, highs);
    var ds := Decisions(symbols, prices, highs);
    ScanReach(symbols, prices, m, ds, |symbols|);
    ScanAlerts(symbols, prices, m, ds, |symbols|);
  }

  /** A cycle completes exactly when every price, and the high of every
      symbol's last position, is available. */
  lemma CompletesIffAvailable(symbols: seq<Symbol>, prices: seq<Option<real>>, highs: seq<Option<real>>)
    requires |prices| == |symbols| && |highs| == |symbols|
    ensures CycleOf(symbols, prices, highs).abort.None? <==>
            forall i :: 0 <= i < |symbols| ==>
              prices[i].Some? && highs[LastIndex(symbols, symbols[i])].Some?
  {
    CheckoutSpec(symbols, prices, highs);
    var c := CycleOf(symbols, prices, highs);
    var ds := Decisions(symbols, prices, highs);
    if c.abort.Some? {
      var b := Reached(c, |symbols|);
      assert ds[b].Err?;
    } else {
      forall i | 0 <= i < |symbols|
        ensures prices[i].Some? && highs[LastIndex(symbols, symbols[i])].Some?
      {
        assert ds[i].Ok?;
      }
    }
  }

  /** In a completed cycle, position `i` alerts if and only if its current
      price is strictly below 99% of the high mapped to its symbol. */
  lemma AlertIff(symbols: seq<Symbol>, prices: seq<Option<real>>, highs: seq<Option<real>>, i: nat)
    requires |prices| == |symbols| && |highs| == |symbols| && i < |symbols|
    requires CycleOf(symbols, prices, highs).abort.None?
    ensures symbols[i] in HighMap(symbols, highs)
    ensures prices[i].Some? && HighMap(symbols, highs)[symbols[i]].Some?
    ensures i in AlertPositions(Decisions(symbols, prices, highs), |symbols|) <==>
            prices[i].value < HighMap(symbols, highs)[symbols[i]].value * DropFactor
  {
    var ds := Decisions(symbols, prices, highs);
    var h := highs[LastIndex(symbols, symbols[i])];
    assert ds[i] == Compare(prices[i], h);
    HighMapLastWins(symbols, highs, i);
    assert HighMap(symbols, highs)[symbols[i]] == h;
    CheckoutSpec(symbols, prices, highs);
    assert Reached(CycleOf(symbols, prices, highs), |symbols|) == |symbols|;
    assert ds[i].Ok?;
    CompareOkTrue(prices[i], h);
    AlertPositionsSpec(ds, |symbols|);
  }

  /** Every alert names a symbol of the list, and there are at most as many
      alerts as list positions. */
  lemma AlertsFromList(symbols: seq<Symbol>, prices: seq<Option<real>>, highs: seq<Option<real>>)
    requires |prices| == |symbols| && |highs| == |symbols|
    ensures |CycleOf(symbols, prices, highs).alerts| <= |symbols|
    ensures forall a :: a in CycleOf(symbols, prices, highs).alerts ==> a in symbols
  {
    CheckoutSpec(symbols, prices, highs);
    var c := CycleOf(symbols, prices, highs);
    var ds := Decisions(symbols, prices, highs);
    var b := Reached(c, |symbols|);
    var pos := AlertPositions(ds, b);
    AlertPositionsSpec(ds, b);
    PositionsBounded(pos, b);
    forall a | a in c.alerts ensures a in symbols {
      var k :| 0 <= k < |c.alerts| && c.alerts[k] == a;
      assert a == symbols[pos[k]];
    }
  }

  /** A strictly increasing sequence of positions below `b` has at most `b` elements. */
  lemma {:induction false} PositionsBounded(pos: seq<nat>, b: nat)
    requires forall k :: 0 <= k < |pos| ==> pos[k] < b
    requires forall k, l :: 0 <= k < l < |pos| ==> pos[k] < pos[l]
    ensures |pos| <= b
  {
    if |pos| > 0 {
      var last := pos[|pos| - 1];
      var init := pos[..|pos| - 1];
      assert forall k :: 0 <= k < |init| ==> init[k] == pos[k];
      PositionsBounded(init, last);
    }
  }

  /** A price two percent below the high alerts. */
  lemma ScenarioDropAlerts()
    ensures CycleOf(["XRPUSDT"], [Some(0.98)], [Some(1.0)]) == Cycle(["XRPUSDT"], None)
  {
  }

  /** A price half a percent below the high does not alert. */
  lemma ScenarioSmallDropSilent()
    ensures CycleOf(["XRPUSDT"], [Some(0.995)], [Some(1.0)]) == Cycle([], None)
  {
  }

  /** A price that is not available raises at its position: the cycle stops
      there and the later symbol "B", which would alert, is never compared. */
  lemma ScenarioMissingPriceAborts()
    ensures CycleOf(["A", "B"], [None, Some(5.0)], [Some(10.0), Some(10.0)])
            == Cycle([], Some(Abort(0, MissingPrice)))
  {
    var symbols, highs := ["A", "B"], [Some(10.0), Some(10.0)];
    HighMapLastWins(symbols, highs, 0);
    HighMapHasSymbols(symbols, highs);
    ScanStaysAborted(symbols, [None, Some(5.0)], HighMap(symbols, highs), 1, 2);
  }

  /** With a duplicated symbol both positions compare against the high of the
      last position: 9 is not below 99% of 5, and the missing first high is
      never looked at. */
  lemma ScenarioDuplicateLastHighWins()
    ensures CycleOf(["A", "A"], [Some(9.0), Some(9.0)], [None, Some(5.0)]) == Cycle([], None)
  {
    var symbols, highs := ["A", "A"], [None, Some(5.0)];
    HighMapLastWins(symbols, highs, 1);
    var m := HighMap(symbols, highs);
    assert m["A"] == Some(5.0);
    assert Compare(Some(9.0), m["A"]) == Ok(false);
    assert Scan(symbols, [Some(9.0), Some(9.0)], m, 1) == Cycle([], None);
  }

  /** A single cycle as `run_checkout` performs it. With an empty list it
      issues no request and emits nothing; otherwise it gathers the current
      prices, then the one-hour highs, builds the high map, and walks the
      list, alerting or raising position by position. The i-th request of
      the ticker batch is answered by `tickerAnswer(i, symbols[i])`, that of
      the candlestick batch by `klineAnswer(i, symbols[i])`. */
  method RunCheckout(symbols: seq<Symbol>, tickerAnswer: (nat, Symbol) -> Response, klineAnswer: (nat, Symbol) -> Response)
    returns (requests: seq<Request>, alerts: seq<Symbol>, abort: Option<Abort>)
    ensures |symbols| == 0 ==> requests == [] && alerts == [] && abort == None
    ensures requests == Requests(TickerPrice, symbols) + Requests(HourKlines, symbols)
    ensures Cycle(alerts, abort) ==
            CycleOf(symbols, Outcomes(symbols, tickerAnswer), Outcomes(symbols, klineAnswer))
  {
    requests, alerts, abort := [], [], None;
    if |symbols| > 0 {
      var tickerRequests, prices := GatherBatch(TickerPrice, symbols, tickerAnswer);
      var klineRequests, highs := GatherBatch(HourKlines, symbols, klineAnswer);
      requests := tickerRequests + klineRequests;
      var highMap := HighMap(symbols, highs);
      HighMapHasSymbols(symbols, highs);
      var i := 0;
      while i < |symbols| && abort == None
        invariant 0 <= i <= |symbols|
        invariant Cycle(alerts, abort) == Scan(symbols, prices, highMap, i)
      {
        var decision := Compare(prices[i], highMap[symbols[i]]);
        if decision.Err? {
          abort := Some(Abort(i, decision.error));
        } else if decision.value {
          alerts := alerts + [symbols[i]];
        }
        i := i + 1;
      }
      if abort.Some? {
        ScanStaysAborted(symbols, prices, highMap, i, |symbols|);
      }
    }
  }
}
