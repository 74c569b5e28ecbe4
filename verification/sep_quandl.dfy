/**
  The price-bar ingestor: groups a daily-bar dump by ticker, sorts each group
  by date, aligns it to the exchange calendar with a forward fill, assigns
  sequential SIDs and builds one metadata record per ticker.
 */
module SepQuandl {
  import opened Wrappers
  import opened Bars
  import opened TickerOrder

  /** One row of the dump, after the unused columns are dropped. */
  datatype PriceRow = PriceRow(ticker: string, date: int, quote: Quote)

  /** Every asset is registered on this exchange, whatever its real listing. */
  const ExchangeName: string := "NYSE"

  /** The default threshold of the abnormal-return check. */
  const Threshold: real := 3.0

  /** A metadata record, in the column order of the asset database. */
  datatype Asset = Asset(startDate: int, endDate: int, autoCloseDate: int,
                         symbol: string, exchange: string, assetName: string)

  // ------------------------------------------------------ abnormal returns

  /**
    `cur / prev - 1 > thresh` in floating point, where NaN compares false and
    a zero `prev` gives an infinity of the sign of `cur`.
   */
  predicate Exceeds(prev: Option<real>, cur: Option<real>, thresh: real) {
    match (prev, cur)
    case (Some(p), Some(c)) => if p == 0.0 then c > 0.0 else c / p - 1.0 > thresh
    case _ => false
  }

  /** Day `i`'s `pct_change` exceeds `thresh`; `pct_change` pads NaN closes first. */
  predicate AbnormalAt(closes: seq<Option<real>>, i: nat, thresh: real)
    requires 1 <= i < |closes|
  {
    Exceeds(Latest(closes[..i], None), Latest(closes[..i + 1], None), thresh)
  }

  /** The check writes its warning. */
  predicate HasAbnormalReturn(closes: seq<Option<real>>, thresh: real) {
    exists i :: 1 <= i < |closes| && AbnormalAt(closes, i, thresh)
  }

  /** For a positive previous close, a return above 3.0 means the close more than quadrupled. */
  lemma AbnormalMeansQuadrupled(p: real, c: real)
    requires p > 0.0
    ensures Exceeds(Some(p), Some(c), Threshold) <==> c > 4.0 * p
  {
    var q := c / p;
    assert q * p == c;
    assert Exceeds(Some(p), Some(c), Threshold) <==> q > 4.0;
    if q > 4.0 {
      Positive(q - 4.0, p);
    }
  }

  lemma Positive(x: real, y: real)
    requires x > 0.0 && y > 0.0
    ensures x * y > 0.0
  {
  }

  /**
    `check_for_abnormal_returns`: the positions whose return exceeds `thresh`,
    in order. The warning is written exactly when there is one.
   */
  method CheckForAbnormalReturns(closes: seq<Option<real>>, thresh: real) returns (days: seq<nat>)
    ensures forall i :: i in days <==> 1 <= i < |closes| && AbnormalAt(closes, i, thresh)
    ensures forall k, l :: 0 <= k < l < |days| ==> days[k] < days[l]
    ensures |days| > 0 <==> HasAbnormalReturn(closes, thresh)
  {
    days := [];
    if |closes| == 0 {
      return;
    }
    var last := Latest(closes[..1], None);
    var i := 1;
    while i < |closes|
      invariant 1 <= i <= |closes|
      invariant last == Latest(closes[..i], None)
      invariant forall j :: j in days <==> 1 <= j < i && AbnormalAt(closes, j, thresh)
      invariant forall k :: 0 <= k < |days| ==> days[k] < i
      invariant forall k, l :: 0 <= k < l < |days| ==> days[k] < days[l]
    {
      var cur := if closes[i].Some? then closes[i] else last;
      assert closes[..i + 1][..i] == closes[..i];
      if Exceeds(last, cur, thresh) {
        days := days + [i];
      }
      last := cur;
      i := i + 1;
    }
    if |days| > 0 {
      assert days[0] in days;
    }
  }

  // ----------------------------------------------------------- one ticker

  /**
    The ticker's frame, corrected: reindexed onto the sessions of its date
    range unless its dates are already exactly those sessions.
   */
  function Frame(cal: seq<int>, sorted: seq<Bar>): seq<Bar>
    requires |sorted| > 0
  {
    var sessions := SessionsInRange(cal, sorted[0].date, sorted[|sorted| - 1].date);
    if Dates(sorted) != sessions then Reindex(sessions, sorted) else sorted
  }

  /** The ticker's frame as the source builds it: reindexed only when the counts differ. */
  function FrameAsWritten(cal: seq<int>, sorted: seq<Bar>): seq<Bar>
    requires |sorted| > 0
  {
    var sessions := SessionsInRange(cal, sorted[0].date, sorted[|sorted| - 1].date);
    if |sessions| != |sorted| then Reindex(sessions, sorted) else sorted
  }

  /** Either way, the corrected frame is indexed by the sessions of its date range. */
  lemma FrameIndex(cal: seq<int>, sorted: seq<Bar>)
    requires |sorted| > 0
    ensures Dates(Frame(cal, sorted)) == SessionsInRange(cal, sorted[0].date, sorted[|sorted| - 1].date)
  {
  }

  /** What the loop produces for one ticker. */
  datatype Processed = Processed(bars: seq<Bar>, asset: Asset, abnormal: bool)

  /** Why ingestion stops: `index[0]` of a frame with no rows raises. */
  datatype IngestError = EmptyFrame

  /** The body of the per-ticker loop: sort, check, align, describe. */
  function ProcessTicker(cal: seq<int>, t: string, group: seq<Bar>): Result<Processed, IngestError> {
    if |group| == 0 then Failure(EmptyFrame)
    else
      var sorted := SortByDate(group);
      SortMembers(group);
      var frame := Frame(cal, sorted);
      if |frame| == 0 then Failure(EmptyFrame)
      else
        var end := frame[|frame| - 1].date;
        Success(Processed(frame, Asset(frame[0].date, end, end + 1, t, ExchangeName, t),
                          HasAbnormalReturn(Series(sorted, Close), Threshold)))
  }

  /** The sessions between a group's first and last date. */
  function SessionsOf(cal: seq<int>, group: seq<Bar>): seq<int>
    requires |group| > 0
  {
    SessionsInRange(cal, FirstDate(group), LastDate(group))
  }

  /** A sorted group starts on its first date and ends on its last. */
  lemma SortedEnds(group: seq<Bar>)
    requires |group| > 0
    ensures var sorted := SortByDate(group);
      |sorted| == |group| && sorted[0].date == FirstDate(group) && sorted[|group| - 1].date == LastDate(group)
  {
    SortFirst(group);
    SortLast(group);
  }

  /** One ticker fails exactly when it has no rows or no session lies between its first and last date. */
  lemma ProcessTickerFails(cal: seq<int>, t: string, group: seq<Bar>)
    ensures ProcessTicker(cal, t, group).Failure? <==> |group| == 0 || SessionsOf(cal, group) == []
  {
    if |group| > 0 {
      SortedEnds(group);
      FrameIndex(cal, SortByDate(group));
    }
  }

  /** A ticker that succeeds gets the aligned frame of its sorted rows, indexed by its sessions. */
  lemma ProcessTickerBars(cal: seq<int>, t: string, group: seq<Bar>)
    requires ProcessTicker(cal, t, group).Success?
    ensures |group| > 0
    ensures ProcessTicker(cal, t, group).value.bars == Frame(cal, SortByDate(group))
    ensures Dates(ProcessTicker(cal, t, group).value.bars) == SessionsOf(cal, group)
  {
    SortedEnds(group);
    FrameIndex(cal, SortByDate(group));
  }

  /**
    The metadata record of a ticker that succeeds runs from the first to the
    last of its sessions, closes one day after the last, and names the
    ticker on the fixed exchange; its flag is the abnormal-return check of
    its sorted closes.
   */
  lemma ProcessTickerAsset(cal: seq<int>, t: string, group: seq<Bar>)
    requires ProcessTicker(cal, t, group).Success?
    ensures |group| > 0 && |SessionsOf(cal, group)| > 0
    ensures var s := SessionsOf(cal, group);
      ProcessTicker(cal, t, group).value.asset == Asset(s[0], s[|s| - 1], s[|s| - 1] + 1, t, ExchangeName, t)
    ensures ProcessTicker(cal, t, group).value.abnormal <==> HasAbnormalReturn(Series(SortByDate(group), Close), Threshold)
  {
    ProcessTickerBars(cal, t, group);
    IndexEnds(ProcessTicker(cal, t, group).value.bars, SessionsOf(cal, group));
  }

  /** A frame indexed by `s` starts on the first of `s` and ends on the last. */
  lemma IndexEnds(frame: seq<Bar>, s: seq<int>)
    requires Dates(frame) == s && |frame| > 0
    ensures |s| == |frame| && frame[0].date == s[0] && frame[|frame| - 1].date == s[|s| - 1]
  {
  }

  // ------------------------------------------------------------ the dump

  /** Every (ticker, date) pair occurs at most once. */
  predicate Keyed(dump: seq<PriceRow>) {
    forall i, j :: 0 <= i < j < |dump| && dump[i].ticker == dump[j].ticker ==> dump[i].date != dump[j].date
  }

  function Tickers(dump: seq<PriceRow>): (r: seq<string>)
    ensures |r| == |dump| && forall i :: 0 <= i < |dump| ==> r[i] == dump[i].ticker
  {
    seq(|dump|, i requires 0 <= i < |dump| => dump[i].ticker)
  }

  /** The group `groupby` hands over for ticker `t`: its rows in dump order, ticker column dropped. */
  function GroupOf(dump: seq<PriceRow>, t: string): seq<Bar> {
    if |dump| == 0 then []
    else
      var rest := GroupOf(dump[1..], t);
      if dump[0].ticker == t then [Bar(dump[0].date, dump[0].quote)] + rest else rest
  }

  /** A ticker's group holds exactly its rows. */
  lemma {:induction false} GroupOfRows(dump: seq<PriceRow>, t: string)
    ensures forall x :: x in GroupOf(dump, t) <==>
      exists i :: 0 <= i < |dump| && dump[i].ticker == t && x == Bar(dump[i].date, dump[i].quote)
    decreases |dump|
  {
    if |dump| > 0 {
      GroupOfRows(dump[1..], t);
      assert forall i :: 1 <= i < |dump| ==> dump[1..][i - 1] == dump[i];
      forall x | exists i :: 0 <= i < |dump| && dump[i].ticker == t && x == Bar(dump[i].date, dump[i].quote)
        ensures x in GroupOf(dump, t)
      {
        var i :| 0 <= i < |dump| && dump[i].ticker == t && x == Bar(dump[i].date, dump[i].quote);
        if i > 0 {
          assert dump[1..][i - 1] == dump[i];
        }
      }
      forall x | x in GroupOf(dump[1..], t)
        ensures exists i :: 0 <= i < |dump| && dump[i].ticker == t && x == Bar(dump[i].date, dump[i].quote)
      {
        var i :| 0 <= i < |dump[1..]| && dump[1..][i].ticker == t && x == Bar(dump[1..][i].date, dump[1..][i].quote);
        assert dump[i + 1] == dump[1..][i];
      }
    }
  }

  /** A row of ticker `t` is in `t`'s group. */
  lemma GroupMember(dump: seq<PriceRow>, t: string, i: nat)
    requires i < |dump| && dump[i].ticker == t
    ensures Bar(dump[i].date, dump[i].quote) in GroupOf(dump, t)
  {
    GroupOfRows(dump, t);
  }

  /** In a keyed dump, no group repeats a date. */
  lemma {:induction false} KeyedGroup(dump: seq<PriceRow>, t: string)
    requires Keyed(dump)
    ensures DistinctDates(GroupOf(dump, t))
    decreases |dump|
  {
    if |dump| > 0 {
      assert forall i :: 1 <= i < |dump| ==> dump[1..][i - 1] == dump[i];
      assert Keyed(dump[1..]);
      KeyedGroup(dump[1..], t);
      var rest := GroupOf(dump[1..], t);
      if dump[0].ticker == t {
        GroupOfRows(dump[1..], t);
        forall k | 0 <= k < |rest| ensures rest[k].date != dump[0].date {
          assert rest[k] in rest;
          var i :| 0 <= i < |dump[1..]| && dump[1..][i].ticker == t && rest[k] == Bar(dump[1..][i].date, dump[1..][i].quote);
          assert dump[i + 1] == dump[1..][i];
        }
      }
    }
  }

  /** The output of a whole run, before it is handed to the writers. */
  datatype Staged = Staged(sid: nat, bars: seq<Bar>)
  datatype Bundle = Bundle(data: seq<Staged>, metadata: seq<Asset>, sidOf: map<string, nat>,
                           secCounter: nat, flagged: seq<string>)

  /** One ticker's rows, as `groupby` hands them to the loop. */
  datatype Group = Group(ticker: string, bars: seq<Bar>)

  /** The tickers of `gs`, in order. */
  function Order(gs: seq<Group>): (r: seq<string>)
    ensures |r| == |gs| && forall k :: 0 <= k < |gs| ==> r[k] == gs[k].ticker
  {
    seq(|gs|, k requires 0 <= k < |gs| => gs[k].ticker)
  }

  /** Every ticker of the dump with its rows, in the order `groupby` visits them. */
  function Groups(dump: seq<PriceRow>): (gs: seq<Group>)
    ensures SortedDistinct(Order(gs))
    ensures forall t :: t in Order(gs) <==> t in Tickers(dump)
    ensures forall k :: 0 <= k < |gs| ==> gs[k].bars == GroupOf(dump, gs[k].ticker)
  {
    var ts := GroupOrder(Tickers(dump));
    var gs := seq(|ts|, k requires 0 <= k < |ts| => Group(ts[k], GroupOf(dump, ts[k])));
    assert Order(gs) == ts;
    gs
  }

  /** Every group `groupby` yields holds at least one row. */
  lemma GroupsNonEmpty(dump: seq<PriceRow>, k: nat)
    requires k < |Groups(dump)|
    ensures |Groups(dump)[k].bars| > 0
  {
    var gs := Groups(dump);
    var t := gs[k].ticker;
    assert Order(gs)[k] == t;
    assert t in Tickers(dump);
    var i :| 0 <= i < |dump| && Tickers(dump)[i] == t;
    GroupMember(dump, t, i);
  }

  /** A ticker with the outcome of its loop body. */
  datatype Step = Step(ticker: string, outcome: Result<Processed, IngestError>)

  /** The loop body applied to every group, in order. */
  function Steps(cal: seq<int>, gs: seq<Group>): (r: seq<Step>)
    ensures |r| == |gs|
    ensures forall k :: 0 <= k < |gs| ==> r[k].ticker == gs[k].ticker
    ensures forall k :: 0 <= k < |gs| ==> r[k].outcome == ProcessTicker(cal, gs[k].ticker, gs[k].bars)
  {
    seq(|gs|, k requires 0 <= k < |gs| => Step(gs[k].ticker, ProcessTicker(cal, gs[k].ticker, gs[k].bars)))
  }

  /** What one successful step adds to the bundle. */
  function Extend(b: Bundle, t: string, p: Processed): Bundle {
    Bundle(b.data + [Staged(b.secCounter, p.bars)], b.metadata + [p.asset],
           b.sidOf[t := b.secCounter], b.secCounter + 1,
           b.flagged + (if p.abnormal then [t] else []))
  }

  /**
    A run that stops at a failing ticker: the error, and the SID map as the
    closure keeps it, holding the entries every earlier ticker already wrote.
   */
  datatype Aborted = Aborted(error: IngestError, sidOf: map<string, nat>)

  /** The loop over `steps`, in order; `known` is the SID map before the run. */
  function Run(steps: seq<Step>, known: map<string, nat>): Result<Bundle, Aborted> {
    if |steps| == 0 then Success(Bundle([], [], known, 0, []))
    else
      var s := steps[|steps| - 1];
      match Run(steps[..|steps| - 1], known)
      case Failure(e) => Failure(e)
      case Success(b) =>
        match s.outcome
        case Failure(e) => Failure(Aborted(e, b.sidOf))
        case Success(p) => Success(Extend(b, s.ticker, p))
  }

  /** One more ticker processed: the run over `steps[..k + 1]` extends the run over `steps[..k]`. */
  lemma RunStep(steps: seq<Step>, k: nat, known: map<string, nat>, b: Bundle, p: Processed)
    requires k < |steps| && Run(steps[..k], known) == Success(b)
    requires steps[k].outcome == Success(p)
    ensures Run(steps[..k + 1], known) == Success(Extend(b, steps[k].ticker, p))
  {
    assert steps[..k + 1][..k] == steps[..k] && steps[..k + 1][k] == steps[k];
  }

  /** A ticker that fails stops the whole run with its error. */
  lemma {:induction false} RunFails(steps: seq<Step>, k: nat, known: map<string, nat>)
    requires k <= |steps| && Run(steps[..k], known).Failure?
    ensures Run(steps, known) == Run(steps[..k], known)
    decreases |steps| - k
  {
    if k < |steps| {
      assert steps[..k + 1][..k] == steps[..k];
      RunFails(steps, k + 1, known);
    } else {
      assert steps[..k] == steps;
    }
  }

  /** `ingest`, up to the writers: the loop over every group. */
  function Ingest(cal: seq<int>, dump: seq<PriceRow>, known: map<string, nat>): Result<Bundle, Aborted> {
    Run(Steps(cal, Groups(dump)), known)
  }

  /** The loop of `ingest`, one ticker per iteration, with the running SID counter. */
  method RunLoop(steps: seq<Step>, known: map<string, nat>) returns (r: Result<Bundle, Aborted>)
    ensures r == Run(steps, known)
  {
    var secCounter: nat := 0;
    var data: seq<Staged> := [];
    var metadata: seq<Asset> := [];
    var sidOf: map<string, nat> := known;
    var flagged: seq<string> := [];
    var k := 0;
    while k < |steps|
      invariant 0 <= k <= |steps|
      invariant Run(steps[..k], known) == Success(Bundle(data, metadata, sidOf, secCounter, flagged))
    {
      var t := steps[k].ticker;
      var outcome := steps[k].outcome;
      if outcome.Failure? {
        assert steps[..k + 1][..k] == steps[..k] && steps[..k + 1][k] == steps[k];
        RunFails(steps, k + 1, known);
        return Failure(Aborted(outcome.error, sidOf));
      }
      var p := outcome.value;
      RunStep(steps, k, known, Bundle(data, metadata, sidOf, secCounter, flagged), p);
      data := data + [Staged(secCounter, p.bars)];
      metadata := metadata + [p.asset];
      sidOf := sidOf[t := secCounter];
      flagged := flagged + (if p.abnormal then [t] else []);
      secCounter := secCounter + 1;
      k := k + 1;
    }
    assert steps[..|steps|] == steps;
    r := Success(Bundle(data, metadata, sidOf, secCounter, flagged));
  }

  /** `ingest`: group the dump, then run the loop over the groups. */
  method IngestLoop(cal: seq<int>, dump: seq<PriceRow>, known: map<string, nat>) returns (r: Result<Bundle, Aborted>)
    ensures r == Ingest(cal, dump, known)
  {
    var steps := Steps(cal, Groups(dump));
    r := RunLoop(steps, known);
  }
}
