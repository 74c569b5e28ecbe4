/**
  What the ingestor promises: the calendar alignment of one ticker's frame,
  the agreement of the count test with the date test when the dump only
  holds session dates, and the bundle a whole run assembles.
 */
module SepProperties {
  import opened Wrappers
  import opened Bars
  import opened TickerOrder
  import opened SepQuandl

  // ------------------------------------------------------ calendar alignment

  /**
    One cell of the reindexed frame: a value observed on the session is kept;
    a session no row is dated on inherits the filled value of the session
    before it, and is NaN when it is the first.
   */
  lemma ReindexCell(sessions: seq<int>, bars: seq<Bar>, i: nat, c: Column)
    requires DistinctDates(bars) && i < |sessions|
    ensures var r := Reindex(sessions, bars);
      && |r| == |sessions| && r[i].date == sessions[i]
      && (forall j :: 0 <= j < |bars| && bars[j].date == sessions[i] && Field(bars[j].quote, c).Some? ==>
            Field(r[i].quote, c) == Field(bars[j].quote, c))
      && ((forall j :: 0 <= j < |bars| ==> bars[j].date != sessions[i]) && i > 0 ==>
            Field(r[i].quote, c) == Field(r[i - 1].quote, c))
      && ((forall j :: 0 <= j < |bars| ==> bars[j].date != sessions[i]) && i == 0 ==>
            Field(r[i].quote, c).None?)
  {
    var joined := Join(sessions, bars);
    FFillCell(joined, Blank, i, c);
  }

  /**
    One cell of the corrected frame, indexed by the sessions between the first
    and last date: an observed value is kept, and a session without a row
    carries the previous session's value forward (NaN before the first row).
   */
  lemma FrameCell(cal: seq<int>, sorted: seq<Bar>, i: nat, c: Column)
    requires |sorted| > 0 && Chronological(sorted)
    requires i < |Frame(cal, sorted)|
    ensures var sessions := SessionsInRange(cal, sorted[0].date, sorted[|sorted| - 1].date);
      var r := Frame(cal, sorted);
      && Dates(r) == sessions && r[i].date == sessions[i]
      && (forall j :: 0 <= j < |sorted| && sorted[j].date == sessions[i] && Field(sorted[j].quote, c).Some? ==>
            Field(r[i].quote, c) == Field(sorted[j].quote, c))
      && ((forall j :: 0 <= j < |sorted| ==> sorted[j].date != sessions[i]) && i > 0 ==>
            Field(r[i].quote, c) == Field(r[i - 1].quote, c))
      && ((forall j :: 0 <= j < |sorted| ==> sorted[j].date != sessions[i]) && i == 0 ==>
            Field(r[i].quote, c).None?)
  {
    var sessions := SessionsInRange(cal, sorted[0].date, sorted[|sorted| - 1].date);
    if Dates(sorted) != sessions {
      assert Frame(cal, sorted) == Reindex(sessions, sorted);
      assert DistinctDates(sorted);
      ReindexCell(sessions, sorted, i, c);
    } else {
      assert Frame(cal, sorted) == sorted;
      assert sorted[i].date == sessions[i];
      assert forall j :: 0 <= j < |sorted| && sorted[j].date == sessions[i] ==> j == i;
    }
  }

  /**
    When every observed date is a session and no date repeats, comparing the
    counts decides the same as comparing the dates: the frame as written is
    the corrected one.
   */
  lemma CountTestAgrees(cal: seq<int>, sorted: seq<Bar>)
    requires Increasing(cal) && |sorted| > 0 && Chronological(sorted)
    requires forall j :: 0 <= j < |sorted| ==> sorted[j].date in cal
    ensures FrameAsWritten(cal, sorted) == Frame(cal, sorted)
  {
    var lo, hi := sorted[0].date, sorted[|sorted| - 1].date;
    var sessions := SessionsInRange(cal, lo, hi);
    var dates := Dates(sorted);
    forall k | 0 <= k < |dates| ensures dates[k] in sessions {
      assert lo <= sorted[k].date <= hi;
    }
    IncreasingWithin(dates, sessions);
  }

  /** When the counts differ, the frame as written is reindexed onto exactly the sessions, as the corrected one is. */
  lemma CountsDiffer(cal: seq<int>, sorted: seq<Bar>)
    requires |sorted| > 0
    requires |SessionsInRange(cal, sorted[0].date, sorted[|sorted| - 1].date)| != |sorted|
    ensures FrameAsWritten(cal, sorted) == Frame(cal, sorted)
    ensures Dates(FrameAsWritten(cal, sorted)) == SessionsInRange(cal, sorted[0].date, sorted[|sorted| - 1].date)
  {
    FrameIndex(cal, sorted);
  }

  /** Rows already dated on exactly the sessions pass through both frames unchanged, without a fill. */
  lemma SessionsPassThrough(cal: seq<int>, sorted: seq<Bar>)
    requires |sorted| > 0
    requires Dates(sorted) == SessionsInRange(cal, sorted[0].date, sorted[|sorted| - 1].date)
    ensures FrameAsWritten(cal, sorted) == sorted && Frame(cal, sorted) == sorted
  {
  }

  /**
    A row on a non-session date offsets a missing session: the counts agree,
    so the frame as written keeps the non-session date and is not indexed by
    the sessions, while the corrected frame is.
   */
  lemma CountTestMisses(cal: seq<int>, sorted: seq<Bar>, j: nat)
    requires j < |sorted| && sorted[j].date !in cal
    requires |SessionsInRange(cal, sorted[0].date, sorted[|sorted| - 1].date)| == |sorted|
    ensures var sessions := SessionsInRange(cal, sorted[0].date, sorted[|sorted| - 1].date);
      && sorted[j].date in Dates(FrameAsWritten(cal, sorted)) && sorted[j].date !in sessions
      && Dates(FrameAsWritten(cal, sorted)) != sessions
      && Dates(Frame(cal, sorted)) == sessions
  {
    FrameIndex(cal, sorted);
    assert FrameAsWritten(cal, sorted) == sorted;
    assert Dates(sorted)[j] == sorted[j].date;
  }

  /** Sessions 1, 2, 4, 5 and rows dated 1, 3, 4, 5 meet the conditions above, with the row dated 3. */
  const Offset: seq<int> := [1, 2, 4, 5]

  lemma OffsetMisses(q: Quote)
    ensures var bars := [Bar(1, q), Bar(3, q), Bar(4, q), Bar(5, q)];
      && bars[1].date !in Offset
      && SessionsInRange(Offset, bars[0].date, bars[3].date) == [1, 2, 4, 5]
      && |SessionsInRange(Offset, bars[0].date, bars[3].date)| == |bars|
  {
    OffsetSessions();
  }

  lemma OffsetSessions()
    ensures SessionsInRange(Offset, 1, 5) == [1, 2, 4, 5]
  {
    InRangeCons(5, [], 1, 5);
    InRangeCons(4, [5], 1, 5);
    InRangeCons(2, [4, 5], 1, 5);
    InRangeCons(1, [2, 4, 5], 1, 5);
  }

  /** The range of a calendar that starts with `x` unfolds by that one session. */
  lemma InRangeCons(x: int, cal: seq<int>, lo: int, hi: int)
    ensures SessionsInRange([x] + cal, lo, hi) == (if lo <= x <= hi then [x] else []) + SessionsInRange(cal, lo, hi)
  {
    assert ([x] + cal)[1..] == cal;
  }

  /**
    A repeated date hides a missing session the same way: the counts agree,
    so the frame as written keeps both rows of that date and is not indexed
    by the sessions, while the corrected frame is.
   */
  lemma RepeatedDateMisses(cal: seq<int>, sorted: seq<Bar>, i: nat, j: nat)
    requires Increasing(cal)
    requires i < j < |sorted| && sorted[i].date == sorted[j].date
    requires |SessionsInRange(cal, sorted[0].date, sorted[|sorted| - 1].date)| == |sorted|
    ensures var sessions := SessionsInRange(cal, sorted[0].date, sorted[|sorted| - 1].date);
      && Dates(FrameAsWritten(cal, sorted)) == Dates(sorted)
      && Dates(FrameAsWritten(cal, sorted)) != sessions
      && Dates(Frame(cal, sorted)) == sessions
  {
  }

  /** Sessions 1, 2, 3 and rows dated 1, 1, 3 meet the conditions above: the source keeps dates 1, 1, 3. */
  lemma RepeatMisses(q: Quote, q': Quote)
    ensures var bars := [Bar(1, q), Bar(1, q'), Bar(3, q)];
      && Dates(FrameAsWritten(Three, bars)) == [1, 1, 3]
      && Dates(Frame(Three, bars)) == [1, 2, 3]
  {
  }

  // --------------------------------------------------------- one ticker

  /** Every column of the quote holds a value. */
  predicate Complete(q: Quote) {
    forall c :: Field(q, c).Some?
  }

  const Three: seq<int> := [1, 2, 3]

  /**
    A ticker's two rows arrive out of order, on sessions 1 and 3 of a
    three-session calendar: sorted, aligned and filled, the missing second
    session repeats the first session's row, the metadata runs from session 1
    to session 3, and the flag is the one return the rows have.
   */
  lemma GapFilledFromPreviousDay(d1: Quote, d3: Quote)
    requires Complete(d1) && Complete(d3)
    ensures ProcessTicker(Three, "ZZZ", [Bar(3, d3), Bar(1, d1)]) ==
      Success(Processed([Bar(1, d1), Bar(2, d1), Bar(3, d3)],
                        Asset(1, 3, 4, "ZZZ", ExchangeName, "ZZZ"), Exceeds(d1.close, d3.close, Threshold)))
  {
    GapSorted(d1, d3);
    GapFrame(d1, d3);
    GapFlag(d1, d3);
  }

  lemma GapFrame(d1: Quote, d3: Quote)
    requires Complete(d3)
    ensures Frame(Three, [Bar(1, d1), Bar(3, d3)]) == [Bar(1, d1), Bar(2, d1), Bar(3, d3)]
  {
    var sorted := [Bar(1, d1), Bar(3, d3)];
    ThreeSessions();
    assert Dates(sorted)[1] == 3;
    assert Frame(Three, sorted) == Reindex([1, 2, 3], sorted);
    GapReindexed(d1, d3);
  }

  lemma GapFlag(d1: Quote, d3: Quote)
    requires Complete(d1) && Complete(d3)
    ensures HasAbnormalReturn(Series([Bar(1, d1), Bar(3, d3)], Close), Threshold) == Exceeds(d1.close, d3.close, Threshold)
  {
    var sorted := [Bar(1, d1), Bar(3, d3)];
    assert Series(sorted, Close) == [d1.close, d3.close];
    assert Field(d1, Close).Some? && Field(d3, Close).Some?;
    OneReturn(d1.close, d3.close);
  }

  lemma GapSorted(d1: Quote, d3: Quote)
    ensures SortByDate([Bar(3, d3), Bar(1, d1)]) == [Bar(1, d1), Bar(3, d3)]
  {
    var group := [Bar(3, d3), Bar(1, d1)];
    assert group[..1] == [Bar(3, d3)];
    assert [Bar(3, d3)][..0] == [];
    assert SortByDate([Bar(3, d3)]) == [Bar(3, d3)];
  }

  lemma ThreeSessions()
    ensures SessionsInRange(Three, 1, 3) == [1, 2, 3]
  {
    assert Three[1..] == [2, 3] && Three[1..][1..] == [3] && [3][1..] == [];
    assert SessionsInRange([3], 1, 3) == [3];
    assert SessionsInRange([2, 3], 1, 3) == [2, 3];
  }

  lemma GapReindexed(d1: Quote, d3: Quote)
    requires Complete(d3)
    ensures Reindex([1, 2, 3], [Bar(1, d1), Bar(3, d3)]) == [Bar(1, d1), Bar(2, d1), Bar(3, d3)]
  {
    GapJoined(d1, d3);
    GapCarried(d1, d3);
  }

  lemma GapJoined(d1: Quote, d3: Quote)
    ensures Join([1, 2, 3], [Bar(1, d1), Bar(3, d3)]) == [Bar(1, d1), Bar(2, Blank), Bar(3, d3)]
  {
    var sorted := [Bar(1, d1), Bar(3, d3)];
    assert sorted[1..] == [Bar(3, d3)] && sorted[1..][1..] == [];
    assert QuoteOn(sorted, 1) == d1 && QuoteOn(sorted, 3) == d3 && QuoteOn(sorted, 2) == Blank;
  }

  lemma GapCarried(d1: Quote, d3: Quote)
    requires Complete(d3)
    ensures FFill([Bar(1, d1), Bar(2, Blank), Bar(3, d3)], Blank) == [Bar(1, d1), Bar(2, d1), Bar(3, d3)]
  {
    var joined := [Bar(1, d1), Bar(2, Blank), Bar(3, d3)];
    assert joined[1..] == [Bar(2, Blank), Bar(3, d3)] && joined[1..][1..] == [Bar(3, d3)];
    assert joined[1..][1..][1..] == [];
    assert Field(d3, Open).Some? && Field(d3, High).Some? && Field(d3, Low).Some?;
    assert Field(d3, Close).Some? && Field(d3, Volume).Some?;
    assert Carry(d1, Blank) == d1 && Carry(Blank, d1) == d1 && Carry(d3, d1) == d3;
    assert FFill(joined[1..][1..], d1) == [Bar(3, d3)];
    assert FFill(joined[1..], d1) == [Bar(2, d1), Bar(3, d3)];
  }

  /** Two present closes have one return, and the check fires exactly when it exceeds the threshold. */
  lemma OneReturn(p: Option<real>, c: Option<real>)
    requires p.Some? && c.Some?
    ensures HasAbnormalReturn([p, c], Threshold) <==> Exceeds(p, c, Threshold)
  {
    var closes := [p, c];
    assert closes[..1] == [p] && closes[..2] == closes;
    assert [p][..0] == [];
    assert Latest(closes[..1], None) == p;
    assert Latest(closes[..2], None) == c;
    assert AbnormalAt(closes, 1, Threshold) == Exceeds(p, c, Threshold);
    if HasAbnormalReturn(closes, Threshold) {
      var i :| 1 <= i < |closes| && AbnormalAt(closes, i, Threshold);
      assert i == 1;
    }
  }

  // ------------------------------------------------------------- the run

  /** Every step of the run succeeded. */
  ghost predicate AllSucceed(steps: seq<Step>) {
    forall k :: 0 <= k < |steps| ==> steps[k].outcome.Success?
  }

  /** The run succeeds exactly when every step does. */
  lemma {:induction false} RunSucceeds(steps: seq<Step>, known: map<string, nat>)
    ensures Run(steps, known).Success? <==> AllSucceed(steps)
    decreases |steps|
  {
    if |steps| > 0 {
      var n := |steps| - 1;
      assert forall k :: 0 <= k < n ==> steps[..n][k] == steps[k];
      RunSucceeds(steps[..n], known);
    }
  }

  /** A successful run is the successful run over all but the last step, extended by the last. */
  lemma RunLast(steps: seq<Step>, known: map<string, nat>)
    requires |steps| > 0 && Run(steps, known).Success?
    ensures var n := |steps| - 1;
      && Run(steps[..n], known).Success? && steps[n].outcome.Success?
      && Run(steps, known).value == Extend(Run(steps[..n], known).value, steps[n].ticker, steps[n].outcome.value)
  {
  }

  /** Step `k` of a successful run contributes the data entry with SID `k` and the `k`-th metadata record. */
  lemma {:induction false} RunRecords(steps: seq<Step>, known: map<string, nat>)
    requires Run(steps, known).Success?
    ensures AllSucceed(steps)
    ensures var b := Run(steps, known).value;
      && |b.data| == |steps| && |b.metadata| == |steps| && b.secCounter == |steps|
      && forall k :: 0 <= k < |steps| ==>
           b.data[k] == Staged(k, steps[k].outcome.value.bars) && b.metadata[k] == steps[k].outcome.value.asset
    decreases |steps|
  {
    RunSucceeds(steps, known);
    if |steps| > 0 {
      var n := |steps| - 1;
      var init := steps[..n];
      RunLast(steps, known);
      RunRecords(init, known);
      assert forall k :: 0 <= k < n ==> init[k] == steps[k];
    }
  }

  /** The SID map after a successful run holds `known` and every ticker of the run, and nothing else. */
  lemma {:induction false} RunSidKeys(steps: seq<Step>, known: map<string, nat>)
    requires Run(steps, known).Success?
    ensures forall t :: t in Run(steps, known).value.sidOf <==>
      t in known || exists k :: 0 <= k < |steps| && steps[k].ticker == t
    decreases |steps|
  {
    if |steps| > 0 {
      var n := |steps| - 1;
      var init := steps[..n];
      RunLast(steps, known);
      RunSidKeys(init, known);
      var b0 := Run(init, known).value;
      var b := Run(steps, known).value;
      assert b.sidOf == b0.sidOf[steps[n].ticker := b0.secCounter];
      forall t | exists k :: 0 <= k < |steps| && steps[k].ticker == t ensures t in b.sidOf {
        var k :| 0 <= k < |steps| && steps[k].ticker == t;
        if k < n {
          assert init[k].ticker == t;
        }
      }
      forall t | t in b0.sidOf && t !in known ensures exists k :: 0 <= k < |steps| && steps[k].ticker == t {
        var k :| 0 <= k < n && init[k].ticker == t;
        assert steps[k].ticker == t;
      }
    }
  }

  /** An entry of `known` whose ticker the run does not visit keeps its SID. */
  lemma {:induction false} RunSidKept(steps: seq<Step>, known: map<string, nat>, t: string)
    requires Run(steps, known).Success?
    requires t in known && forall k :: 0 <= k < |steps| ==> steps[k].ticker != t
    ensures t in Run(steps, known).value.sidOf && Run(steps, known).value.sidOf[t] == known[t]
    decreases |steps|
  {
    if |steps| > 0 {
      var n := |steps| - 1;
      RunLast(steps, known);
      assert forall k :: 0 <= k < n ==> steps[..n][k] == steps[k];
      RunSidKept(steps[..n], known, t);
    }
  }

  /** Each ticker of a successful run maps to the position of its last step. */
  lemma {:induction false} RunSidAssigned(steps: seq<Step>, known: map<string, nat>, k: nat)
    requires Run(steps, known).Success?
    requires k < |steps| && forall j :: k < j < |steps| ==> steps[j].ticker != steps[k].ticker
    ensures steps[k].ticker in Run(steps, known).value.sidOf && Run(steps, known).value.sidOf[steps[k].ticker] == k
    decreases |steps|
  {
    var n := |steps| - 1;
    RunLast(steps, known);
    RunRecords(steps[..n], known);
    if k < n {
      var init := steps[..n];
      assert forall j :: 0 <= j < n ==> init[j] == steps[j];
      RunSidAssigned(init, known, k);
    }
  }

  /**
    A run whose first failing ticker is `k` stops there, and the map it leaves
    in the closure is the map of the run over the tickers before `k`: the
    known tickers plus every ticker visited before `k`.
   */
  lemma RunAborted(steps: seq<Step>, known: map<string, nat>, k: nat)
    requires k < |steps| && steps[k].outcome.Failure?
    requires forall j :: 0 <= j < k ==> steps[j].outcome.Success?
    ensures Run(steps[..k], known).Success?
    ensures Run(steps, known) == Failure(Aborted(steps[k].outcome.error, Run(steps[..k], known).value.sidOf))
    ensures forall t :: t in Run(steps, known).error.sidOf <==>
      t in known || exists j :: 0 <= j < k && steps[j].ticker == t
  {
    var init := steps[..k];
    assert forall j :: 0 <= j < k ==> init[j] == steps[j];
    RunSucceeds(init, known);
    assert steps[..k + 1][..k] == init && steps[..k + 1][k] == steps[k];
    RunFails(steps, k + 1, known);
    RunSidKeys(init, known);
  }

  /** The tickers a successful run flags are exactly those whose check fired. */
  lemma {:induction false} RunFlagged(steps: seq<Step>, known: map<string, nat>)
    requires Run(steps, known).Success?
    ensures AllSucceed(steps)
    ensures forall t :: t in Run(steps, known).value.flagged <==>
      exists k :: 0 <= k < |steps| && steps[k].ticker == t && steps[k].outcome.value.abnormal
    decreases |steps|
  {
    RunSucceeds(steps, known);
    if |steps| > 0 {
      var n := |steps| - 1;
      var init := steps[..n];
      RunLast(steps, known);
      RunFlagged(init, known);
      assert forall k :: 0 <= k < n ==> init[k] == steps[k];
      var b0 := Run(init, known).value;
      var b := Run(steps, known).value;
      forall t ensures t in b.flagged <==>
        exists k :: 0 <= k < |steps| && steps[k].ticker == t && steps[k].outcome.value.abnormal
      {
        if exists k :: 0 <= k < |steps| && steps[k].ticker == t && steps[k].outcome.value.abnormal {
          var k :| 0 <= k < |steps| && steps[k].ticker == t && steps[k].outcome.value.abnormal;
          if k < n {
            assert init[k].ticker == t && init[k].outcome.value.abnormal;
          }
        }
        if t in b0.flagged {
          var k :| 0 <= k < n && init[k].ticker == t && init[k].outcome.value.abnormal;
          assert steps[k].ticker == t && steps[k].outcome.value.abnormal;
        }
      }
    }
  }

  // ------------------------------------------------------------ ingestion

  /** The groups visit distinct tickers, so each ticker's last step is its only one. */
  lemma GroupsDistinct(dump: seq<PriceRow>, k: nat, j: nat)
    requires k < j < |Groups(dump)|
    ensures Groups(dump)[k].ticker != Groups(dump)[j].ticker
  {
    var ts := Order(Groups(dump));
    assert Less(ts[k], ts[j]);
    LessIrreflexive(ts[k]);
  }

  /** `groupby`'s visiting order is the one increasing list of the dump's tickers. */
  lemma GroupsCanonical(dump: seq<PriceRow>, ts: seq<string>)
    requires SortedDistinct(ts) && forall t :: t in ts <==> t in Tickers(dump)
    ensures Order(Groups(dump)) == ts
  {
    SortedDistinctUnique(Order(Groups(dump)), ts);
  }

  /** The date sort of a keyed group is its one chronological arrangement. */
  lemma SortCanonical(group: seq<Bar>, other: seq<Bar>)
    requires DistinctDates(group) && Chronological(other) && multiset(other) == multiset(group)
    ensures SortByDate(group) == other
  {
    SortChronological(group);
    ChronologicalUnique(SortByDate(group), other);
  }

  /**
    Ingestion succeeds exactly when every ticker of the dump has a session
    between its first and last date.
   */
  lemma IngestSucceeds(cal: seq<int>, dump: seq<PriceRow>, known: map<string, nat>)
    ensures Ingest(cal, dump, known).Success? <==>
      forall k :: 0 <= k < |Groups(dump)| ==>
        |Groups(dump)[k].bars| > 0 && SessionsInRange(cal, FirstDate(Groups(dump)[k].bars), LastDate(Groups(dump)[k].bars)) != []
  {
    var gs := Groups(dump);
    var steps := Steps(cal, gs);
    RunSucceeds(steps, known);
    forall k | 0 <= k < |gs|
      ensures |gs[k].bars| > 0
      ensures steps[k].outcome.Success? <==> SessionsOf(cal, gs[k].bars) != []
    {
      GroupsNonEmpty(dump, k);
      ProcessTickerFails(cal, gs[k].ticker, gs[k].bars);
    }
  }

  /**
    The `k`-th ticker in `groupby` order gets SID `k`: its frame is indexed by
    the sessions between its first and last date, and its metadata record
    runs over those sessions under its own name.
   */
  lemma IngestRecords(cal: seq<int>, dump: seq<PriceRow>, known: map<string, nat>, b: Bundle, k: nat)
    requires Ingest(cal, dump, known) == Success(b)
    requires k < |Groups(dump)|
    ensures |Groups(dump)[k].bars| > 0
    ensures var g := Groups(dump)[k];
      var s := SessionsInRange(cal, FirstDate(g.bars), LastDate(g.bars));
      && |b.data| == |Groups(dump)| && |b.metadata| == |Groups(dump)| && b.secCounter == |Groups(dump)|
      && b.data[k].sid == k && Dates(b.data[k].bars) == s && |s| > 0
      && b.metadata[k] == Asset(s[0], s[|s| - 1], s[|s| - 1] + 1, g.ticker, ExchangeName, g.ticker)
  {
    var gs := Groups(dump);
    var g := gs[k];
    var steps := Steps(cal, gs);
    RunRecords(steps, known);
    GroupsNonEmpty(dump, k);
    ProcessTickerBars(cal, g.ticker, g.bars);
    ProcessTickerAsset(cal, g.ticker, g.bars);
  }

  /** After a successful ingestion the SID map holds every ticker of the dump and every entry it held before. */
  lemma IngestSidKeys(cal: seq<int>, dump: seq<PriceRow>, known: map<string, nat>, b: Bundle)
    requires Ingest(cal, dump, known) == Success(b)
    ensures forall t :: t in b.sidOf <==> t in known || t in Tickers(dump)
  {
    var gs := Groups(dump);
    var steps := Steps(cal, gs);
    RunSidKeys(steps, known);
    forall t ensures (exists k :: 0 <= k < |steps| && steps[k].ticker == t) <==> t in Order(gs) {
      if t in Order(gs) {
        var k :| 0 <= k < |gs| && Order(gs)[k] == t;
        assert steps[k].ticker == t;
      }
    }
  }

  /**
    When the `k`-th ticker is the first that fails, ingestion stops there, and
    the closure's map holds the known tickers plus the tickers visited before it.
   */
  lemma IngestAborted(cal: seq<int>, dump: seq<PriceRow>, known: map<string, nat>, k: nat)
    requires k < |Groups(dump)|
    requires ProcessTicker(cal, Groups(dump)[k].ticker, Groups(dump)[k].bars).Failure?
    requires forall j :: 0 <= j < k ==> ProcessTicker(cal, Groups(dump)[j].ticker, Groups(dump)[j].bars).Success?
    ensures Ingest(cal, dump, known).Failure?
    ensures forall t :: t in Ingest(cal, dump, known).error.sidOf <==>
      t in known || exists j :: 0 <= j < k && Groups(dump)[j].ticker == t
  {
    RunAborted(Steps(cal, Groups(dump)), known, k);
  }

  /** An entry for a ticker the dump does not hold keeps its SID. */
  lemma IngestSidKept(cal: seq<int>, dump: seq<PriceRow>, known: map<string, nat>, b: Bundle, t: string)
    requires Ingest(cal, dump, known) == Success(b)
    requires t in known && t !in Tickers(dump)
    ensures t in b.sidOf && b.sidOf[t] == known[t]
  {
    var gs := Groups(dump);
    var steps := Steps(cal, gs);
    forall k | 0 <= k < |steps| ensures steps[k].ticker != t {
      assert Order(gs)[k] == steps[k].ticker;
    }
    RunSidKept(steps, known, t);
  }

  /** The `k`-th ticker in `groupby` order is recorded under SID `k`. */
  lemma IngestSidAssigned(cal: seq<int>, dump: seq<PriceRow>, known: map<string, nat>, b: Bundle, k: nat)
    requires Ingest(cal, dump, known) == Success(b)
    requires k < |Groups(dump)|
    ensures Groups(dump)[k].ticker in b.sidOf && b.sidOf[Groups(dump)[k].ticker] == k
  {
    var gs := Groups(dump);
    var steps := Steps(cal, gs);
    forall j | k < j < |steps| ensures steps[j].ticker != steps[k].ticker {
      GroupsDistinct(dump, k, j);
    }
    RunSidAssigned(steps, known, k);
  }

  /** The `k`-th ticker is flagged exactly when its sorted closes hold an abnormal return. */
  lemma IngestFlagged(cal: seq<int>, dump: seq<PriceRow>, known: map<string, nat>, b: Bundle, k: nat)
    requires Ingest(cal, dump, known) == Success(b)
    requires k < |Groups(dump)|
    ensures Groups(dump)[k].ticker in b.flagged <==>
      HasAbnormalReturn(Series(SortByDate(Groups(dump)[k].bars), Close), Threshold)
  {
    var gs := Groups(dump);
    var steps := Steps(cal, gs);
    RunFlagged(steps, known);
    var t := gs[k].ticker;
    forall j | 0 <= j < |steps| && steps[j].ticker == t ensures j == k {
      if j < k {
        GroupsDistinct(dump, j, k);
      } else if j > k {
        GroupsDistinct(dump, k, j);
      }
    }
    ProcessTickerAsset(cal, t, gs[k].bars);
  }

  /** A ticker outside the dump is never flagged. */
  lemma IngestFlagsOnlyTickers(cal: seq<int>, dump: seq<PriceRow>, known: map<string, nat>, b: Bundle, t: string)
    requires Ingest(cal, dump, known) == Success(b)
    requires t in b.flagged
    ensures t in Tickers(dump)
  {
    var gs := Groups(dump);
    var steps := Steps(cal, gs);
    RunFlagged(steps, known);
    var k :| 0 <= k < |steps| && steps[k].ticker == t && steps[k].outcome.value.abnormal;
    assert Order(gs)[k] == t;
  }

  /**
    In a dump keyed by (ticker, date), the value a row holds for a session
    is the value its ticker's bundle frame holds on that session.
   */
  lemma IngestKeepsObserved(cal: seq<int>, dump: seq<PriceRow>, known: map<string, nat>, b: Bundle,
                            k: nat, i: nat, r: nat, c: Column)
    requires Keyed(dump) && Ingest(cal, dump, known) == Success(b)
    requires k < |Groups(dump)| && k < |b.data| && i < |b.data[k].bars|
    requires r < |dump| && dump[r].ticker == Groups(dump)[k].ticker
    requires b.data[k].bars[i].date == dump[r].date && Field(dump[r].quote, c).Some?
    ensures Field(b.data[k].bars[i].quote, c) == Field(dump[r].quote, c)
  {
    var gs := Groups(dump);
    var g := gs[k];
    var steps := Steps(cal, gs);
    RunRecords(steps, known);
    KeyedGroup(dump, g.ticker);
    GroupMember(dump, g.ticker, r);
    assert b.data[k].bars == steps[k].outcome.value.bars;
    ProcessedKeepsObserved(cal, g.ticker, g.bars, Bar(dump[r].date, dump[r].quote), i, c);
  }

  /** A value a row of the group holds survives in the ticker's frame on that row's session. */
  lemma ProcessedKeepsObserved(cal: seq<int>, t: string, group: seq<Bar>, row: Bar, i: nat, c: Column)
    requires DistinctDates(group) && ProcessTicker(cal, t, group).Success?
    requires row in group && Field(row.quote, c).Some?
    requires i < |ProcessTicker(cal, t, group).value.bars|
    requires ProcessTicker(cal, t, group).value.bars[i].date == row.date
    ensures Field(ProcessTicker(cal, t, group).value.bars[i].quote, c) == Field(row.quote, c)
  {
    ProcessTickerBars(cal, t, group);
    var sorted := SortByDate(group);
    SortChronological(group);
    SortMembers(group);
    assert row in sorted;
    FrameCell(cal, sorted, i, c);
  }
}
