/** What the reference-data coder's arrays promise, and where the source departs from it. */
module SectorCodeProperties {
  import opened Wrappers
  import opened SectorCoding
  import opened SectorCodeLoader

  /** A mapped ticker's cell in any row of either variant, under either policy. */
  lemma FillCell(p: Policy, f: seq<TickerRow>, sids: map<string, nat>, attrs: seq<Attribute>, i: nat, t: string)
    requires Injective(sids)
    requires Fill(p, f, sids, attrs).Success?
    requires i < |attrs| && t in sids
    ensures Fill(p, f, sids, attrs).value[i][sids[t]] == StoreWith(p, attrs[i], Find(f, t)).value
  {
    OwnerOfSid(sids, t);
  }

  /** A column no ticker owns, in any row of either variant, under either policy. */
  lemma FillDefault(p: Policy, f: seq<TickerRow>, sids: map<string, nat>, attrs: seq<Attribute>, i: nat, j: nat)
    requires Injective(sids)
    requires Fill(p, f, sids, attrs).Success?
    requires i < |attrs| && j < Width(sids) && j !in sids.Values
    ensures Fill(p, f, sids, attrs).value[i][j] == Sentinel
  {
  }

  /** The corrected fill's outcome, in the order the source checks: no SIDs, then a duplicated ticker. */
  lemma CorrectedOutcome(f: seq<TickerRow>, sids: map<string, nat>, attrs: seq<Attribute>)
    requires Injective(sids) && |attrs| > 0
    ensures sids.Keys == {} ==> Fill(Corrected, f, sids, attrs) == Failure(NoAssets)
    ensures sids.Keys != {} && !Unambiguous(f, sids) ==> Fill(Corrected, f, sids, attrs) == Failure(ValueNotStorable)
    ensures Fill(Corrected, f, sids, attrs).Success? <==> sids.Keys != {} && Unambiguous(f, sids)
  {
    CorrectedStorable(f, sids, attrs);
  }

  /**
    The static fill from a filtered table: it succeeds exactly when the SID
    map is non-empty and no mapped ticker is duplicated; it then has shape
    3 x (max(SID) + 1), each mapped ticker's column holds its sector, exchange
    and category codes, and every column no ticker owns is -1 in all three rows.
   */
  lemma StaticFillMeaning(f: seq<TickerRow>, sids: map<string, nat>)
    requires Injective(sids)
    ensures Fill(Corrected, f, sids, Attributes).Success? <==> sids.Keys != {} && Unambiguous(f, sids)
    ensures Fill(Corrected, f, sids, Attributes).Success? ==>
      && |Fill(Corrected, f, sids, Attributes).value| == 3
      && forall i :: 0 <= i < 3 ==> |Fill(Corrected, f, sids, Attributes).value[i]| == Width(sids)
    ensures Fill(Corrected, f, sids, Attributes).Success? ==>
      forall t :: t in sids ==>
        && Fill(Corrected, f, sids, Attributes).value[0][sids[t]] == Store(Sector, Find(f, t))
        && Fill(Corrected, f, sids, Attributes).value[1][sids[t]] == Store(Exchange, Find(f, t))
        && Fill(Corrected, f, sids, Attributes).value[2][sids[t]] == Store(Category, Find(f, t))
    ensures Fill(Corrected, f, sids, Attributes).Success? ==>
      forall j :: 0 <= j < Width(sids) && j !in sids.Values ==>
        && Fill(Corrected, f, sids, Attributes).value[0][j] == Sentinel
        && Fill(Corrected, f, sids, Attributes).value[1][j] == Sentinel
        && Fill(Corrected, f, sids, Attributes).value[2][j] == Sentinel
  {
    CorrectedOutcome(f, sids, Attributes);
    if Fill(Corrected, f, sids, Attributes).Success? {
      forall t | t in sids
        ensures Fill(Corrected, f, sids, Attributes).value[0][sids[t]] == Store(Sector, Find(f, t))
        ensures Fill(Corrected, f, sids, Attributes).value[1][sids[t]] == Store(Exchange, Find(f, t))
        ensures Fill(Corrected, f, sids, Attributes).value[2][sids[t]] == Store(Category, Find(f, t))
      {
        FillCell(Corrected, f, sids, Attributes, 0, t);
        FillCell(Corrected, f, sids, Attributes, 1, t);
        FillCell(Corrected, f, sids, Attributes, 2, t);
      }
      forall j | 0 <= j < Width(sids) && j !in sids.Values
        ensures Fill(Corrected, f, sids, Attributes).value[0][j] == Sentinel
        ensures Fill(Corrected, f, sids, Attributes).value[1][j] == Sentinel
        ensures Fill(Corrected, f, sids, Attributes).value[2][j] == Sentinel
      {
        FillDefault(Corrected, f, sids, Attributes, 0, j);
        FillDefault(Corrected, f, sids, Attributes, 1, j);
        FillDefault(Corrected, f, sids, Attributes, 2, j);
      }
    }
  }

  /**
    The sector fill from a filtered table: the same success condition, length
    max(SID) + 1, each mapped ticker's sector code at its SID and -1 elsewhere.
   */
  lemma SectorFillMeaning(f: seq<TickerRow>, sids: map<string, nat>)
    requires Injective(sids)
    ensures Fill(Corrected, f, sids, [Sector]).Success? <==> sids.Keys != {} && Unambiguous(f, sids)
    ensures Fill(Corrected, f, sids, [Sector]).Success? ==>
      && |Fill(Corrected, f, sids, [Sector]).value| == 1
      && |Fill(Corrected, f, sids, [Sector]).value[0]| == Width(sids)
    ensures Fill(Corrected, f, sids, [Sector]).Success? ==>
      forall t :: t in sids ==> Fill(Corrected, f, sids, [Sector]).value[0][sids[t]] == Store(Sector, Find(f, t))
    ensures Fill(Corrected, f, sids, [Sector]).Success? ==>
      forall j :: 0 <= j < Width(sids) && j !in sids.Values ==> Fill(Corrected, f, sids, [Sector]).value[0][j] == Sentinel
  {
    CorrectedOutcome(f, sids, [Sector]);
    if Fill(Corrected, f, sids, [Sector]).Success? {
      forall t | t in sids
        ensures Fill(Corrected, f, sids, [Sector]).value[0][sids[t]] == Store(Sector, Find(f, t))
      {
        FillCell(Corrected, f, sids, [Sector], 0, t);
      }
      forall j | 0 <= j < Width(sids) && j !in sids.Values
        ensures Fill(Corrected, f, sids, [Sector]).value[0][j] == Sentinel
      {
        FillDefault(Corrected, f, sids, [Sector], 0, j);
      }
    }
  }

  /** The corrected static array fails with `Truncated` exactly on a short table, and is otherwise its fill. */
  lemma StaticTableMeaning(rows: seq<TickerRow>, sids: map<string, nat>)
    requires Injective(sids)
    ensures StaticTable(rows, sids) == Failure(Truncated) <==> |rows| <= MinRows
    ensures StaticTable(rows, sids).Success? <==>
      |rows| > MinRows && sids.Keys != {} && Unambiguous(Filtered(rows), sids)
  {
    TableOutcome(rows, sids, Attributes);
  }

  /** The corrected sector array, likewise. */
  lemma SectorTableMeaning(rows: seq<TickerRow>, sids: map<string, nat>)
    requires Injective(sids)
    ensures SectorTable(rows, sids) == Failure(Truncated) <==> |rows| <= MinRows
    ensures SectorTable(rows, sids).Success? <==>
      |rows| > MinRows && sids.Keys != {} && Unambiguous(Filtered(rows), sids)
  {
    TableOutcome(rows, sids, [Sector]);
  }

  /** Either variant's outcome, for any non-empty list of attributes. */
  lemma TableOutcome(rows: seq<TickerRow>, sids: map<string, nat>, attrs: seq<Attribute>)
    requires Injective(sids) && |attrs| > 0
    ensures Table(Corrected, rows, sids, attrs) == Failure(Truncated) <==> |rows| <= MinRows
    ensures Table(Corrected, rows, sids, attrs).Success? <==>
      |rows| > MinRows && sids.Keys != {} && Unambiguous(Filtered(rows), sids)
  {
    CorrectedOutcome(Filtered(rows), sids, attrs);
  }

  /** The sector fill is the first row of the static fill, errors included. */
  lemma SectorFillIsStaticRow(f: seq<TickerRow>, sids: map<string, nat>)
    requires Injective(sids)
    ensures Fill(Corrected, f, sids, [Sector]).Success? <==> Fill(Corrected, f, sids, Attributes).Success?
    ensures Fill(Corrected, f, sids, [Sector]).Failure? ==>
      Fill(Corrected, f, sids, [Sector]).error == Fill(Corrected, f, sids, Attributes).error
    ensures Fill(Corrected, f, sids, [Sector]).Success? ==>
      Fill(Corrected, f, sids, [Sector]).value[0] == Fill(Corrected, f, sids, Attributes).value[0]
  {
    CorrectedOutcome(f, sids, [Sector]);
    CorrectedOutcome(f, sids, Attributes);
  }

  /** The 1-D variant is exactly the sector row of the static variant, errors included. */
  lemma SectorTableIsStaticRow(rows: seq<TickerRow>, sids: map<string, nat>)
    requires Injective(sids)
    ensures SectorTable(rows, sids).Success? <==> StaticTable(rows, sids).Success?
    ensures SectorTable(rows, sids).Failure? ==> SectorTable(rows, sids).error == StaticTable(rows, sids).error
    ensures SectorTable(rows, sids).Success? ==> SectorTable(rows, sids).value == StaticTable(rows, sids).value[0]
  {
    SectorFillIsStaticRow(Filtered(rows), sids);
  }

  /**
    A row whose exchange is "None" or "INDEX", or whose table is not "SEP",
    changes no output once the row-count assertion has passed.
   */
  lemma RejectedRowIrrelevant(p: Policy, a: seq<TickerRow>, r: TickerRow, b: seq<TickerRow>,
                              sids: map<string, nat>, attrs: seq<Attribute>)
    requires Injective(sids)
    requires !Kept(r)
    requires |a| + |b| > MinRows
    ensures Table(p, a + [r] + b, sids, attrs) == Table(p, a + b, sids, attrs)
    ensures StaticTable(a + [r] + b, sids) == StaticTable(a + b, sids)
    ensures SectorTable(a + [r] + b, sids) == SectorTable(a + b, sids)
  {
    RejectedRowDropped(a, r, b);
  }

  /** A SID map with a single ticker. */
  lemma SingleSid(t: string, s: nat)
    ensures map[t := s].Keys == {t} && map[t := s].Values == {s}
    ensures Injective(map[t := s])
    ensures Width(map[t := s]) == s + 1
  {
    var m := map[t := s];
    assert t in m.Keys;
    assert m[t] in m.Values;
    forall v | v in m.Values ensures v == s {
      var k :| k in m && m[k] == v;
    }
  }

  const Aapl: TickerRow :=
    TickerRow("AAPL", Text("SEP"), Text("NASDAQ"), Text("Technology"), Text("Domestic Common Stock"))

  lemma AaplCodes()
    ensures Store(Sector, Unique(Aapl)) == 0
    ensures Store(Exchange, Unique(Aapl)) == 1
    ensures Store(Category, Unique(Aapl)) == 0
  {
    assert "Technology" in SectorCodes.names;
    assert "NASDAQ" in ExchangeCodes.names;
    assert "Domestic Common Stock" in CategoryCodes.names;
  }

  /**
    A filtered table in which AAPL is listed once, on NASDAQ, in Technology,
    as a domestic common stock, with SID map {AAPL: 5}: column 5 is [0, 1, 0]
    and columns 0..4 are -1.
   */
  lemma AaplExample(f: seq<TickerRow>)
    requires Find(f, "AAPL") == Unique(Aapl)
    ensures Fill(Corrected, f, map["AAPL" := 5], Attributes) ==
      Success([[-1, -1, -1, -1, -1, 0], [-1, -1, -1, -1, -1, 1], [-1, -1, -1, -1, -1, 0]])
  {
    AaplFill(f);
    AaplCodes();
  }

  /** The AAPL fill for whatever single row AAPL has: three rows, each five sentinels and then its code. */
  lemma AaplFill(f: seq<TickerRow>)
    requires !Find(f, "AAPL").Ambiguous?
    ensures var l := Find(f, "AAPL");
      Fill(Corrected, f, map["AAPL" := 5], Attributes) ==
      Success([[-1, -1, -1, -1, -1, Store(Sector, l)], [-1, -1, -1, -1, -1, Store(Exchange, l)],
               [-1, -1, -1, -1, -1, Store(Category, l)]])
  {
    var sids := map["AAPL" := 5];
    var l := Find(f, "AAPL");
    SingleSid("AAPL", 5);
    assert Unambiguous(f, sids);
    CorrectedOutcome(f, sids, Attributes);
    AaplRow(f, Sector);
    AaplRow(f, Exchange);
    AaplRow(f, Category);
    var v := Fill(Corrected, f, sids, Attributes).value;
    assert v[0] == Row(Corrected, f, sids, Sector);
    assert v[1] == Row(Corrected, f, sids, Exchange);
    assert v[2] == Row(Corrected, f, sids, Category);
    assert v == [[-1, -1, -1, -1, -1, Store(Sector, l)], [-1, -1, -1, -1, -1, Store(Exchange, l)],
                 [-1, -1, -1, -1, -1, Store(Category, l)]];
  }

  /** One row of the AAPL example: five unowned columns, then AAPL's code. */
  lemma AaplRow(f: seq<TickerRow>, a: Attribute)
    requires !Find(f, "AAPL").Ambiguous?
    ensures Injective(map["AAPL" := 5]) && map["AAPL" := 5].Keys != {}
    ensures forall t :: t in map["AAPL" := 5] ==> StoreWith(Corrected, a, Find(f, t)).Success?
    ensures Row(Corrected, f, map["AAPL" := 5], a) == [-1, -1, -1, -1, -1, Store(a, Find(f, "AAPL"))]
  {
    SingleTickerColumns(f, "AAPL", 5, a);
    var r := Row(Corrected, f, map["AAPL" := 5], a);
    assert r[0] == -1 && r[1] == -1 && r[2] == -1 && r[3] == -1 && r[4] == -1;
  }

  /** With a single ticker under SID `s`, the row has `s + 1` columns, the last its code, the rest the sentinel. */
  lemma SingleTickerColumns(f: seq<TickerRow>, t: string, s: nat, a: Attribute)
    requires !Find(f, t).Ambiguous?
    ensures Injective(map[t := s]) && map[t := s].Keys != {}
    ensures forall u :: u in map[t := s] ==> StoreWith(Corrected, a, Find(f, u)).Success?
    ensures |Row(Corrected, f, map[t := s], a)| == s + 1
    ensures forall j :: 0 <= j <= s ==>
      Row(Corrected, f, map[t := s], a)[j] == if j == s then Store(a, Find(f, t)) else Sentinel
  {
    SingleSid(t, s);
    forall j | 0 <= j <= s
      ensures Row(Corrected, f, map[t := s], a)[j] == if j == s then Store(a, Find(f, t)) else Sentinel
    {
      SingleTickerCell(f, t, s, a, j);
    }
  }

  /** With a single ticker under SID `s`, column `s` holds its code and every column before it the sentinel. */
  lemma SingleTickerCell(f: seq<TickerRow>, t: string, s: nat, a: Attribute, j: nat)
    requires !Find(f, t).Ambiguous? && j <= s
    ensures Injective(map[t := s])
    ensures forall u :: u in map[t := s] ==> StoreWith(Corrected, a, Find(f, u)).Success?
    ensures CellAt(Corrected, f, map[t := s], a, j) == if j == s then Store(a, Find(f, t)) else Sentinel
  {
    var sids := map[t := s];
    SingleSid(t, s);
    if j == s {
      OwnerOfSid(sids, t);
    } else {
      assert j !in sids.Values;
    }
  }

  /** Every mapped ticker that is listed once has a storable sector and exchange as written. */
  ghost predicate CodedAsWritten(f: seq<TickerRow>, sids: map<string, nat>) {
    forall t :: t in sids && Find(f, t).Unique? ==>
      && (InVocabulary(SectorCodes, Find(f, t).row.sector) || Find(f, t).row.sector.Missing?)
      && InVocabulary(ExchangeCodes, Find(f, t).row.exchange)
  }

  lemma StoreAgrees(a: Attribute, l: Lookup)
    requires l.Unique? ==>
      && (InVocabulary(SectorCodes, l.row.sector) || l.row.sector.Missing?)
      && InVocabulary(ExchangeCodes, l.row.exchange)
    ensures StoreWith(AsWritten, a, l) == StoreWith(Corrected, a, l)
  {
  }

  /**
    When every mapped ticker's sector is known or missing and its exchange is
    known, the source's fills are the corrected ones.
   */
  lemma AsWrittenAgreesWhenCoded(f: seq<TickerRow>, sids: map<string, nat>, attrs: seq<Attribute>)
    requires Injective(sids)
    requires CodedAsWritten(f, sids)
    ensures Fill(AsWritten, f, sids, attrs) == Fill(Corrected, f, sids, attrs)
  {
    forall t, a | t in sids
      ensures StoreWith(AsWritten, a, Find(f, t)) == StoreWith(Corrected, a, Find(f, t))
    {
      StoreAgrees(a, Find(f, t));
    }
    assert Storable(AsWritten, f, sids, attrs) == Storable(Corrected, f, sids, attrs);
    if sids.Keys != {} && Storable(Corrected, f, sids, attrs) {
      var x := Fill(AsWritten, f, sids, attrs).value;
      var y := Fill(Corrected, f, sids, attrs).value;
      forall i | 0 <= i < |attrs| ensures x[i] == y[i] {
        RowAgrees(f, sids, attrs[i]);
      }
      assert x == y;
    }
  }

  lemma RowAgrees(f: seq<TickerRow>, sids: map<string, nat>, a: Attribute)
    requires Injective(sids) && sids.Keys != {}
    requires forall t :: t in sids ==> StoreWith(Corrected, a, Find(f, t)).Success?
    requires forall t :: t in sids ==> StoreWith(AsWritten, a, Find(f, t)) == StoreWith(Corrected, a, Find(f, t))
    ensures Row(AsWritten, f, sids, a) == Row(Corrected, f, sids, a)
  {
  }

  /** The same agreement for both arrays of a whole run. */
  lemma AsWrittenTablesAgreeWhenCoded(rows: seq<TickerRow>, sids: map<string, nat>)
    requires Injective(sids)
    requires CodedAsWritten(Filtered(rows), sids)
    ensures StaticTableAsWritten(rows, sids) == StaticTable(rows, sids)
    ensures SectorTableAsWritten(rows, sids) == SectorTable(rows, sids)
  {
    AsWrittenAgreesWhenCoded(Filtered(rows), sids, Attributes);
    AsWrittenAgreesWhenCoded(Filtered(rows), sids, [Sector]);
  }

  /** As written, an unknown sector of a mapped ticker aborts both fills. */
  lemma UnknownSectorAbortsAsWritten(f: seq<TickerRow>, row: TickerRow)
    requires Find(f, row.ticker) == Unique(row)
    requires row.sector.Text? && !InVocabulary(SectorCodes, row.sector)
    ensures Fill(AsWritten, f, map[row.ticker := 0], Attributes) == Failure(ValueNotStorable)
    ensures Fill(AsWritten, f, map[row.ticker := 0], [Sector]) == Failure(ValueNotStorable)
  {
    SingleSid(row.ticker, 0);
    assert StoreWith(AsWritten, Attributes[0], Find(f, row.ticker)).Failure?;
    assert StoreWith(AsWritten, [Sector][0], Find(f, row.ticker)).Failure?;
  }

  /** With a single mapped ticker at SID 0, each fill has one column: that ticker's codes. */
  lemma SingleTickerFills(f: seq<TickerRow>, t: string)
    requires !Find(f, t).Ambiguous?
    ensures Injective(map[t := 0])
    ensures Fill(Corrected, f, map[t := 0], [Sector]) == Success([[Store(Sector, Find(f, t))]])
    ensures Fill(Corrected, f, map[t := 0], Attributes) == Success([
      [Store(Sector, Find(f, t))],
      [Store(Exchange, Find(f, t))],
      [Store(Category, Find(f, t))]])
  {
    var sids := map[t := 0];
    SingleSid(t, 0);
    assert Unambiguous(f, sids);
    CorrectedOutcome(f, sids, Attributes);
    CorrectedOutcome(f, sids, [Sector]);
    SingleTickerRow(f, t, Sector);
    SingleTickerRow(f, t, Exchange);
    SingleTickerRow(f, t, Category);
    var v := Fill(Corrected, f, sids, Attributes).value;
    assert v[0] == Row(Corrected, f, sids, Sector);
    assert v[1] == Row(Corrected, f, sids, Exchange);
    assert v[2] == Row(Corrected, f, sids, Category);
    assert v == [[Store(Sector, Find(f, t))], [Store(Exchange, Find(f, t))], [Store(Category, Find(f, t))]];
    var w := Fill(Corrected, f, sids, [Sector]).value;
    assert w[0] == Row(Corrected, f, sids, Sector);
    assert w == [[Store(Sector, Find(f, t))]];
  }

  /** With a single ticker under SID 0, each row is that ticker's one cell. */
  lemma SingleTickerRow(f: seq<TickerRow>, t: string, a: Attribute)
    requires !Find(f, t).Ambiguous?
    ensures Injective(map[t := 0]) && map[t := 0].Keys != {}
    ensures forall u :: u in map[t := 0] ==> StoreWith(Corrected, a, Find(f, u)).Success?
    ensures Row(Corrected, f, map[t := 0], a) == [Store(a, Find(f, t))]
  {
    var sids := map[t := 0];
    SingleSid(t, 0);
    OwnerOfSid(sids, t);
    var r := Row(Corrected, f, sids, a);
    assert r[0] == Store(a, Find(f, t));
    assert r == [Store(a, Find(f, t))];
  }

  /** Corrected, the same ticker's sector cell is -1 and the fill completes. */
  lemma UnknownSectorStoredAsSentinel(f: seq<TickerRow>, row: TickerRow)
    requires Find(f, row.ticker) == Unique(row)
    requires row.sector.Text? && !InVocabulary(SectorCodes, row.sector)
    ensures Fill(Corrected, f, map[row.ticker := 0], [Sector]) == Success([[Sentinel]])
  {
    SingleTickerFills(f, row.ticker);
  }

  /** As written, a missing exchange of a mapped ticker (the filters keep it) aborts the static fill. */
  lemma MissingExchangeAbortsAsWritten(f: seq<TickerRow>, row: TickerRow)
    requires Find(f, row.ticker) == Unique(row)
    requires row.exchange == Missing
    ensures Fill(AsWritten, f, map[row.ticker := 0], Attributes) == Failure(ValueNotStorable)
  {
    SingleSid(row.ticker, 0);
    assert StoreWith(AsWritten, Attributes[1], Find(f, row.ticker)).Failure?;
  }

  /** A row with a missing exchange survives the filters. */
  lemma MissingExchangeKept(row: TickerRow)
    requires row.exchange == Missing && row.table == Text("SEP")
    ensures Kept(row)
  {
  }

  /** Corrected, the same ticker's exchange cell is -1 and the fill completes. */
  lemma MissingExchangeStoredAsSentinel(f: seq<TickerRow>, row: TickerRow)
    requires Find(f, row.ticker) == Unique(row)
    requires row.exchange == Missing
    ensures Fill(Corrected, f, map[row.ticker := 0], Attributes).Success?
    ensures Fill(Corrected, f, map[row.ticker := 0], Attributes).value[1] == [Sentinel]
  {
    SingleTickerFills(f, row.ticker);
  }

  /**
    The source's own guard on the category row: as written, an unmapped or
    missing category is stored as -1 and never raises.
   */
  lemma CategoryNeverAbortsAsWritten(l: Lookup)
    requires !l.Ambiguous?
    ensures StoreWith(AsWritten, Category, l) == Success(Store(Category, l))
    ensures l.Unique? && !InVocabulary(CategoryCodes, l.row.category) ==> Store(Category, l) == Sentinel
  {
  }
}
