/**
  The reference-data coder: filters the ticker reference table, codes the
  sector, exchange and category of every ticker, and writes the codes into
  dense arrays indexed by the security identifier (SID) a bundle assigned.
 */
module SectorCodeLoader {
  import opened Wrappers
  import opened SectorCoding

  /** One row of the reference table, indexed by ticker. */
  datatype TickerRow = TickerRow(ticker: string, table: Cell, exchange: Cell, sector: Cell, category: Cell)

  /** The coded attributes, in the row order of the static array. */
  datatype Attribute = Sector | Exchange | Category

  const Attributes: seq<Attribute> := [Sector, Exchange, Category]

  /** Why a run stops before anything is saved. */
  datatype LoadError =
    | Truncated         // the row-count assertion failed
    | NoAssets          // `max` of an empty SID map
    | ValueNotStorable  // numpy refused the value assigned to an int64 cell

  /** The table must have strictly more rows than this, counted before filtering. */
  const MinRows: nat := 10001

  function CodingOf(a: Attribute): Coding {
    match a
    case Sector => SectorCodes
    case Exchange => ExchangeCodes
    case Category => CategoryCodes
  }

  function FieldOf(a: Attribute, row: TickerRow): Cell {
    match a
    case Sector => row.sector
    case Exchange => row.exchange
    case Category => row.category
  }

  /** A row survives the filters: exchange neither "None" nor "INDEX", table "SEP". */
  predicate Kept(r: TickerRow) {
    r.exchange != Text("None") && r.exchange != Text("INDEX") && r.table == Text("SEP")
  }

  /** The rows that survive the filters, in table order. */
  function Filtered(rows: seq<TickerRow>): (r: seq<TickerRow>)
    ensures forall x :: x in r <==> x in rows && Kept(x)
    ensures |r| <= |rows|
  {
    if |rows| == 0 then [] else (if Kept(rows[0]) then [rows[0]] else []) + Filtered(rows[1..])
  }

  lemma {:induction false} FilteredAppend(a: seq<TickerRow>, b: seq<TickerRow>)
    ensures Filtered(a + b) == Filtered(a) + Filtered(b)
  {
    if |a| == 0 {
      assert a + b == b;
    } else {
      assert (a + b)[1..] == a[1..] + b;
      FilteredAppend(a[1..], b);
    }
  }

  /** A row the filters reject leaves the filtered table unchanged wherever it stands. */
  lemma RejectedRowDropped(a: seq<TickerRow>, r: TickerRow, b: seq<TickerRow>)
    requires !Kept(r)
    ensures Filtered(a + [r] + b) == Filtered(a + b)
  {
    var ar := a + [r];
    FilteredAppend(ar, b);
    FilteredAppend(a, [r]);
    FilteredAppend(a, b);
    FilteredRejected(r);
    assert Filtered(ar) == Filtered(a);
  }

  lemma FilteredRejected(r: TickerRow)
    requires !Kept(r)
    ensures Filtered([r]) == []
  {
    assert [r][1..] == [];
  }

  /** The rows whose ticker is `t`, in table order. */
  function RowsFor(rows: seq<TickerRow>, t: string): (r: seq<TickerRow>)
    ensures forall x :: x in r <==> x in rows && x.ticker == t
  {
    if |rows| == 0 then [] else (if rows[0].ticker == t then [rows[0]] else []) + RowsFor(rows[1..], t)
  }

  /** What `Series.get(ticker)` finds on the ticker-indexed table. */
  datatype Lookup = NotFound | Unique(row: TickerRow) | Ambiguous

  function Find(rows: seq<TickerRow>, t: string): (l: Lookup)
    ensures l.NotFound? <==> forall x :: x in rows ==> x.ticker != t
    ensures l.Unique? ==> l.row in rows && l.row.ticker == t && RowsFor(rows, t) == [l.row]
    ensures l.Ambiguous? <==> |RowsFor(rows, t)| >= 2
  {
    var m := RowsFor(rows, t);
    if |m| == 0 then NotFound
    else if |m| == 1 then (assert m[0] in m; Unique(m[0]))
    else (assert m[0] in m; Ambiguous)
  }

  /** The corrected store: an absent ticker or an uncoded value becomes the sentinel. */
  function Store(a: Attribute, l: Lookup): (r: int)
    requires !l.Ambiguous?
    ensures r == Sentinel <==> l.NotFound? || !InVocabulary(CodingOf(a), FieldOf(a, l.row))
    ensures r != Sentinel ==> r == CodingOf(a).names[FieldOf(a, l.row).text]
  {
    match l
    case NotFound => Sentinel
    case Unique(row) => Code(CodingOf(a), FieldOf(a, row))
  }

  /** How the value fetched for one cell is written into the int64 array. */
  datatype Policy =
    | AsWritten  // the source: a NaN sector or exchange reaches numpy and raises
    | Corrected  // every NaN is replaced by the sentinel before the assignment

  /**
    The cell the source cannot store: a sector or exchange of a listed ticker
    that `Series.map` turns into NaN, because it is not a name of the table
    and not a NaN the table maps. The category is guarded against NaN.
   */
  predicate Unmapped(a: Attribute, l: Lookup) {
    && l.Unique? && a != Category
    && !InVocabulary(CodingOf(a), FieldOf(a, l.row))
    && !(FieldOf(a, l.row).Missing? && CodingOf(a).nanKey)
  }

  /**
    The value written for attribute `a` of a looked-up ticker, or the error the
    assignment raises. A duplicated ticker yields a Series, which numpy refuses
    under both policies.
   */
  function StoreWith(p: Policy, a: Attribute, l: Lookup): (r: Result<int, LoadError>)
    ensures r.Success? ==> !l.Ambiguous? && r.value == Store(a, l)
    ensures r.Failure? ==> r.error == ValueNotStorable
    ensures r.Failure? <==> l.Ambiguous? || (p == AsWritten && Unmapped(a, l))
  {
    match l
    case Ambiguous => Failure(ValueNotStorable)
    case NotFound => Success(Sentinel)
    case Unique(row) =>
      match p
      case Corrected => Success(Store(a, l))
      case AsWritten =>
        match MapCell(CodingOf(a), FieldOf(a, row))
        case Some(k) => Success(k)
        case None => if a == Category then Success(Sentinel) else Failure(ValueNotStorable)
  }

  /** Bundle SIDs are primary keys: no two tickers share one. */
  ghost predicate Injective(sids: map<string, nat>) {
    forall t, u :: t in sids && u in sids && t != u ==> sids[t] != sids[u]
  }

  ghost function MaxOf(s: set<nat>): (m: nat)
    requires s != {}
    ensures m in s && forall x :: x in s ==> x <= m
  {
    var x :| x in s;
    if s == {x} then
      assert forall y :: y in s ==> y == x;
      x
    else
      var m' := MaxOf(s - {x});
      assert forall y :: y in s ==> y == x || y in s - {x};
      if x > m' then x else m'
  }

  /** The array length `max(SID) + 1`. */
  ghost function Width(sids: map<string, nat>): (n: nat)
    requires sids.Keys != {}
    ensures forall t :: t in sids ==> sids[t] < n
    ensures exists t :: t in sids && sids[t] == n - 1
  {
    var t :| t in sids;
    assert sids[t] in sids.Values;
    var m := MaxOf(sids.Values);
    assert forall u :: u in sids ==> sids[u] in sids.Values;
    m + 1
  }

  /** The ticker the SID map assigns to column `j`, if any. */
  ghost function Owner(sids: map<string, nat>, j: nat): (o: Option<string>)
    requires Injective(sids)
    ensures o.None? <==> j !in sids.Values
    ensures o.Some? ==> o.value in sids && sids[o.value] == j
  {
    if exists t :: t in sids && sids[t] == j then
      var t :| t in sids && sids[t] == j; Some(t)
    else None
  }

  lemma OwnerOfSid(sids: map<string, nat>, t: string)
    requires Injective(sids) && t in sids
    ensures Owner(sids, sids[t]) == Some(t)
  {
  }

  /** Every mapped ticker is looked up without a numpy error under policy `p`. */
  ghost predicate Storable(p: Policy, f: seq<TickerRow>, sids: map<string, nat>, attrs: seq<Attribute>) {
    forall t, i :: t in sids && 0 <= i < |attrs| ==> StoreWith(p, attrs[i], Find(f, t)).Success?
  }

  /** Column `j` of the row for attribute `a`: the owner's stored code, or the sentinel. */
  ghost function CellAt(p: Policy, f: seq<TickerRow>, sids: map<string, nat>, a: Attribute, j: nat): int
    requires Injective(sids)
    requires forall t :: t in sids ==> StoreWith(p, a, Find(f, t)).Success?
  {
    match Owner(sids, j)
    case None => Sentinel
    case Some(t) => StoreWith(p, a, Find(f, t)).value
  }

  /**
    The arrays filled from the filtered table `f`: one row per attribute in
    `attrs`, one column per SID in `0..max(SID)`, after `max(SID) + 1` and the
    per-ticker assignments.
   */
  ghost function Fill(p: Policy, f: seq<TickerRow>, sids: map<string, nat>, attrs: seq<Attribute>): (r: Result<seq<seq<int>>, LoadError>)
    requires Injective(sids)
    ensures r.Success? ==> sids.Keys != {} && |r.value| == |attrs|
    ensures r.Success? ==> forall i :: 0 <= i < |attrs| ==> |r.value[i]| == Width(sids)
  {
    if sids.Keys == {} then Failure(NoAssets)
    else if !Storable(p, f, sids, attrs) then Failure(ValueNotStorable)
    else Success(seq(|attrs|, i requires 0 <= i < |attrs| => Row(p, f, sids, attrs[i])))
  }

  /** The reference definition of both variants: the row-count assertion, the filters, then `Fill`. */
  ghost function Table(p: Policy, rows: seq<TickerRow>, sids: map<string, nat>, attrs: seq<Attribute>): Result<seq<seq<int>>, LoadError>
    requires Injective(sids)
  {
    if |rows| <= MinRows then Failure(Truncated) else Fill(p, Filtered(rows), sids, attrs)
  }

  /** The row of attribute `a`: one cell per SID in `0..max(SID)`. */
  ghost function Row(p: Policy, f: seq<TickerRow>, sids: map<string, nat>, a: Attribute): (r: seq<int>)
    requires Injective(sids) && sids.Keys != {}
    requires forall t :: t in sids ==> StoreWith(p, a, Find(f, t)).Success?
    ensures |r| == Width(sids)
  {
    seq(Width(sids), j requires 0 <= j < Width(sids) => CellAt(p, f, sids, a, j))
  }

  /** The 3 x N static array, rows sector, exchange, category, as corrected. */
  ghost function StaticTable(rows: seq<TickerRow>, sids: map<string, nat>): Result<seq<seq<int>>, LoadError>
    requires Injective(sids)
  {
    Table(Corrected, rows, sids, Attributes)
  }

  /** The 1-D sector array, as corrected. */
  ghost function SectorTable(rows: seq<TickerRow>, sids: map<string, nat>): Result<seq<int>, LoadError>
    requires Injective(sids)
  {
    match Table(Corrected, rows, sids, [Sector])
    case Success(t) => Success(t[0])
    case Failure(e) => Failure(e)
  }

  /** The static array as the source computes it. */
  ghost function StaticTableAsWritten(rows: seq<TickerRow>, sids: map<string, nat>): Result<seq<seq<int>>, LoadError>
    requires Injective(sids)
  {
    Table(AsWritten, rows, sids, Attributes)
  }

  /** The sector array as the source computes it. */
  ghost function SectorTableAsWritten(rows: seq<TickerRow>, sids: map<string, nat>): Result<seq<int>, LoadError>
    requires Injective(sids)
  {
    match Table(AsWritten, rows, sids, [Sector])
    case Success(t) => Success(t[0])
    case Failure(e) => Failure(e)
  }

  /** No mapped ticker appears twice in the filtered table. */
  ghost predicate Unambiguous(f: seq<TickerRow>, sids: map<string, nat>) {
    forall t :: t in sids ==> !Find(f, t).Ambiguous?
  }

  lemma CorrectedStorable(f: seq<TickerRow>, sids: map<string, nat>, attrs: seq<Attribute>)
    requires |attrs| > 0
    ensures Storable(Corrected, f, sids, attrs) <==> Unambiguous(f, sids)
  {
    if !Unambiguous(f, sids) {
      var t :| t in sids && Find(f, t).Ambiguous?;
      assert StoreWith(Corrected, attrs[0], Find(f, t)).Failure?;
    }
  }

  /** Column `j` after the tickers outside `todo` have been written. */
  ghost function Written(f: seq<TickerRow>, sids: map<string, nat>, todo: set<string>, a: Attribute, j: nat): int
    requires Injective(sids)
  {
    match Owner(sids, j)
    case None => Sentinel
    case Some(t) => if t !in todo && !Find(f, t).Ambiguous? then Store(a, Find(f, t)) else Sentinel
  }

  /** Writing ticker `t`'s value at its SID moves `t` out of `todo` in every column. */
  lemma WriteStep(f: seq<TickerRow>, sids: map<string, nat>, todo: set<string>, a: Attribute, col: seq<int>, t: string)
    requires Injective(sids) && t in todo && t in sids && sids[t] < |col|
    requires !Find(f, t).Ambiguous?
    requires forall j :: 0 <= j < |col| ==> col[j] == Written(f, sids, todo, a, j)
    ensures forall j :: 0 <= j < |col| ==>
      col[sids[t] := Store(a, Find(f, t))][j] == Written(f, sids, todo - {t}, a, j)
  {
    OwnerOfSid(sids, t);
    forall j | 0 <= j < |col|
      ensures col[sids[t] := Store(a, Find(f, t))][j] == Written(f, sids, todo - {t}, a, j)
    {
      if j != sids[t] {
        var o := Owner(sids, j);
        assert o.Some? ==> o.value != t;
      }
    }
  }

  /** Once every ticker is written, a column is the corrected row of its attribute. */
  lemma FinishedColumn(f: seq<TickerRow>, sids: map<string, nat>, a: Attribute, col: seq<int>)
    requires Injective(sids) && sids.Keys != {} && Unambiguous(f, sids)
    requires |col| == Width(sids)
    requires forall j :: 0 <= j < |col| ==> col[j] == Written(f, sids, {}, a, j)
    ensures col == Row(Corrected, f, sids, a)
  {
  }

  /** A duplicated mapped ticker makes every corrected fill fail. */
  lemma DuplicateAborts(f: seq<TickerRow>, sids: map<string, nat>, attrs: seq<Attribute>, t: string)
    requires Injective(sids) && t in sids && Find(f, t).Ambiguous? && |attrs| > 0
    ensures Fill(Corrected, f, sids, attrs) == Failure(ValueNotStorable)
  {
    assert StoreWith(Corrected, attrs[0], Find(f, t)).Failure?;
  }

  /** Three finished columns, in attribute order, are the corrected static fill. */
  lemma StaticAssembled(f: seq<TickerRow>, sids: map<string, nat>, s: seq<int>, e: seq<int>, c: seq<int>)
    requires Injective(sids) && sids.Keys != {} && Unambiguous(f, sids)
    requires s == Row(Corrected, f, sids, Sector)
    requires e == Row(Corrected, f, sids, Exchange)
    requires c == Row(Corrected, f, sids, Category)
    ensures Fill(Corrected, f, sids, Attributes) == Success([s, e, c])
  {
    CorrectedStorable(f, sids, Attributes);
    var reference := Fill(Corrected, f, sids, Attributes);
    assert Attributes[0] == Sector && Attributes[1] == Exchange && Attributes[2] == Category;
    assert |reference.value| == 3;
    assert reference.value[0] == s && reference.value[1] == e && reference.value[2] == c;
    assert reference.value == [s, e, c];
  }

  /** `max(SID)` over the bundle's map, by one pass over its tickers. */
  method MaxSid(sids: map<string, nat>) returns (m: nat)
    requires sids.Keys != {}
    ensures m + 1 == Width(sids)
  {
    var t0 :| t0 in sids;
    m := sids[t0];
    var todo := sids.Keys;
    while todo != {}
      invariant todo <= sids.Keys
      invariant exists t :: t in sids && sids[t] == m
      invariant forall t :: t in sids && t !in todo ==> sids[t] <= m
      decreases todo
    {
      var t :| t in todo;
      if sids[t] > m {
        m := sids[t];
      }
      todo := todo - {t};
    }
  }

  /**
    The 1-D variant with the corrected store: the row-count assertion, the
    filters, then the fill loop. An unmapped sector is stored as -1 here,
    where the source raises.
   */
  method CreateSidTable(rows: seq<TickerRow>, sids: map<string, nat>) returns (r: Result<seq<int>, LoadError>)
    requires Injective(sids)
    ensures r == SectorTable(rows, sids)
  {
    if |rows| <= MinRows {
      return Failure(Truncated);
    }
    var f := Filtered(rows);
    r := FillSectors(f, sids);
  }

  /** The corrected fill loop of the 1-D variant: one sector code per SID, -1 by default. */
  method FillSectors(f: seq<TickerRow>, sids: map<string, nat>) returns (r: Result<seq<int>, LoadError>)
    requires Injective(sids)
    ensures r.Success? <==> Fill(Corrected, f, sids, [Sector]).Success?
    ensures r.Failure? ==> r.error == Fill(Corrected, f, sids, [Sector]).error
    ensures r.Success? ==> r.value == Fill(Corrected, f, sids, [Sector]).value[0]
  {
    if sids.Keys == {} {
      return Failure(NoAssets);
    }
    var top := MaxSid(sids);
    var n := top + 1;
    var sectors := seq(n, _ => Sentinel);
    var todo := sids.Keys;
    while todo != {}
      invariant todo <= sids.Keys
      invariant |sectors| == n
      invariant forall t :: t in sids && t !in todo ==> !Find(f, t).Ambiguous?
      invariant forall j :: 0 <= j < n ==> sectors[j] == Written(f, sids, todo, Sector, j)
      decreases todo
    {
      var t :| t in todo;
      var l := Find(f, t);
      if l.Ambiguous? {
        DuplicateAborts(f, sids, [Sector], t);
        return Failure(ValueNotStorable);
      }
      WriteStep(f, sids, todo, Sector, sectors, t);
      sectors := sectors[sids[t] := Store(Sector, l)];
      todo := todo - {t};
    }
    CorrectedStorable(f, sids, [Sector]);
    FinishedColumn(f, sids, Sector, sectors);
    r := Success(sectors);
  }

  /**
    The static variant with the corrected store: the row-count assertion,
    the filters, then the fill loop. An unmapped sector or exchange is stored
    as -1 here, where the source raises.
   */
  method CreateStaticTable(rows: seq<TickerRow>, sids: map<string, nat>) returns (r: Result<seq<seq<int>>, LoadError>)
    requires Injective(sids)
    ensures r == StaticTable(rows, sids)
  {
    if |rows| <= MinRows {
      return Failure(Truncated);
    }
    var f := Filtered(rows);
    r := FillStatic(f, sids);
  }

  /** The corrected fill loop of the static variant: rows sector, exchange, category per SID, -1 by default. */
  method FillStatic(f: seq<TickerRow>, sids: map<string, nat>) returns (r: Result<seq<seq<int>>, LoadError>)
    requires Injective(sids)
    ensures r == Fill(Corrected, f, sids, Attributes)
  {
    if sids.Keys == {} {
      return Failure(NoAssets);
    }
    var top := MaxSid(sids);
    var n := top + 1;
    var sectors := seq(n, _ => Sentinel);
    var exchanges := seq(n, _ => Sentinel);
    var categories := seq(n, _ => Sentinel);
    var todo := sids.Keys;
    while todo != {}
      invariant todo <= sids.Keys
      invariant |sectors| == n && |exchanges| == n && |categories| == n
      invariant forall t :: t in sids && t !in todo ==> !Find(f, t).Ambiguous?
      invariant forall j :: 0 <= j < n ==> sectors[j] == Written(f, sids, todo, Sector, j)
      invariant forall j :: 0 <= j < n ==> exchanges[j] == Written(f, sids, todo, Exchange, j)
      invariant forall j :: 0 <= j < n ==> categories[j] == Written(f, sids, todo, Category, j)
      decreases todo
    {
      var t :| t in todo;
      var l := Find(f, t);
      if l.Ambiguous? {
        DuplicateAborts(f, sids, Attributes, t);
        return Failure(ValueNotStorable);
      }
      WriteStep(f, sids, todo, Sector, sectors, t);
      WriteStep(f, sids, todo, Exchange, exchanges, t);
      WriteStep(f, sids, todo, Category, categories, t);
      sectors := sectors[sids[t] := Store(Sector, l)];
      exchanges := exchanges[sids[t] := Store(Exchange, l)];
      categories := categories[sids[t] := Store(Category, l)];
      todo := todo - {t};
    }
    CorrectedStorable(f, sids, Attributes);
    FinishedColumn(f, sids, Sector, sectors);
    FinishedColumn(f, sids, Exchange, exchanges);
    FinishedColumn(f, sids, Category, categories);
    StaticAssembled(f, sids, sectors, exchanges, categories);
    r := Success([sectors, exchanges, categories]);
  }
}
