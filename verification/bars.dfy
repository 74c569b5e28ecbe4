/**
  Daily bars of one ticker and the frame operations the ingestor applies to
  them: sorting by date, the calendar sessions of a date range, the left join
  onto those sessions, and pandas' per-column forward fill. Dates are day
  numbers; a missing value (NaN) is `None`.
 */
module Bars {
  import opened Wrappers

  /** The price fields of one row. */
  datatype Quote = Quote(open: Option<real>, high: Option<real>, low: Option<real>, close: Option<real>, volume: Option<real>)

  /** The all-NaN row the left join gives a session with no observation. */
  const Blank: Quote := Quote(None, None, None, None, None)

  datatype Column = Open | High | Low | Close | Volume

  function Field(q: Quote, c: Column): Option<real> {
    match c
    case Open => q.open
    case High => q.high
    case Low => q.low
    case Close => q.close
    case Volume => q.volume
  }

  /** One row of a ticker's frame: its date index and its fields. */
  datatype Bar = Bar(date: int, quote: Quote)

  predicate Increasing(s: seq<int>) {
    forall i, j :: 0 <= i < j < |s| ==> s[i] < s[j]
  }

  /** Dates strictly increase: sorted and free of duplicates. */
  predicate Chronological(bars: seq<Bar>) {
    forall i, j :: 0 <= i < j < |bars| ==> bars[i].date < bars[j].date
  }

  predicate SortedByDate(bars: seq<Bar>) {
    forall i, j :: 0 <= i < j < |bars| ==> bars[i].date <= bars[j].date
  }

  predicate DistinctDates(bars: seq<Bar>) {
    forall i, j :: 0 <= i < j < |bars| ==> bars[i].date != bars[j].date
  }

  /** The date index of a frame. */
  function Dates(bars: seq<Bar>): (r: seq<int>)
    ensures |r| == |bars| && forall i :: 0 <= i < |bars| ==> r[i] == bars[i].date
  {
    if |bars| == 0 then [] else [bars[0].date] + Dates(bars[1..])
  }

  // ---------------------------------------------------------------- sorting

  /** `b` placed before the first row dated later than it. */
  function InsertByDate(b: Bar, s: seq<Bar>): (r: seq<Bar>)
    ensures multiset(r) == multiset(s) + multiset{b}
  {
    if |s| == 0 then [b]
    else if b.date < s[0].date then [b] + s
    else
      assert s == [s[0]] + s[1..];
      [s[0]] + InsertByDate(b, s[1..])
  }

  lemma InsertMembers(b: Bar, s: seq<Bar>)
    ensures forall x :: x in InsertByDate(b, s) <==> x == b || x in s
  {
    var r := InsertByDate(b, s);
    forall x ensures x in r <==> x == b || x in s {
      assert x in r <==> x in multiset(r);
      assert x in s <==> x in multiset(s);
    }
  }

  lemma {:induction false} InsertSorted(b: Bar, s: seq<Bar>)
    requires SortedByDate(s)
    ensures SortedByDate(InsertByDate(b, s))
    decreases |s|
  {
    if |s| > 0 && b.date >= s[0].date {
      InsertSorted(b, s[1..]);
      InsertMembers(b, s[1..]);
      var rest := InsertByDate(b, s[1..]);
      forall k | 0 <= k < |rest| ensures s[0].date <= rest[k].date {
        assert rest[k] in rest;
      }
    }
  }

  /** A chronological frame with one more row in front, dated before all of it. */
  lemma ChronologicalCons(h: Bar, rest: seq<Bar>)
    requires Chronological(rest) && forall x :: x in rest ==> h.date < x.date
    ensures Chronological([h] + rest)
  {
    var r := [h] + rest;
    forall i, j | 0 <= i < j < |r| ensures r[i].date < r[j].date {
      assert r[j] == rest[j - 1] && rest[j - 1] in rest;
      if i > 0 {
        assert r[i] == rest[i - 1];
      }
    }
  }

  /** Inserting a row with a fresh date keeps a chronological frame chronological. */
  lemma {:induction false} InsertChronological(b: Bar, s: seq<Bar>)
    requires Chronological(s) && forall x :: x in s ==> x.date != b.date
    ensures Chronological(InsertByDate(b, s))
    decreases |s|
  {
    if |s| > 0 {
      assert s[0] in s;
      var t := s[1..];
      if b.date < s[0].date {
        forall x | x in s ensures b.date < x.date {
          var k :| 0 <= k < |s| && s[k] == x;
        }
        ChronologicalCons(b, s);
      } else {
        assert forall k :: 0 <= k < |t| ==> t[k] == s[k + 1];
        assert forall x :: x in t ==> x in s;
        InsertChronological(b, t);
        InsertMembers(b, t);
        forall x | x in t ensures s[0].date < x.date {
          var k :| 0 <= k < |t| && t[k] == x;
          assert x == s[k + 1];
        }
        ChronologicalCons(s[0], InsertByDate(b, t));
      }
    }
  }

  /**
    `sort_index` on the date index, as an insertion sort. pandas sorts with an
    unstable quicksort, so the order of rows with equal dates is unspecified;
    this is one such order.
   */
  function SortByDate(s: seq<Bar>): (r: seq<Bar>)
    ensures multiset(r) == multiset(s)
  {
    if |s| == 0 then []
    else
      assert s == [s[0]] + s[1..];
      InsertByDate(s[0], SortByDate(s[1..]))
  }

  /** The sort's result is ordered by date. */
  lemma {:induction false} SortSorted(s: seq<Bar>)
    ensures SortedByDate(SortByDate(s))
    decreases |s|
  {
    if |s| > 0 {
      SortSorted(s[1..]);
      InsertSorted(s[0], SortByDate(s[1..]));
    }
  }

  /** On rows with distinct dates the sort yields a chronological frame. */
  lemma {:induction false} SortChronological(s: seq<Bar>)
    requires DistinctDates(s)
    ensures Chronological(SortByDate(s))
    decreases |s|
  {
    if |s| > 0 {
      var rest := s[1..];
      var first := s[0];
      assert forall i :: 0 <= i < |rest| ==> rest[i] == s[i + 1];
      assert DistinctDates(rest);
      SortChronological(rest);
      var sorted := SortByDate(rest);
      forall x | x in sorted ensures x.date != first.date {
        assert x in multiset(sorted);
        assert x in multiset(rest);
        var k :| 0 <= k < |rest| && rest[k] == x;
        assert s[k + 1] == x;
      }
      InsertChronological(first, sorted);
      assert SortByDate(s) == InsertByDate(first, sorted);
    }
  }

  /** Two chronological frames with the same rows start with the same row. */
  lemma ChronologicalHead(a: seq<Bar>, b: seq<Bar>)
    requires Chronological(a) && Chronological(b)
    requires multiset(a) == multiset(b) && |a| > 0
    ensures |b| > 0 && a[0] == b[0]
  {
    assert a[0] in multiset(b) && a[0] in b;
    assert b[0] in multiset(a);
    var i :| 0 <= i < |b| && b[i] == a[0];
    var j :| 0 <= j < |a| && a[j] == b[0];
  }

  /** Dropping the first row drops one copy of it from the rows. */
  lemma TailRows(a: seq<Bar>)
    requires |a| > 0
    ensures multiset(a[1..]) == multiset(a) - multiset{a[0]}
  {
    assert a == [a[0]] + a[1..];
  }

  /** Two chronological frames with the same rows are the same frame. */
  lemma {:induction false} ChronologicalUnique(a: seq<Bar>, b: seq<Bar>)
    requires Chronological(a) && Chronological(b)
    requires multiset(a) == multiset(b)
    ensures a == b
    decreases |a|
  {
    if |a| > 0 {
      ChronologicalHead(a, b);
      TailRows(a);
      TailRows(b);
      ChronologicalUnique(a[1..], b[1..]);
      assert a == [a[0]] + a[1..] && b == [b[0]] + b[1..];
    } else {
      assert |multiset(b)| == 0;
    }
  }

  // --------------------------------------------------------------- calendar

  /** The sessions `d` of the calendar with `lo <= d <= hi`, in calendar order. */
  function SessionsInRange(cal: seq<int>, lo: int, hi: int): (r: seq<int>)
    ensures forall d :: d in r <==> d in cal && lo <= d <= hi
    ensures Increasing(cal) ==> Increasing(r)
  {
    if |cal| == 0 then []
    else
      var rest := SessionsInRange(cal[1..], lo, hi);
      assert cal == [cal[0]] + cal[1..];
      assert Increasing(cal) ==> forall k :: 0 <= k < |rest| ==> cal[0] < rest[k] by {
        if Increasing(cal) {
          forall k | 0 <= k < |rest| ensures cal[0] < rest[k] {
            assert rest[k] in rest;
            var m :| 0 <= m < |cal[1..]| && cal[1..][m] == rest[k];
            assert cal[m + 1] == rest[k];
          }
        }
      }
      (if lo <= cal[0] <= hi then [cal[0]] else []) + rest
  }

  /** An increasing list inside another is no longer, and of equal length only when it is the same list. */
  lemma {:induction false} IncreasingWithin(a: seq<int>, b: seq<int>)
    requires Increasing(a) && Increasing(b)
    requires forall k :: 0 <= k < |a| ==> a[k] in b
    ensures |a| <= |b|
    ensures |a| == |b| ==> a == b
    decreases |b|, 1
  {
    if |a| > 0 {
      assert a[0] in b;
      if a[0] == b[0] {
        WithinSameHead(a, b);
      } else {
        WithinRest(a, b);
        IncreasingWithin(a, b[1..]);
      }
    }
  }

  /** The case of `IncreasingWithin` where both lists start with the same value. */
  lemma {:induction false} WithinSameHead(a: seq<int>, b: seq<int>)
    requires Increasing(a) && Increasing(b) && |a| > 0 && |b| > 0 && a[0] == b[0]
    requires forall k :: 0 <= k < |a| ==> a[k] in b
    ensures |a| <= |b|
    ensures |a| == |b| ==> a == b
    decreases |b|, 0
  {
    WithinTails(a, b);
    IncreasingWithin(a[1..], b[1..]);
    assert a == [a[0]] + a[1..] && b == [b[0]] + b[1..];
  }

  /** When both lists start alike, the rest of `a` lies in the rest of `b`. */
  lemma WithinTails(a: seq<int>, b: seq<int>)
    requires Increasing(a) && Increasing(b) && |a| > 0 && |b| > 0 && a[0] == b[0]
    requires forall k :: 0 <= k < |a| ==> a[k] in b
    ensures Increasing(a[1..]) && Increasing(b[1..])
    ensures forall k :: 0 <= k < |a[1..]| ==> a[1..][k] in b[1..]
  {
    forall k | 0 <= k < |a| - 1 ensures a[1..][k] in b[1..] {
      var n :| 0 <= n < |b| && b[n] == a[k + 1];
      assert a[0] < a[k + 1];
      assert n > 0;
      assert b[1..][n - 1] == a[k + 1];
    }
  }

  /** When `b` starts before `a`, all of `a` lies in the rest of `b`. */
  lemma WithinRest(a: seq<int>, b: seq<int>)
    requires Increasing(b) && |a| > 0 && |b| > 0 && a[0] != b[0]
    requires forall k :: 0 <= k < |a| ==> a[k] in b
    requires forall k :: 0 <= k < |a| ==> a[0] <= a[k]
    ensures Increasing(b[1..])
    ensures forall k :: 0 <= k < |a| ==> a[k] in b[1..]
  {
    assert a[0] in b;
    var m :| 0 <= m < |b| && b[m] == a[0];
    assert m > 0;
    forall k | 0 <= k < |a| ensures a[k] in b[1..] {
      var n :| 0 <= n < |b| && b[n] == a[k];
      assert b[0] < b[m] <= a[k];
      assert n > 0;
      assert b[1..][n - 1] == a[k];
    }
  }

  /** The earliest date of a non-empty frame. */
  function FirstDate(bars: seq<Bar>): (d: int)
    requires |bars| > 0
    ensures d in Dates(bars)
    ensures forall i :: 0 <= i < |bars| ==> d <= bars[i].date
  {
    if |bars| == 1 then bars[0].date
    else
      var d := FirstDate(bars[1..]);
      assert forall i :: 1 <= i < |bars| ==> bars[1..][i - 1] == bars[i];
      assert d in Dates(bars[1..]);
      var k :| 0 <= k < |bars| - 1 && Dates(bars[1..])[k] == d;
      assert Dates(bars)[k + 1] == d;
      if bars[0].date < d then bars[0].date else d
  }

  /** The latest date of a non-empty frame. */
  function LastDate(bars: seq<Bar>): (d: int)
    requires |bars| > 0
    ensures d in Dates(bars)
    ensures forall i :: 0 <= i < |bars| ==> bars[i].date <= d
  {
    if |bars| == 1 then bars[0].date
    else
      var d := LastDate(bars[1..]);
      assert forall i :: 1 <= i < |bars| ==> bars[1..][i - 1] == bars[i];
      assert d in Dates(bars[1..]);
      var k :| 0 <= k < |bars| - 1 && Dates(bars[1..])[k] == d;
      assert Dates(bars)[k + 1] == d;
      if bars[0].date > d then bars[0].date else d
  }

  lemma SortMembers(s: seq<Bar>)
    ensures |SortByDate(s)| == |s|
    ensures forall x :: x in SortByDate(s) <==> x in s
  {
    var r := SortByDate(s);
    assert |multiset(r)| == |multiset(s)|;
    forall x ensures x in r <==> x in s {
      assert x in r <==> x in multiset(r);
      assert x in s <==> x in multiset(s);
    }
  }

  /** The sort puts the earliest date first. */
  lemma SortFirst(s: seq<Bar>)
    requires |s| > 0
    ensures |SortByDate(s)| == |s| && SortByDate(s)[0].date == FirstDate(s)
  {
    SortMembers(s);
    SortSorted(s);
    var d := FirstDate(s);
    var lo :| 0 <= lo < |s| && Dates(s)[lo] == d;
    SortedStart(s, SortByDate(s), d, lo);
  }

  /** The sort puts the latest date last. */
  lemma SortLast(s: seq<Bar>)
    requires |s| > 0
    ensures |SortByDate(s)| == |s| && SortByDate(s)[|s| - 1].date == LastDate(s)
  {
    SortMembers(s);
    SortSorted(s);
    var d := LastDate(s);
    var hi :| 0 <= hi < |s| && Dates(s)[hi] == d;
    SortedEnd(s, SortByDate(s), d, hi);
  }

  /** A date-ordered arrangement of the same rows starts on their least date `d`, held by `s[lo]`. */
  lemma SortedStart(s: seq<Bar>, r: seq<Bar>, d: int, lo: nat)
    requires lo < |s| && |r| == |s| && SortedByDate(r)
    requires forall x :: x in r <==> x in s
    requires s[lo].date == d && forall i :: 0 <= i < |s| ==> d <= s[i].date
    ensures r[0].date == d
  {
    assert r[0] in s;
    assert s[lo] in r;
    var j :| 0 <= j < |r| && r[j] == s[lo];
    assert r[0].date <= r[j].date;
  }

  /** A date-ordered arrangement of the same rows ends on their greatest date `d`, held by `s[hi]`. */
  lemma SortedEnd(s: seq<Bar>, r: seq<Bar>, d: int, hi: nat)
    requires hi < |s| && |r| == |s| && SortedByDate(r)
    requires forall x :: x in r <==> x in s
    requires s[hi].date == d && forall i :: 0 <= i < |s| ==> s[i].date <= d
    ensures r[|r| - 1].date == d
  {
    assert r[|r| - 1] in s;
    assert s[hi] in r;
    var j :| 0 <= j < |r| && r[j] == s[hi];
    assert r[j].date <= r[|r| - 1].date;
  }

  // ------------------------------------------------------- join and fill

  /** The fields the left join attaches to session `d`: the row dated `d`, or NaN throughout. */
  function QuoteOn(bars: seq<Bar>, d: int): (q: Quote)
    ensures (forall i :: 0 <= i < |bars| ==> bars[i].date != d) ==> q == Blank
    ensures DistinctDates(bars) ==> forall i :: 0 <= i < |bars| && bars[i].date == d ==> q == bars[i].quote
  {
    if |bars| == 0 then Blank
    else if bars[0].date == d then bars[0].quote
    else
      var q := QuoteOn(bars[1..], d);
      assert forall i :: 1 <= i < |bars| ==> bars[1..][i - 1] == bars[i];
      q
  }

  /** `DataFrame(index=sessions).join(bars)`: one row per session, in session order. */
  function Join(sessions: seq<int>, bars: seq<Bar>): (r: seq<Bar>)
    ensures |r| == |sessions|
    ensures forall i :: 0 <= i < |r| ==> r[i].date == sessions[i] && r[i].quote == QuoteOn(bars, sessions[i])
  {
    if |sessions| == 0 then [] else [Bar(sessions[0], QuoteOn(bars, sessions[0]))] + Join(sessions[1..], bars)
  }

  /** One column of the forward fill: the current value unless it is NaN. */
  function Pick(cur: Option<real>, prev: Option<real>): Option<real> {
    if cur.Some? then cur else prev
  }

  /** The filled row after `prev`: every column independently keeps or inherits its value. */
  function Carry(cur: Quote, prev: Quote): (q: Quote)
    ensures forall c :: Field(q, c) == Pick(Field(cur, c), Field(prev, c))
  {
    Quote(Pick(cur.open, prev.open), Pick(cur.high, prev.high), Pick(cur.low, prev.low),
          Pick(cur.close, prev.close), Pick(cur.volume, prev.volume))
  }

  /** `fillna(method='ffill')`, where `last` is the filled row before the first. */
  function FFill(bars: seq<Bar>, last: Quote): (r: seq<Bar>)
    ensures |r| == |bars|
    ensures forall i :: 0 <= i < |bars| ==> r[i].date == bars[i].date
  {
    if |bars| == 0 then []
    else
      var q := Carry(bars[0].quote, last);
      [Bar(bars[0].date, q)] + FFill(bars[1..], q)
  }

  /** The reindex branch: the join onto `sessions`, then the forward fill from nothing. */
  function Reindex(sessions: seq<int>, bars: seq<Bar>): (r: seq<Bar>)
    ensures Dates(r) == sessions
  {
    FFill(Join(sessions, bars), Blank)
  }

  // ------------------------------------------ the fill's reference definition

  /** One column of a frame. */
  function Series(bars: seq<Bar>, c: Column): (s: seq<Option<real>>)
    ensures |s| == |bars| && forall i :: 0 <= i < |bars| ==> s[i] == Field(bars[i].quote, c)
  {
    if |bars| == 0 then [] else [Field(bars[0].quote, c)] + Series(bars[1..], c)
  }

  /** The last non-NaN value of `s`, or `d` when every value is NaN. */
  function Latest(s: seq<Option<real>>, d: Option<real>): Option<real> {
    if |s| == 0 then d
    else if s[|s| - 1].Some? then s[|s| - 1]
    else Latest(s[..|s| - 1], d)
  }

  /** Scanning one value first is scanning the rest from its fill. */
  lemma {:induction false} LatestCons(x: Option<real>, s: seq<Option<real>>, d: Option<real>)
    ensures Latest([x] + s, d) == Latest(s, Pick(x, d))
    decreases |s|
  {
    if |s| == 0 {
      assert ([x] + s)[..0] == [];
    } else {
      assert ([x] + s)[..|s|] == [x] + s[..|s| - 1];
      LatestCons(x, s[..|s| - 1], d);
    }
  }

  /**
    The forward fill's reference definition: cell `(i, c)` of the filled
    frame is the last non-NaN value of column `c` among rows `0..i`, or the
    value carried in.
   */
  lemma {:induction false} FFillIsLatest(bars: seq<Bar>, last: Quote, i: nat, c: Column)
    requires i < |bars|
    ensures Field(FFill(bars, last)[i].quote, c) == Latest(Series(bars[..i + 1], c), Field(last, c))
    decreases |bars|
  {
    if i == 0 {
      FFillFirst(bars, last, c);
    } else {
      var x := Field(bars[0].quote, c);
      var q := Carry(bars[0].quote, last);
      FFillAt(bars, last, i);
      FFillIsLatest(bars[1..], q, i - 1, c);
      SeriesCons(bars, i, c);
      LatestCons(x, Series(bars[1..][..i], c), Field(last, c));
    }
  }

  /** The first filled cell: the first row's value, or the value carried in. */
  lemma FFillFirst(bars: seq<Bar>, last: Quote, c: Column)
    requires 0 < |bars|
    ensures Field(FFill(bars, last)[0].quote, c) == Latest(Series(bars[..1], c), Field(last, c))
  {
    var x := Field(bars[0].quote, c);
    FFillAt(bars, last, 0);
    assert Series(bars[..1], c) == [x];
    assert [x][..0] == [];
  }

  /** A column's first `i + 1` values are the first row's value, then the rest's first `i`. */
  lemma SeriesCons(bars: seq<Bar>, i: nat, c: Column)
    requires 0 < i < |bars|
    ensures Series(bars[..i + 1], c) == [Field(bars[0].quote, c)] + Series(bars[1..][..i], c)
  {
    var l, r := Series(bars[..i + 1], c), [Field(bars[0].quote, c)] + Series(bars[1..][..i], c);
    assert |l| == |r|;
    forall k | 0 <= k < |l| ensures l[k] == r[k] {
      if k > 0 {
        assert bars[1..][..i][k - 1] == bars[k];
      }
    }
  }

  /** Row `i` of the fill: the first row carried from `last`, any later one filled from the rest. */
  lemma FFillAt(bars: seq<Bar>, last: Quote, i: nat)
    requires i < |bars|
    ensures i == 0 ==> FFill(bars, last)[0] == Bar(bars[0].date, Carry(bars[0].quote, last))
    ensures i > 0 ==> FFill(bars, last)[i] == FFill(bars[1..], Carry(bars[0].quote, last))[i - 1]
  {
  }

  /** A present value survives the fill; a NaN takes the filled value of the row before. */
  lemma FFillCell(bars: seq<Bar>, last: Quote, i: nat, c: Column)
    requires i < |bars|
    ensures Field(bars[i].quote, c).Some? ==> Field(FFill(bars, last)[i].quote, c) == Field(bars[i].quote, c)
    ensures Field(bars[i].quote, c).None? && i > 0 ==>
      Field(FFill(bars, last)[i].quote, c) == Field(FFill(bars, last)[i - 1].quote, c)
    ensures Field(bars[i].quote, c).None? && i == 0 ==> Field(FFill(bars, last)[0].quote, c) == Field(last, c)
  {
    FFillIsLatest(bars, last, i, c);
    var s := Series(bars[..i + 1], c);
    assert s[..i] == Series(bars[..i], c);
    if i > 0 {
      FFillIsLatest(bars, last, i - 1, c);
      assert bars[..i] == bars[..i - 1 + 1];
    }
  }
}
