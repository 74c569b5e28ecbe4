/**
  The order in which pandas' `groupby` visits tickers: sorted by Python's
  string comparison, each distinct ticker once.
 */
module TickerOrder {

  /** Python's `a < b` on `str`: code-point lexicographic, a proper prefix first. */
  predicate Less(a: string, b: string)
    decreases |a|
  {
    if |a| == 0 then |b| > 0
    else if |b| == 0 then false
    else if a[0] != b[0] then a[0] < b[0]
    else Less(a[1..], b[1..])
  }

  lemma {:induction false} LessIrreflexive(a: string)
    ensures !Less(a, a)
    decreases |a|
  {
    if |a| > 0 {
      LessIrreflexive(a[1..]);
    }
  }

  lemma {:induction false} LessTransitive(a: string, b: string, c: string)
    requires Less(a, b) && Less(b, c)
    ensures Less(a, c)
    decreases |a|
  {
    if |a| > 0 && a[0] == b[0] && b[0] == c[0] {
      LessTransitive(a[1..], b[1..], c[1..]);
    }
  }

  lemma {:induction false} LessTotal(a: string, b: string)
    requires a != b
    ensures Less(a, b) || Less(b, a)
    decreases |a|
  {
    if |a| > 0 && |b| > 0 && a[0] == b[0] {
      assert a == [a[0]] + a[1..] && b == [b[0]] + b[1..];
      LessTotal(a[1..], b[1..]);
    }
  }

  lemma {:induction false} LessAsymmetric(a: string, b: string)
    requires Less(a, b)
    ensures !Less(b, a)
  {
    if Less(b, a) {
      LessTransitive(a, b, a);
      LessIrreflexive(a);
    }
  }

  /** Strictly increasing, hence free of duplicates. */
  predicate SortedDistinct(s: seq<string>) {
    forall i, j :: 0 <= i < j < |s| ==> Less(s[i], s[j])
  }

  /** `t` placed into a sorted list of distinct tickers, unless already there. */
  function Insert(t: string, s: seq<string>): (r: seq<string>)
    requires SortedDistinct(s)
    ensures SortedDistinct(r)
    ensures forall u :: u in r <==> u == t || u in s
  {
    if |s| == 0 then [t]
    else if t == s[0] then s
    else if Less(t, s[0]) then
      assert forall j :: 0 < j < |s| ==> Less(t, s[j]) by {
        forall j | 0 < j < |s| ensures Less(t, s[j]) { LessTransitive(t, s[0], s[j]); }
      }
      [t] + s
    else
      LessTotal(t, s[0]);
      var rest := Insert(t, s[1..]);
      assert forall u :: u in s <==> u == s[0] || u in s[1..] by {
        assert s == [s[0]] + s[1..];
      }
      assert forall u :: u in rest ==> Less(s[0], u);
      [s[0]] + rest
  }

  /** Every ticker of `ts`, once each, in increasing order: the keys `groupby` visits. */
  function GroupOrder(ts: seq<string>): (r: seq<string>)
    ensures SortedDistinct(r)
    ensures forall u :: u in r <==> u in ts
  {
    if |ts| == 0 then [] else Insert(ts[|ts| - 1], GroupOrder(ts[..|ts| - 1]))
  }

  /** A sorted list of distinct tickers is determined by the tickers it holds. */
  lemma {:induction false} SortedDistinctUnique(a: seq<string>, b: seq<string>)
    requires SortedDistinct(a) && SortedDistinct(b)
    requires forall u :: u in a <==> u in b
    ensures a == b
    decreases |a|
  {
    if |a| > 0 {
      assert a[0] in a;
    }
    if |b| > 0 {
      assert b[0] in b;
    }
    if |a| > 0 && |b| > 0 {
      assert a[0] == b[0] by {
        if a[0] != b[0] {
          assert a[0] in a && b[0] in b;
          var i :| 0 <= i < |b| && b[i] == a[0];
          var j :| 0 <= j < |a| && a[j] == b[0];
          assert Less(a[0], a[j]) && Less(b[0], b[i]);
          LessAsymmetric(a[0], b[0]);
        }
      }
      forall u ensures u in a[1..] <==> u in b[1..] {
        if u in a[1..] {
          var i :| 1 <= i < |a| && a[i] == u;
          assert Less(a[0], a[i]);
          LessIrreflexive(a[0]);
          assert u in b && u != b[0];
          var k :| 0 <= k < |b| && b[k] == u;
          assert b[1..][k - 1] == u;
        }
        if u in b[1..] {
          var i :| 1 <= i < |b| && b[i] == u;
          assert Less(b[0], b[i]);
          LessIrreflexive(b[0]);
          assert u in a && u != a[0];
          var k :| 0 <= k < |a| && a[k] == u;
          assert a[1..][k - 1] == u;
        }
      }
      SortedDistinctUnique(a[1..], b[1..]);
      assert a == [a[0]] + a[1..] && b == [b[0]] + b[1..];
    }
  }
}
