/**
 * Grouping a table by its monthly key and aggregating each group's Open
 * column with `first` and `last`, as `groupby("YearMonth").agg(...)` does:
 * the groups come out in ascending key order, and within a group `first`
 * and `last` follow row order, whatever order the rows are in.
 */
module Grouping {

  import opened Calendar

  /** One row of the table once it carries its YearMonth column: the key and the Open value. */
  datatype Tagged<V> = Tagged(key: YearMonth, open: V)

  /** One row of the aggregated table, before its key is turned into a timestamp. */
  datatype Group<V> = Group(key: YearMonth, first: V, last: V)

  /** The distinct keys present in a table. */
  function KeySet<V>(s: seq<Tagged<V>>): set<YearMonth>
  {
    if s == [] then {} else {s[0].key} + KeySet(s[1..])
  }

  /** The Open values of the rows whose key is k, in row order: the group formed for k. */
  function Values<V>(s: seq<Tagged<V>>, k: YearMonth): seq<V>
  {
    if s == [] then []
    else (if s[0].key == k then [s[0].open] else []) + Values(s[1..], k)
  }

  /** The keys of an aggregated table. */
  function KeysOf<V>(r: seq<Group<V>>): set<YearMonth>
  {
    set j | 0 <= j < |r| :: r[j].key
  }

  predicate StrictlyAscending<V>(r: seq<Group<V>>)
  {
    forall i, j :: 0 <= i < j < |r| ==> MonthBefore(r[i].key, r[j].key)
  }

  /**
   * What the aggregation means: one row per distinct key, keys ascending,
   * each row holding the first and the last Open of its group.
   */
  ghost predicate IsMonthlyGrouping<V>(s: seq<Tagged<V>>, r: seq<Group<V>>)
  {
    && StrictlyAscending(r)
    && KeysOf(r) == KeySet(s)
    && forall j :: 0 <= j < |r| ==>
         Values(s, r[j].key) != [] &&
         r[j].first == Values(s, r[j].key)[0] &&
         r[j].last == Values(s, r[j].key)[|Values(s, r[j].key)| - 1]
  }

  lemma {:induction false} KeySetContains<V>(s: seq<Tagged<V>>, i: nat)
    requires i < |s|
    ensures s[i].key in KeySet(s)
  {
    if i > 0 {
      KeySetContains(s[1..], i - 1);
    }
  }

  /** A key is present exactly when its group is not empty. */
  lemma {:induction false} ValuesNonEmpty<V>(s: seq<Tagged<V>>, k: YearMonth)
    ensures Values(s, k) != [] <==> k in KeySet(s)
  {
    if s != [] {
      ValuesNonEmpty(s[1..], k);
    }
  }

  /** The smallest key present. */
  function MinKey<V>(s: seq<Tagged<V>>): (k: YearMonth)
    requires s != []
    ensures k in KeySet(s)
    ensures forall k' :: k' in KeySet(s) ==> !MonthBefore(k', k)
  {
    if |s| == 1 then
      assert s[1..] == [];
      s[0].key
    else
      var m := MinKey(s[1..]);
      if MonthBefore(s[0].key, m) then s[0].key else m
  }

  /** The position of the first row with key k. */
  function FirstIndex<V>(s: seq<Tagged<V>>, k: YearMonth): (i: nat)
    requires k in KeySet(s)
    ensures i < |s| && s[i].key == k
    ensures forall j :: 0 <= j < i ==> s[j].key != k
  {
    if s[0].key == k then 0 else 1 + FirstIndex(s[1..], k)
  }

  /** The position of the last row with key k. */
  function LastIndex<V>(s: seq<Tagged<V>>, k: YearMonth): (i: nat)
    requires k in KeySet(s)
    ensures i < |s| && s[i].key == k
    ensures forall j :: i < j < |s| ==> s[j].key != k
  {
    if k in KeySet(s[1..]) then
      1 + LastIndex(s[1..], k)
    else
      assert forall j :: 0 < j < |s| ==> s[j].key != k by {
        forall j | 0 < j < |s| ensures s[j].key != k {
          KeySetContains(s[1..], j - 1);
        }
      }
      0
  }

  /** The group's first value is the Open of the first row of that key. */
  lemma {:induction false} FirstIndexValue<V>(s: seq<Tagged<V>>, k: YearMonth)
    requires k in KeySet(s)
    ensures Values(s, k) != [] && Values(s, k)[0] == s[FirstIndex(s, k)].open
  {
    if s[0].key != k {
      FirstIndexValue(s[1..], k);
    }
  }

  /** The group's last value is the Open of the last row of that key. */
  lemma {:induction false} LastIndexValue<V>(s: seq<Tagged<V>>, k: YearMonth)
    requires k in KeySet(s)
    ensures Values(s, k) != [] && Values(s, k)[|Values(s, k)| - 1] == s[LastIndex(s, k)].open
  {
    ValuesNonEmpty(s, k);
    if k in KeySet(s[1..]) {
      LastIndexValue(s[1..], k);
    } else {
      ValuesNonEmpty(s[1..], k);
    }
  }

  /** The table without the rows of key k; the other groups are untouched. */
  function WithoutKey<V>(s: seq<Tagged<V>>, k: YearMonth): (r: seq<Tagged<V>>)
    ensures |r| <= |s|
    ensures k in KeySet(s) ==> |r| < |s|
    ensures KeySet(r) == KeySet(s) - {k}
    ensures forall k' :: k' != k ==> Values(r, k') == Values(s, k')
  {
    if s == [] then []
    else
      var rest := WithoutKey(s[1..], k);
      if s[0].key == k then
        rest
      else
        var r := [s[0]] + rest;
        assert r[1..] == rest;
        r
  }

  /**
   * `groupby(...).agg({"Open": ["first", "last"]})`: take the smallest key,
   * emit its first and last Open, and go on with the rows of the other keys.
   */
  function GroupFirstLast<V>(s: seq<Tagged<V>>): (r: seq<Group<V>>)
    ensures forall j :: 0 <= j < |r| ==> r[j].key in KeySet(s)
    ensures StrictlyAscending(r)
    ensures |r| == |KeySet(s)|
    decreases |s|
  {
    if s == [] then []
    else
      var k := MinKey(s);
      var g := Group(k, s[FirstIndex(s, k)].open, s[LastIndex(s, k)].open);
      var rest := GroupFirstLast(WithoutKey(s, k));
      var r := [g] + rest;
      assert forall j :: 0 < j < |r| ==> r[j] == rest[j - 1];
      r
  }

  /** Every key present in the table has its row in the aggregate. */
  lemma {:induction false} GroupCoversKey<V>(s: seq<Tagged<V>>, k: YearMonth) returns (j: nat)
    requires k in KeySet(s)
    ensures j < |GroupFirstLast(s)| && GroupFirstLast(s)[j].key == k
    decreases |s|
  {
    var k0 := MinKey(s);
    if k == k0 {
      j := 0;
    } else {
      var jr := GroupCoversKey(WithoutKey(s, k0), k);
      j := jr + 1;
    }
  }

  /** Each aggregated row holds the first and the last value of its group. */
  lemma {:induction false} GroupValues<V>(s: seq<Tagged<V>>, j: nat)
    requires j < |GroupFirstLast(s)|
    ensures var g := GroupFirstLast(s)[j];
      Values(s, g.key) != [] &&
      g.first == Values(s, g.key)[0] &&
      g.last == Values(s, g.key)[|Values(s, g.key)| - 1]
    decreases |s|
  {
    var k0 := MinKey(s);
    if j == 0 {
      FirstIndexValue(s, k0);
      LastIndexValue(s, k0);
    } else {
      var rest := WithoutKey(s, k0);
      var g := GroupFirstLast(rest)[j - 1];
      assert GroupFirstLast(s)[j] == g;
      assert g.key in KeySet(rest);
      assert Values(rest, g.key) == Values(s, g.key);
      GroupValues(rest, j - 1);
    }
  }

  /**
   * The rows behind one aggregated row: the first row of its key supplies
   * `first`, the last row of its key supplies `last`.
   */
  lemma GroupBoundary<V>(s: seq<Tagged<V>>, j: nat) returns (iFirst: nat, iLast: nat)
    requires j < |GroupFirstLast(s)|
    ensures iFirst <= iLast < |s|
    ensures s[iFirst].key == GroupFirstLast(s)[j].key && s[iLast].key == GroupFirstLast(s)[j].key
    ensures GroupFirstLast(s)[j].first == s[iFirst].open && GroupFirstLast(s)[j].last == s[iLast].open
    ensures forall h :: 0 <= h < iFirst ==> s[h].key != GroupFirstLast(s)[j].key
    ensures forall h :: iLast < h < |s| ==> s[h].key != GroupFirstLast(s)[j].key
  {
    var g := GroupFirstLast(s)[j];
    GroupValues(s, j);
    FirstIndexValue(s, g.key);
    LastIndexValue(s, g.key);
    iFirst, iLast := FirstIndex(s, g.key), LastIndex(s, g.key);
  }

  /** The aggregation meets its meaning. */
  lemma GroupFirstLastIsGrouping<V>(s: seq<Tagged<V>>)
    ensures IsMonthlyGrouping(s, GroupFirstLast(s))
  {
    GroupKeys(s);
    forall j | 0 <= j < |GroupFirstLast(s)| {
      GroupValues(s, j);
    }
  }

  /** The aggregate has exactly the keys of the table. */
  lemma GroupKeys<V>(s: seq<Tagged<V>>)
    ensures KeysOf(GroupFirstLast(s)) == KeySet(s)
  {
    var r := GroupFirstLast(s);
    forall k | k in KeySet(s) ensures k in KeysOf(r) {
      var j := GroupCoversKey(s, k);
    }
  }

  lemma KeysOfNonEmpty<V>(r: seq<Group<V>>)
    ensures r != [] ==> r[0].key in KeysOf(r)
  {
  }

  /** Two aggregated tables with the same keys in ascending order have them in the same places. */
  lemma {:induction false} AscendingKeysUnique<V>(a: seq<Group<V>>, b: seq<Group<V>>)
    requires StrictlyAscending(a) && StrictlyAscending(b)
    requires KeysOf(a) == KeysOf(b)
    ensures |a| == |b|
    ensures forall i :: 0 <= i < |a| ==> a[i].key == b[i].key
  {
    if a == [] {
      KeysOfNonEmpty(b);
    } else {
      assert a[0].key in KeysOf(b);
      assert b != [] by {
        assert a[0].key in KeysOf(a);
      }
      assert b[0].key in KeysOf(a);
      var ia :| 0 <= ia < |a| && a[ia].key == b[0].key;
      var ib :| 0 <= ib < |b| && b[ib].key == a[0].key;
      assert ia == 0 && ib == 0;
      assert KeysOf(a[1..]) == KeysOf(b[1..]) by {
        forall k | k in KeysOf(a[1..]) ensures k in KeysOf(b[1..]) {
          var i :| 0 <= i < |a[1..]| && a[1..][i].key == k;
          assert MonthBefore(a[0].key, k);
          assert k in KeysOf(b);
          var i' :| 0 <= i' < |b| && b[i'].key == k;
          assert i' != 0;
          assert b[1..][i' - 1].key == k;
        }
        forall k | k in KeysOf(b[1..]) ensures k in KeysOf(a[1..]) {
          var i :| 0 <= i < |b[1..]| && b[1..][i].key == k;
          assert MonthBefore(b[0].key, k);
          assert k in KeysOf(a);
          var i' :| 0 <= i' < |a| && a[i'].key == k;
          assert i' != 0;
          assert a[1..][i' - 1].key == k;
        }
      }
      AscendingKeysUnique(a[1..], b[1..]);
    }
  }

  /** The meaning determines the aggregate: there is only one grouping of a table. */
  lemma GroupingUnique<V>(s: seq<Tagged<V>>, r1: seq<Group<V>>, r2: seq<Group<V>>)
    requires IsMonthlyGrouping(s, r1) && IsMonthlyGrouping(s, r2)
    ensures r1 == r2
  {
    AscendingKeysUnique(r1, r2);
    assert forall i :: 0 <= i < |r1| ==> r1[i] == r2[i];
  }

  /** So GroupFirstLast is the one table that IsMonthlyGrouping describes. */
  lemma GroupFirstLastCharacterized<V>(s: seq<Tagged<V>>, r: seq<Group<V>>)
    ensures IsMonthlyGrouping(s, r) <==> r == GroupFirstLast(s)
  {
    GroupFirstLastIsGrouping(s);
    if IsMonthlyGrouping(s, r) {
      GroupingUnique(s, r, GroupFirstLast(s));
    }
  }
}
