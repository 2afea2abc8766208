/**
 * The pandas DataFrame operations the scraper applies: a frame is a set of
 * column names and a sequence of rows, each row a map from column to value.
 * A column absent from a row's map is a missing value (NaN).
 */
module Frames {
  import opened Wrappers

  type Row = map<string, string>

  /** The value of column `c` in row `r`, `None` standing for NaN. */
  function Cell(r: Row, c: string): Option<string> {
    if c in r then Some(r[c]) else None
  }

  /** The values of the `subset` columns; NaN equals NaN here, as in `drop_duplicates`. */
  function SubsetKey(r: Row, subset: seq<string>): (key: seq<Option<string>>)
    ensures |key| == |subset|
  {
    seq(|subset|, i requires 0 <= i < |subset| => Cell(r, subset[i]))
  }

  function KeysOf(rows: seq<Row>, subset: seq<string>): set<seq<Option<string>>> {
    set i | 0 <= i < |rows| :: SubsetKey(rows[i], subset)
  }

  /** Row `i` is the first row with its key. */
  predicate IsFirst(rows: seq<Row>, subset: seq<string>, i: int)
    requires 0 <= i < |rows|
  {
    forall m :: 0 <= m < i ==> SubsetKey(rows[m], subset) != SubsetKey(rows[i], subset)
  }

  /** No two rows share a key. */
  predicate KeysDistinct(rows: seq<Row>, subset: seq<string>) {
    forall i, j :: 0 <= i < j < |rows| ==> SubsetKey(rows[i], subset) != SubsetKey(rows[j], subset)
  }

  /** `r` is the first row of its key in `rows`. */
  predicate IsFirstRow(rows: seq<Row>, subset: seq<string>, r: Row) {
    exists i :: 0 <= i < |rows| && IsFirst(rows, subset, i) && rows[i] == r
  }

  /** `a` is `b` with some rows left out, the rest kept in order. */
  predicate IsSubsequence<T(==)>(a: seq<T>, b: seq<T>)
    decreases |b|
  {
    if a == [] then true
    else if b == [] then false
    else
      || (a[|a| - 1] == b[|b| - 1] && IsSubsequence(a[..|a| - 1], b[..|b| - 1]))
      || IsSubsequence(a, b[..|b| - 1])
  }

  /** `drop_duplicates(subset=..., keep='first')`: each row whose key an earlier row already had is dropped. */
  function KeepFirst(rows: seq<Row>, subset: seq<string>): (kept: seq<Row>)
    decreases |rows|
    ensures |kept| <= |rows|
    ensures forall j :: 0 <= j < |kept| ==> kept[j] in rows
  {
    if rows == [] then []
    else
      var prev := KeepFirst(rows[..|rows| - 1], subset);
      var last := rows[|rows| - 1];
      assert forall j :: 0 <= j < |prev| ==> prev[j] in rows by {
        forall j | 0 <= j < |prev| ensures prev[j] in rows {
          assert prev[j] in rows[..|rows| - 1];
        }
      }
      if SubsetKey(last, subset) in KeysOf(prev, subset) then prev else prev + [last]
  }

  lemma KeysOfSnoc(rows: seq<Row>, r: Row, subset: seq<string>)
    ensures KeysOf(rows + [r], subset) == KeysOf(rows, subset) + {SubsetKey(r, subset)}
  {
    var s := rows + [r];
    assert SubsetKey(s[|rows|], subset) in KeysOf(s, subset);
    forall k | k in KeysOf(rows, subset) ensures k in KeysOf(s, subset) {
      var i :| 0 <= i < |rows| && SubsetKey(rows[i], subset) == k;
      assert s[i] == rows[i];
    }
  }

  /** The rows kept have pairwise different keys. */
  lemma {:induction false} KeepFirstDistinct(rows: seq<Row>, subset: seq<string>)
    decreases |rows|
    ensures KeysDistinct(KeepFirst(rows, subset), subset)
  {
    if rows != [] {
      KeepFirstDistinct(rows[..|rows| - 1], subset);
      var prev := KeepFirst(rows[..|rows| - 1], subset);
      var last := rows[|rows| - 1];
      if SubsetKey(last, subset) !in KeysOf(prev, subset) {
        var kept := prev + [last];
        assert KeepFirst(rows, subset) == kept;
        forall i, j | 0 <= i < j < |kept|
          ensures SubsetKey(kept[i], subset) != SubsetKey(kept[j], subset)
        {
          assert kept[i] == prev[i];
          if j == |prev| {
            assert SubsetKey(prev[i], subset) in KeysOf(prev, subset);
          } else {
            assert kept[j] == prev[j];
          }
        }
      } else {
        assert KeepFirst(rows, subset) == prev;
      }
    }
  }

  /** No key is lost: the kept rows have exactly the keys of the input. */
  lemma {:induction false} KeepFirstKeys(rows: seq<Row>, subset: seq<string>)
    decreases |rows|
    ensures KeysOf(KeepFirst(rows, subset), subset) == KeysOf(rows, subset)
  {
    if rows != [] {
      var init := rows[..|rows| - 1];
      var last := rows[|rows| - 1];
      KeepFirstKeys(init, subset);
      assert rows == init + [last];
      KeysOfSnoc(init, last, subset);
      var prev := KeepFirst(init, subset);
      if SubsetKey(last, subset) !in KeysOf(prev, subset) {
        KeysOfSnoc(prev, last, subset);
      }
    }
  }

  /** The kept rows are the input rows in their input order, some left out. */
  lemma {:induction false} KeepFirstSubsequence(rows: seq<Row>, subset: seq<string>)
    decreases |rows|
    ensures IsSubsequence(KeepFirst(rows, subset), rows)
  {
    if rows != [] {
      KeepFirstSubsequence(rows[..|rows| - 1], subset);
      var prev := KeepFirst(rows[..|rows| - 1], subset);
      var last := rows[|rows| - 1];
      if SubsetKey(last, subset) !in KeysOf(prev, subset) {
        var kept := prev + [last];
        assert kept[..|kept| - 1] == prev;
      }
    }
  }

  /** Whether a row is the first with its key does not depend on the rows after it. */
  lemma IsFirstOfInit(rows: seq<Row>, subset: seq<string>)
    requires rows != []
    ensures forall i :: 0 <= i < |rows| - 1 ==> IsFirst(rows[..|rows| - 1], subset, i) == IsFirst(rows, subset, i)
  {
    var init := rows[..|rows| - 1];
    forall i | 0 <= i < |init| ensures IsFirst(init, subset, i) == IsFirst(rows, subset, i) {
      assert forall m :: 0 <= m < i ==> init[m] == rows[m];
    }
  }

  /** The last row is kept exactly when it is the first with its key. */
  lemma LastIsNew(rows: seq<Row>, subset: seq<string>)
    requires rows != []
    ensures SubsetKey(rows[|rows| - 1], subset) !in KeysOf(KeepFirst(rows[..|rows| - 1], subset), subset)
      <==> IsFirst(rows, subset, |rows| - 1)
  {
    var n := |rows| - 1;
    var init := rows[..n];
    var last := rows[n];
    KeepFirstKeys(init, subset);
    if !IsFirst(rows, subset, n) {
      var m :| 0 <= m < n && SubsetKey(rows[m], subset) == SubsetKey(last, subset);
      assert SubsetKey(init[m], subset) in KeysOf(init, subset);
    }
    if SubsetKey(last, subset) in KeysOf(init, subset) {
      var m :| 0 <= m < |init| && SubsetKey(init[m], subset) == SubsetKey(last, subset);
      assert rows[m] == init[m];
    }
  }

  /** A key is represented by its first row: every first row is kept. */
  lemma {:induction false} KeepFirstKeepsFirsts(rows: seq<Row>, subset: seq<string>)
    decreases |rows|
    ensures forall i :: 0 <= i < |rows| && IsFirst(rows, subset, i) ==> rows[i] in KeepFirst(rows, subset)
  {
    if rows != [] {
      var n := |rows| - 1;
      var init := rows[..n];
      KeepFirstKeepsFirsts(init, subset);
      IsFirstOfInit(rows, subset);
      LastIsNew(rows, subset);
      var prev := KeepFirst(init, subset);
      forall i | 0 <= i < |rows| && IsFirst(rows, subset, i) ensures rows[i] in KeepFirst(rows, subset) {
        if i < n {
          assert rows[i] == init[i];
          assert rows[i] in prev;
        }
      }
    }
  }

  /** Every kept row is the first row of its key. */
  lemma {:induction false} KeepFirstOnlyFirsts(rows: seq<Row>, subset: seq<string>)
    decreases |rows|
    ensures forall j :: 0 <= j < |KeepFirst(rows, subset)| ==> IsFirstRow(rows, subset, KeepFirst(rows, subset)[j])
  {
    if rows != [] {
      var n := |rows| - 1;
      var init := rows[..n];
      KeepFirstOnlyFirsts(init, subset);
      LastIsNew(rows, subset);
      var prev := KeepFirst(init, subset);
      var kept := KeepFirst(rows, subset);
      forall j | 0 <= j < |kept| ensures IsFirstRow(rows, subset, kept[j]) {
        if j < |prev| {
          assert kept[j] == prev[j];
          FirstRowOfInit(rows, subset, prev[j]);
        } else {
          assert kept[j] == rows[n];
        }
      }
    }
  }

  /** A first row of the rows but the last is a first row of all of them. */
  lemma FirstRowOfInit(rows: seq<Row>, subset: seq<string>, r: Row)
    requires rows != [] && IsFirstRow(rows[..|rows| - 1], subset, r)
    ensures IsFirstRow(rows, subset, r)
  {
    var init := rows[..|rows| - 1];
    var i :| 0 <= i < |init| && IsFirst(init, subset, i) && init[i] == r;
    IsFirstOfInit(rows, subset);
    assert IsFirst(rows, subset, i) && rows[i] == r;
  }

  /** Rows whose keys are already pairwise different are all kept. */
  lemma {:induction false} KeepFirstOfDistinct(rows: seq<Row>, subset: seq<string>)
    decreases |rows|
    requires KeysDistinct(rows, subset)
    ensures KeepFirst(rows, subset) == rows
  {
    if rows != [] {
      var init := rows[..|rows| - 1];
      KeepFirstOfDistinct(init, subset);
      assert SubsetKey(rows[|rows| - 1], subset) !in KeysOf(init, subset);
      assert init + [rows[|rows| - 1]] == rows;
    }
  }

  /** Dropping duplicates a second time changes nothing. */
  lemma KeepFirstIdempotent(rows: seq<Row>, subset: seq<string>)
    ensures KeepFirst(KeepFirst(rows, subset), subset) == KeepFirst(rows, subset)
  {
    KeepFirstDistinct(rows, subset);
    KeepFirstOfDistinct(KeepFirst(rows, subset), subset);
  }

  /** Every column used by some row. */
  function ColumnsOf(rows: seq<Row>): (cols: set<string>)
    ensures forall i :: 0 <= i < |rows| ==> rows[i].Keys <= cols
    ensures forall c :: c in cols ==> exists i :: 0 <= i < |rows| && c in rows[i]
  {
    if rows == [] then {}
    else
      var prev := ColumnsOf(rows[..|rows| - 1]);
      assert forall i :: 0 <= i < |rows| - 1 ==> rows[..|rows| - 1][i] == rows[i];
      prev + rows[|rows| - 1].Keys
  }

  /** Each row with column `target` set to `f` of its `source` value. */
  function Derived(rows: seq<Row>, target: string, source: string, f: string -> string): (r: seq<Row>)
    requires forall i :: 0 <= i < |rows| ==> source in rows[i]
    ensures |r| == |rows|
    ensures forall i :: 0 <= i < |rows| ==> r[i] == rows[i][target := f(rows[i][source])]
  {
    seq(|rows|, i requires 0 <= i < |rows| => rows[i][target := f(rows[i][source])])
  }

  /** A derived column outside the key leaves every row's key as it was, so distinct keys stay distinct. */
  lemma DerivedKeepsKeys(rows: seq<Row>, target: string, source: string, f: string -> string, subset: seq<string>)
    requires forall i :: 0 <= i < |rows| ==> source in rows[i]
    requires target !in subset
    ensures forall i :: 0 <= i < |rows| ==> SubsetKey(Derived(rows, target, source, f)[i], subset) == SubsetKey(rows[i], subset)
    ensures KeysOf(Derived(rows, target, source, f), subset) == KeysOf(rows, subset)
    ensures KeysDistinct(rows, subset) ==> KeysDistinct(Derived(rows, target, source, f), subset)
  {
    var d := Derived(rows, target, source, f);
    forall i | 0 <= i < |rows| ensures SubsetKey(d[i], subset) == SubsetKey(rows[i], subset) {
      forall k | 0 <= k < |subset| ensures Cell(d[i], subset[k]) == Cell(rows[i], subset[k]) {
        assert subset[k] != target;
      }
    }
  }

  /** A DataFrame that the scraper changes in place. */
  class Frame {
    var columns: set<string>
    var rows: seq<Row>

    ghost predicate Valid()
      reads this
    {
      forall i :: 0 <= i < |rows| ==> rows[i].Keys <= columns
    }

    /** `pd.DataFrame.from_records` over a list of dicts: the columns are every key used. */
    constructor FromRecords(records: seq<Row>)
      ensures Valid()
      ensures columns == ColumnsOf(records) && rows == records
    {
      columns := ColumnsOf(records);
      rows := records;
    }

    /** A frame with the given columns, as `pd.concat` builds one. */
    constructor Of(cols: set<string>, records: seq<Row>)
      requires forall i :: 0 <= i < |records| ==> records[i].Keys <= cols
      ensures Valid()
      ensures columns == cols && rows == records
    {
      columns := cols;
      rows := records;
    }

    /**
     * `drop_duplicates(subset=..., inplace=True)`. A frame without rows is
     * returned as it is before the subset is looked at; otherwise it raises
     * `KeyError`, here `ok == false` with the frame unchanged, when a subset
     * column is not a column.
     */
    method DropDuplicates(subset: seq<string>) returns (ok: bool)
      requires Valid()
      modifies this
      ensures Valid() && columns == old(columns)
      ensures ok <==> old(rows) == [] || forall c :: c in subset ==> c in columns
      ensures rows == if ok then KeepFirst(old(rows), subset) else old(rows)
    {
      ok := rows == [] || forall c :: c in subset ==> c in columns;
      if !ok {
        return;
      }
      var input := rows;
      var kept: seq<Row> := [];
      var seen: set<seq<Option<string>>> := {};
      var i := 0;
      while i < |input|
        invariant 0 <= i <= |input|
        invariant kept == KeepFirst(input[..i], subset)
        invariant seen == KeysOf(kept, subset)
        invariant columns == old(columns) && rows == input
      {
        var key := SubsetKey(input[i], subset);
        assert input[..i + 1][..i] == input[..i];
        if key !in seen {
          KeysOfSnoc(kept, input[i], subset);
          kept := kept + [input[i]];
          seen := seen + {key};
        }
        i := i + 1;
      }
      assert input[..i] == input;
      forall j | 0 <= j < |kept| ensures kept[j].Keys <= columns {
        var m :| 0 <= m < |input| && input[m] == kept[j];
      }
      rows := kept;
    }

    /**
     * `df[target] = df[source].apply(f)`. It raises, here `ok == false` with the
     * frame unchanged, when `source` is not a column (`KeyError`) or some row
     * has no `source` value (`f` applied to NaN).
     */
    method AssignColumn(target: string, source: string, f: string -> string) returns (ok: bool)
      requires Valid()
      modifies this
      ensures Valid()
      ensures ok <==> source in old(columns) && forall i :: 0 <= i < |old(rows)| ==> source in old(rows)[i]
      ensures ok ==> columns == old(columns) + {target} && rows == Derived(old(rows), target, source, f)
      ensures !ok ==> columns == old(columns) && rows == old(rows)
    {
      ok := source in columns && forall i :: 0 <= i < |rows| ==> source in rows[i];
      if ok {
        rows := Derived(rows, target, source, f);
        columns := columns + {target};
      }
    }
  }
}
