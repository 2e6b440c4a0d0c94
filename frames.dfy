/** The part of a pandas DataFrame that `get_table` uses: named columns in order and one row
    per listed job, each row mapping every column name to its cell. */
module Frames {
  import opened Results
  import Split

  type Row = map<string, string>

  datatype Table = Table(columns: seq<string>, rows: seq<Row>)

  predicate Distinct(s: seq<string>) {
    forall i, j :: 0 <= i < j < |s| ==> s[i] != s[j]
  }

  /** Rectangular: the column names are distinct and every row has exactly those keys. */
  predicate WellFormed(t: Table) {
    && Distinct(t.columns)
    && forall i :: 0 <= i < |t.rows| ==> t.rows[i].Keys == set c | c in t.columns
  }

  /** The elements of `s` that are not in `excluded`, in their order. */
  function Except(s: seq<string>, excluded: seq<string>): (r: seq<string>)
    ensures forall x :: x in r <==> x in s && x !in excluded
    ensures Distinct(s) ==> Distinct(r)
  {
    if s == [] then []
    else
      var rest := Except(s[1..], excluded);
      if s[0] in excluded then rest else [s[0]] + rest
  }

  /** A single element survives exactly when it is not excluded. */
  lemma ExceptSingle(x: string, excluded: seq<string>)
    ensures Except([x], excluded) == if x in excluded then [] else [x]
  {
    assert [x][1..] == [];
  }

  /** Filtering a concatenation filters each part and keeps them in order; with `ExceptSingle`
      this fixes the result completely, so the survivors keep their relative order. */
  lemma {:induction false} ExceptAppend(s1: seq<string>, s2: seq<string>, excluded: seq<string>)
    ensures Except(s1 + s2, excluded) == Except(s1, excluded) + Except(s2, excluded)
    decreases |s1|
  {
    if s1 == [] {
      assert s1 + s2 == s2;
    } else {
      var x, rest := s1[0], s1[1..];
      assert s1 == [x] + rest;
      assert s1 + s2 == [x] + (rest + s2);
      ExceptCons(x, rest, excluded);
      ExceptCons(x, rest + s2, excluded);
      ExceptAppend(rest, s2, excluded);
      var head := if x in excluded then [] else [x];
      var a, b := Except(rest, excluded), Except(s2, excluded);
      Split.ConcatAssoc(head, a, b);
    }
  }

  lemma ExceptCons(x: string, s: seq<string>, excluded: seq<string>)
    ensures Except([x] + s, excluded) == (if x in excluded then [] else [x]) + Except(s, excluded)
  {
    assert ([x] + s)[0] == x && ([x] + s)[1..] == s;
  }

  /** Dropping the columns `names` (dgx/rlist.py:78): all labels must be columns, else KeyError
      naming the absent ones; otherwise those columns go and everything else keeps its place and
      value. */
  function DropColumns(t: Table, names: seq<string>): (r: Result<Table>)
    requires WellFormed(t)
    ensures r.Err? <==> exists n :: n in names && n !in t.columns
    ensures r.Err? ==> r.error == MissingColumns(Except(names, t.columns))
    ensures r.Ok? ==> WellFormed(r.value) && |r.value.rows| == |t.rows|
    ensures r.Ok? ==> r.value.columns == Except(t.columns, names)
    ensures r.Ok? ==> forall c :: c in r.value.columns <==> c in t.columns && c !in names
    ensures r.Ok? ==> forall i, c :: 0 <= i < |t.rows| && c in r.value.columns ==> r.value.rows[i][c] == t.rows[i][c]
  {
    var missing := Except(names, t.columns);
    if missing != [] then
      assert missing[0] in missing;
      Err(MissingColumns(missing))
    else
      var gone := set n | n in names;
      Ok(Table(Except(t.columns, names), seq(|t.rows|, i requires 0 <= i < |t.rows| => t.rows[i] - gone)))
  }

  /** The `NAME` of every row whose `STATUS` is `"Running"`, in row order (by
      `NamesOfRunningAppend`). */
  function NamesOfRunning(rows: seq<Row>): (names: seq<string>)
    requires forall i :: 0 <= i < |rows| ==> "NAME" in rows[i] && "STATUS" in rows[i]
    ensures |names| <= |rows|
    ensures forall j :: j in names <==> exists i :: 0 <= i < |rows| && rows[i]["STATUS"] == "Running" && rows[i]["NAME"] == j
  {
    if rows == [] then []
    else
      var rest := NamesOfRunning(rows[1..]);
      assert forall i :: 1 <= i < |rows| ==> rows[1..][i - 1] == rows[i];
      if rows[0]["STATUS"] == "Running" then [rows[0]["NAME"]] + rest else rest
  }

  /** One row contributes its `NAME` exactly when it is running. */
  lemma NamesOfRunningSingle(x: Row)
    requires "NAME" in x && "STATUS" in x
    ensures NamesOfRunning([x]) == if x["STATUS"] == "Running" then [x["NAME"]] else []
  {
    assert [x][1..] == [];
  }

  /** The names of a concatenation are the names of each part, in turn; with
      `NamesOfRunningSingle` this fixes the result to row order. */
  lemma {:induction false} NamesOfRunningAppend(rows1: seq<Row>, rows2: seq<Row>)
    requires forall i :: 0 <= i < |rows1| ==> "NAME" in rows1[i] && "STATUS" in rows1[i]
    requires forall i :: 0 <= i < |rows2| ==> "NAME" in rows2[i] && "STATUS" in rows2[i]
    ensures forall i :: 0 <= i < |rows1 + rows2| ==> "NAME" in (rows1 + rows2)[i] && "STATUS" in (rows1 + rows2)[i]
    ensures NamesOfRunning(rows1 + rows2) == NamesOfRunning(rows1) + NamesOfRunning(rows2)
    decreases |rows1|
  {
    var all := rows1 + rows2;
    assert forall i :: 0 <= i < |all| ==> all[i] == if i < |rows1| then rows1[i] else rows2[i - |rows1|];
    if rows1 == [] {
      assert all == rows2;
    } else {
      var rest := rows1[1..];
      assert all[1..] == rest + rows2;
      assert all[0] == rows1[0];
      NamesOfRunningAppend(rest, rows2);
      var head := if rows1[0]["STATUS"] == "Running" then [rows1[0]["NAME"]] else [];
      Split.ConcatAssoc(head, NamesOfRunning(rest), NamesOfRunning(rows2));
    }
  }

  /** The names of the running rows (dgx/rlist.py:81-82): an absent `STATUS` or `NAME` column is
      an error. */
  function RunningNames(t: Table): (r: Result<seq<string>>)
    requires WellFormed(t)
    ensures r.Err? <==> "STATUS" !in t.columns || "NAME" !in t.columns
    ensures r.Ok? ==> |r.value| <= |t.rows|
    ensures r.Ok? ==> forall j :: j in r.value <==>
      exists i :: 0 <= i < |t.rows| && t.rows[i]["STATUS"] == "Running" && t.rows[i]["NAME"] == j
  {
    if "STATUS" !in t.columns then Err(MissingColumn("STATUS"))
    else if "NAME" !in t.columns then Err(MissingColumn("NAME"))
    else Ok(NamesOfRunning(t.rows))
  }

  /** The names of `cols` that are neither in `existing` nor earlier in `cols`, in order (by
      `NewNamesAppend`). */
  function NewNames(existing: seq<string>, cols: seq<string>): (r: seq<string>)
    ensures forall c :: c in r <==> c in cols && c !in existing
    ensures Distinct(existing) ==> Distinct(existing + r)
    decreases |cols|
  {
    if cols == [] then []
    else
      var r := NewNames(existing, cols[..|cols| - 1]);
      var c := cols[|cols| - 1];
      assert forall x :: x in cols <==> x in cols[..|cols| - 1] || x == c;
      if c in existing || c in r then r
      else
        assert Distinct(existing) ==> Distinct(existing + (r + [c])) by {
          assert existing + (r + [c]) == (existing + r) + [c];
          if Distinct(existing) { DistinctAppend(existing + r, c); }
        }
        r + [c]
  }

  /** One name is new exactly when it is not already there. */
  lemma NewNamesSingle(existing: seq<string>, c: string)
    ensures NewNames(existing, [c]) == if c in existing then [] else [c]
  {
    assert [c][..0] == [];
  }

  /** The new names of a concatenation are those of the first part, then those of the second
      part that are new even after the first; with `NewNamesSingle` this fixes the result to the
      order of first appearance. */
  lemma {:induction false} NewNamesAppend(existing: seq<string>, cols1: seq<string>, cols2: seq<string>)
    ensures NewNames(existing, cols1 + cols2)
      == NewNames(existing, cols1) + NewNames(existing + NewNames(existing, cols1), cols2)
    decreases |cols2|
  {
    if cols2 == [] {
      assert cols1 + cols2 == cols1;
    } else {
      var init, c := cols2[..|cols2| - 1], cols2[|cols2| - 1];
      assert cols2 == init + [c];
      Split.ConcatAssoc(cols1, init, [c]);
      NewNamesAppend(existing, cols1, init);
      var a := NewNames(existing, cols1);
      var b := NewNames(existing + a, init);
      NewNamesSnoc(existing, cols1 + init, c);
      NewNamesSnoc(existing + a, init, c);
      assert c in existing || c in a + b <==> c in existing + a || c in b;
      Split.ConcatAssoc(a, b, [c]);
    }
  }

  lemma NewNamesSnoc(existing: seq<string>, cols: seq<string>, c: string)
    ensures NewNames(existing, cols + [c])
      == if c in existing || c in NewNames(existing, cols) then NewNames(existing, cols) else NewNames(existing, cols) + [c]
  {
    var s := cols + [c];
    assert s[..|s| - 1] == cols && s[|s| - 1] == c;
  }

  lemma DistinctAppend(s: seq<string>, c: string)
    requires Distinct(s) && c !in s
    ensures Distinct(s + [c])
  {
    var t := s + [c];
    forall i, j | 0 <= i < j < |t| ensures t[i] != t[j] {
      if j == |s| { assert t[i] == s[i]; }
    }
  }

  /** Assigning a blank column for each of `cols` (dgx/rlist.py:84): each name becomes a column
      filled with `""`; a name that already is a column keeps its place but loses its values, a
      new one is appended, each once, in the order of first appearance (the columns are
      `t.columns + NewNames(t.columns, cols)`, ordered by `NewNamesAppend`). */
  function AssignBlank(t: Table, cols: seq<string>): (r: Table)
    ensures r.columns == t.columns + NewNames(t.columns, cols)
    ensures WellFormed(t) ==> WellFormed(r)
    ensures |r.rows| == |t.rows|
    ensures forall i, c :: 0 <= i < |t.rows| && c in cols ==> c in r.rows[i] && r.rows[i][c] == ""
    ensures forall i, c :: 0 <= i < |t.rows| && c in t.rows[i] && c !in cols ==> c in r.rows[i] && r.rows[i][c] == t.rows[i][c]
  {
    var blank := map c | c in cols :: "";
    var r := Table(t.columns + NewNames(t.columns, cols), seq(|t.rows|, i requires 0 <= i < |t.rows| => t.rows[i] + blank));
    assert WellFormed(t) ==> WellFormed(r) by {
      if WellFormed(t) {
        forall i | 0 <= i < |r.rows| ensures r.rows[i].Keys == set c | c in r.columns {
          assert r.rows[i].Keys == t.rows[i].Keys + blank.Keys;
        }
      }
    }
    r
  }

  /** One masked cell write (dgx/rlist.py:87): it lands in `col` of a row only when that
      row's `NAME` is `job`. */
  function SetCell(r: Row, job: string, col: string, val: string): (s: Row)
    ensures "NAME" in r && r["NAME"] == job ==> s.Keys == r.Keys + {col} && s[col] == val
    ensures forall c :: c in r && (c != col || "NAME" !in r || r["NAME"] != job) ==> c in s && s[c] == r[c]
    ensures ("NAME" !in r || r["NAME"] != job) ==> s.Keys == r.Keys
  {
    if "NAME" in r && r["NAME"] == job then r[col := val] else r
  }

  /** The data frame that `get_table` builds and updates in place. */
  class Frame {
    var columns: seq<string>
    var rows: seq<Row>

    function Value(): Table
      reads this
    {
      Table(columns, rows)
    }

    predicate Valid()
      reads this
    {
      WellFormed(Value())
    }

    constructor (t: Table)
      ensures Value() == t
    {
      columns, rows := t.columns, t.rows;
    }

    /** The in-place drop (dgx/rlist.py:78): returns the labels that are not columns, and
        changes nothing unless there are none. */
    method Drop(names: seq<string>) returns (missing: seq<string>)
      requires Valid()
      modifies this
      ensures Valid()
      ensures missing == Except(names, old(columns))
      ensures missing != [] ==> Value() == old(Value())
      ensures missing == [] ==> DropColumns(old(Value()), names) == Ok(Value())
    {
      missing := Except(names, columns);
      var dropped := DropColumns(Value(), names);
      if dropped.Ok? {
        columns, rows := dropped.value.columns, dropped.value.rows;
      }
    }

    /** The blank assignment (dgx/rlist.py:84), rebinding `df`; the frame before the call is not
        used again, so updating it in place is the same. */
    method Assign(cols: seq<string>)
      requires Valid()
      modifies this
      ensures Valid()
      ensures Value() == AssignBlank(old(Value()), cols)
    {
      var blanked := AssignBlank(Value(), cols);
      columns, rows := blanked.columns, blanked.rows;
    }

    /** The masked write of `val` into column `col` of the rows named `job` (dgx/rlist.py:87),
        for a column that exists. */
    method SetWhere(job: string, col: string, val: string)
      requires Valid() && col in columns
      modifies this
      ensures Valid()
      ensures columns == old(columns) && |rows| == |old(rows)|
      ensures forall i :: 0 <= i < |rows| ==> rows[i] == SetCell(old(rows[i]), job, col, val)
    {
      var before := rows;
      rows := seq(|before|, i requires 0 <= i < |before| => SetCell(before[i], job, col, val));
      forall i | 0 <= i < |rows| ensures rows[i].Keys == set c | c in columns {
        assert rows[i].Keys <= before[i].Keys + {col};
      }
    }
  }
}
