/** `get_table`: the `runai list` table without some columns and, when extras are asked for,
    with one more column per key found in the running jobs' documents, filled per job. */
module Pipeline {
  import opened Results
  import opened Split
  import opened Frames
  import opened RunaiListing
  import opened Envs

  /** The columns `get_table` always removes. */
  const DROPPED: seq<string> := ["IMAGE", "TYPE", "PROJECT", "USER", "PODs Running (Pending)"]

  /** The table before extras: the listing without the `DROPPED` columns (dgx/rlist.py:76-78). */
  function Listed(out: string): (r: Result<Table>)
    ensures r.Ok? ==> WellFormed(r.value)
    ensures r.Ok? ==> forall c :: c in DROPPED ==> c !in r.value.columns
    ensures r.Ok? ==> CountChar(out, '\n') >= 2
    ensures r.Ok? ==> forall c :: c in r.value.columns <==> c in SplitCells(SplitLines(out)[1]) && c !in DROPPED
    ensures RunaiList(out).Err? ==> r == RunaiList(out)
    ensures RunaiList(out).Ok? ==>
      (r.Ok? <==> forall c :: c in DROPPED ==> c in SplitCells(SplitLines(out)[1]))
    ensures RunaiList(out).Ok? && r.Err? ==>
      r.error == MissingColumns(Except(DROPPED, SplitCells(SplitLines(out)[1])))
    ensures r.Ok? ==> RunaiList(out).Ok? && r.value.columns == Except(SplitCells(SplitLines(out)[1]), DROPPED)
    ensures r.Ok? ==> |r.value.rows| == |RunaiList(out).value.rows|
    ensures r.Ok? ==> forall i, c :: 0 <= i < |r.value.rows| && c in r.value.columns ==>
      r.value.rows[i][c] == RunaiList(out).value.rows[i][c]
  {
    var t :- RunaiList(out);
    DropColumns(t, DROPPED)
  }

  /** The inner loop over one job's document (dgx/rlist.py:86-87), seen from one row, after
      its first `|bag|` steps. */
  function RowWriteBag(r: Row, job: string, bag: Bag): Row
    decreases |bag|
  {
    if bag == [] then r
    else
      var n := |bag| - 1;
      SetCell(RowWriteBag(r, job, bag[..n]), job, bag[n].key, bag[n].value)
  }

  /** The outer loop over the jobs of the dictionary (dgx/rlist.py:85-87), seen from one row. */
  function RowWriteAll(r: Row, env: Env): Row
    decreases |env|
  {
    if env == [] then r
    else
      var n := |env| - 1;
      RowWriteBag(RowWriteAll(r, env[..n]), env[n].name, env[n].bag)
  }

  /** Both loops on every row of the table. */
  function WriteAll(t: Table, env: Env): Table {
    Table(t.columns, seq(|t.rows|, i requires 0 <= i < |t.rows| => RowWriteAll(t.rows[i], env)))
  }

  /** The extras step: blank columns for every key, then every job's values written into the
      rows carrying its name. */
  function Enrich(t: Table, env: Env): Table {
    WriteAll(AssignBlank(t, NewColumns(env)), env)
  }

  /** `get_table(extras, file)` on the output `out` of `runai list`, with `fetch`, `parse` and
      `cpus` standing for the commands run in the jobs, `json.loads` and `cpu_count()`. */
  function GetTableSpec(extras: bool, out: string, fetch: string -> string, parse: string -> Option<Bag>, cpus: nat): Result<Table> {
    var t :- Listed(out);
    if !extras then Ok(t)
    else
      var jobs :- RunningNames(t);
      var env :- EnvsForAllRunningJobs(fetch, parse, cpus, jobs);
      Ok(Enrich(t, env))
  }

  /** A job's writes touch only the rows carrying its name: there each key of the document gets
      the last value the document gives it, and everything else is kept. */
  lemma {:induction false} RowWriteBagEffect(r: Row, job: string, bag: Bag)
    requires "NAME" in r
    requires LastValue(bag, "NAME").None?
    ensures r["NAME"] != job ==> RowWriteBag(r, job, bag) == r
    ensures r["NAME"] == job ==> forall c :: c in RowWriteBag(r, job, bag) <==> c in r || LastValue(bag, c).Some?
    ensures r["NAME"] == job ==> forall c :: LastValue(bag, c).Some? ==> RowWriteBag(r, job, bag)[c] == LastValue(bag, c).value
    ensures r["NAME"] == job ==> forall c :: c in r && LastValue(bag, c).None? ==> RowWriteBag(r, job, bag)[c] == r[c]
    decreases |bag|
  {
    if bag != [] {
      var n := |bag| - 1;
      var pre := bag[..n];
      assert LastValue(pre, "NAME").None?;
      RowWriteBagEffect(r, job, pre);
      var w0 := RowWriteBag(r, job, pre);
      if r["NAME"] == job {
        assert w0["NAME"] == job;
        assert RowWriteBag(r, job, bag) == w0[bag[n].key := bag[n].value];
        assert forall c :: c != bag[n].key ==> LastValue(bag, c) == LastValue(pre, c);
      }
    }
  }

  /** No document has a `NAME` key, so the writes never rename a row. */
  predicate NoNameKey(env: Env) {
    forall k :: 0 <= k < |env| ==> LastValue(env[k].bag, "NAME").None?
  }

  /** The value the job named `name` writes into column `c`, if any. */
  function Written(env: Env, name: string, c: string): Option<string> {
    match Lookup(env, name)
    case None => None
    case Some(bag) => LastValue(bag, c)
  }

  /** Only keys of some document are written. */
  lemma WrittenIsNew(env: Env, name: string, c: string)
    requires Written(env, name, c).Some?
    ensures c in NewColumns(env)
  {
    LookupFound(env, name);
    var k :| 0 <= k < |env| && env[k].name == name && env[k].bag == Lookup(env, name).value;
    var i :| 0 <= i < |env[k].bag| && env[k].bag[i].key == c;
  }

  /** Over all jobs of a dictionary with distinct names, a row receives exactly the writes of
      the job it is named after, if any. */
  lemma {:induction false} RowWriteAllEffect(r: Row, env: Env)
    requires "NAME" in r
    requires DistinctNames(env) && NoNameKey(env)
    ensures RowWriteAll(r, env) == match Lookup(env, r["NAME"])
      case None => r
      case Some(bag) => RowWriteBag(r, r["NAME"], bag)
    decreases |env|
  {
    if env != [] {
      var n := |env| - 1;
      var pre := env[..n];
      var name := r["NAME"];
      assert env == pre + [env[n]];
      assert forall k :: 0 <= k < n ==> pre[k] == env[k];
      RowWriteAllEffect(r, pre);
      LookupSnoc(pre, env[n], name);
      var w0 := RowWriteAll(r, pre);
      match Lookup(pre, name)
      case None =>
        RowWriteBagEffect(r, env[n].name, env[n].bag);
      case Some(bp) =>
        LookupFound(pre, name);
        var j :| 0 <= j < n && pre[j].name == name && pre[j].bag == bp;
        assert env[j].name == name && LastValue(bp, "NAME").None?;
        RowWriteBagEffect(r, name, bp);
        RowWriteBagEffect(w0, env[n].name, env[n].bag);
    }
  }

  /** What the extras step does to one row that already has every written column. */
  lemma EnrichRow(b: Row, env: Env)
    requires "NAME" in b
    requires DistinctNames(env) && NoNameKey(env)
    requires forall c :: c in NewColumns(env) ==> c in b
    ensures forall c :: c in RowWriteAll(b, env) <==> c in b
    ensures forall c :: c in b ==>
      RowWriteAll(b, env)[c] == (if Written(env, b["NAME"], c).Some? then Written(env, b["NAME"], c).value else b[c])
  {
    RowWriteAllEffect(b, env);
    match Lookup(env, b["NAME"])
    case None =>
    case Some(bag) =>
      LookupFound(env, b["NAME"]);
      RowWriteBagEffect(b, b["NAME"], bag);
      forall c | LastValue(bag, c).Some? ensures c in b {
        WrittenIsNew(env, b["NAME"], c);
      }
  }

  /** A row that no job is named after receives none of their writes. */
  lemma {:induction false} RowWriteBagOther(r: Row, job: string, bag: Bag)
    requires "NAME" in r && r["NAME"] != job
    ensures RowWriteBag(r, job, bag) == r
    decreases |bag|
  {
    if bag != [] {
      RowWriteBagOther(r, job, bag[..|bag| - 1]);
    }
  }

  lemma {:induction false} RowWriteAllOther(r: Row, env: Env)
    requires "NAME" in r
    requires forall k :: 0 <= k < |env| ==> env[k].name != r["NAME"]
    ensures RowWriteAll(r, env) == r
    decreases |env|
  {
    if env != [] {
      var n := |env| - 1;
      assert forall k :: 0 <= k < n ==> env[..n][k] == env[k];
      RowWriteAllOther(r, env[..n]);
      RowWriteBagOther(r, env[n].name, env[n].bag);
    }
  }

  /** The case the characterisation excludes, as the source behaves: when some document has a
      `NAME` key, `NAME` is among the new columns, so the blank assignment empties every row's
      `NAME` and, no job being named `""`, no masked write matches any row afterwards. The
      result is the blanked table, with `""` in `NAME` and in every new column. */
  lemma {:induction false} NameKeyBlanksAll(t: Table, env: Env)
    requires WellFormed(t) && "NAME" in t.columns
    requires exists k :: 0 <= k < |env| && LastValue(env[k].bag, "NAME").Some?
    requires forall k :: 0 <= k < |env| ==> env[k].name != ""
    ensures "NAME" in NewColumns(env)
    ensures Enrich(t, env) == AssignBlank(t, NewColumns(env))
    ensures forall i, c :: 0 <= i < |t.rows| && c in NewColumns(env) ==>
      c in Enrich(t, env).rows[i] && Enrich(t, env).rows[i][c] == ""
  {
    NameKeyIsNewColumn(env);
    var a := AssignBlank(t, NewColumns(env));
    forall i | 0 <= i < |a.rows| ensures RowWriteAll(a.rows[i], env) == a.rows[i] {
      RowWriteAllOther(a.rows[i], env);
    }
    assert WriteAll(a, env).rows == a.rows;
  }

  lemma {:induction false} NameKeyIsNewColumn(env: Env)
    requires exists k :: 0 <= k < |env| && LastValue(env[k].bag, "NAME").Some?
    ensures "NAME" in NewColumns(env)
  {
    var k :| 0 <= k < |env| && LastValue(env[k].bag, "NAME").Some?;
    var j :| 0 <= j < |env[k].bag| && env[k].bag[j].key == "NAME";
  }

  /** Without a `NAME` key in any document, `NAME` is not among the new columns. */
  lemma NameNotNew(env: Env)
    requires NoNameKey(env)
    ensures "NAME" !in NewColumns(env)
  {
    forall k, j | 0 <= k < |env| && 0 <= j < |env[k].bag| ensures env[k].bag[j].key != "NAME" {
      assert LastValue(env[k].bag, "NAME").None?;
    }
  }

  /** What the extras step leaves in column `c` of a row named `name`: the job's value, or
      blank. */
  function Enriched(env: Env, name: string, c: string): string {
    match Written(env, name, c)
    case Some(v) => v
    case None => ""
  }

  /** The extras step on row `i` of a well-formed table. */
  lemma EnrichAt(t: Table, env: Env, i: int)
    requires WellFormed(t) && "NAME" in t.columns && 0 <= i < |t.rows|
    requires DistinctNames(env) && NoNameKey(env)
    ensures var e := Enrich(t, env).rows[i];
      && e.Keys == AssignBlank(t, NewColumns(env)).rows[i].Keys
      && (forall c :: c in NewColumns(env) ==> c in e && e[c] == Enriched(env, t.rows[i]["NAME"], c))
      && (forall c :: c in t.columns && c !in NewColumns(env) ==> c in e && e[c] == t.rows[i][c])
  {
    var a := AssignBlank(t, NewColumns(env));
    assert "NAME" in t.rows[i];
    EnrichBlankRow(t.rows[i], a.rows[i], env);
    WriteAllAt(a, env, i);
  }

  /** Row `i` of the two loops' result is the writes seen from row `i`. */
  lemma WriteAllAt(t: Table, env: Env, i: int)
    requires 0 <= i < |t.rows|
    ensures |WriteAll(t, env).rows| == |t.rows|
    ensures WriteAll(t, env).rows[i] == RowWriteAll(t.rows[i], env)
  {
  }

  /** The writes on a row `b` that is row `r` with every new column blanked. */
  lemma EnrichBlankRow(r: Row, b: Row, env: Env)
    requires "NAME" in r && DistinctNames(env) && NoNameKey(env)
    requires forall c :: c in NewColumns(env) ==> c in b && b[c] == ""
    requires forall c :: c in r && c !in NewColumns(env) ==> c in b && b[c] == r[c]
    ensures var e := RowWriteAll(b, env);
      && e.Keys == b.Keys
      && (forall c :: c in NewColumns(env) ==> c in e && e[c] == Enriched(env, r["NAME"], c))
      && (forall c :: c in r && c !in NewColumns(env) ==> c in e && e[c] == r[c])
  {
    NameNotNew(env);
    var name := r["NAME"];
    assert b["NAME"] == name;
    EnrichRow(b, env);
    forall c | c in r && c !in NewColumns(env) ensures Written(env, name, c).None? {
      if Written(env, name, c).Some? {
        WrittenIsNew(env, name, c);
      }
    }
  }

  /** The extras step on a well-formed table: the new keys are appended as columns, once each;
      every row, running or not, holds in those columns the values of the job it is named
      after, blank where that job has no such key; all other cells are kept. */
  lemma EnrichCharacterization(t: Table, env: Env)
    requires WellFormed(t) && "NAME" in t.columns
    requires DistinctNames(env) && NoNameKey(env)
    ensures WellFormed(Enrich(t, env))
    ensures Enrich(t, env).columns == t.columns + NewNames(t.columns, NewColumns(env))
    ensures |Enrich(t, env).rows| == |t.rows|
    ensures forall i, c :: 0 <= i < |t.rows| && c in NewColumns(env) ==>
      c in Enrich(t, env).rows[i] && Enrich(t, env).rows[i][c] == Enriched(env, t.rows[i]["NAME"], c)
    ensures forall i, c :: 0 <= i < |t.rows| && c in t.columns && c !in NewColumns(env) ==>
      c in Enrich(t, env).rows[i] && Enrich(t, env).rows[i][c] == t.rows[i][c]
  {
    var a := AssignBlank(t, NewColumns(env));
    forall i | 0 <= i < |t.rows| ensures Enrich(t, env).rows[i].Keys == set c | c in a.columns {
      EnrichAt(t, env, i);
    }
    forall i, c | 0 <= i < |t.rows| && c in NewColumns(env)
      ensures c in Enrich(t, env).rows[i] && Enrich(t, env).rows[i][c] == Enriched(env, t.rows[i]["NAME"], c)
    {
      EnrichAt(t, env, i);
    }
    forall i, c | 0 <= i < |t.rows| && c in t.columns && c !in NewColumns(env)
      ensures c in Enrich(t, env).rows[i] && Enrich(t, env).rows[i][c] == t.rows[i][c]
    {
      EnrichAt(t, env, i);
    }
  }

  /** Without extras the table is the listing minus `DROPPED`. */
  lemma NoExtras(out: string, fetch: string -> string, parse: string -> Option<Bag>, cpus: nat)
    ensures GetTableSpec(false, out, fetch, parse, cpus) == Listed(out)
  {
  }

  /** With extras and no running job, the pool of zero workers fails the whole program. */
  lemma NoRunningJob(out: string, fetch: string -> string, parse: string -> Option<Bag>, cpus: nat)
    requires Listed(out).Ok?
    requires RunningNames(Listed(out).value) == Ok([])
    ensures GetTableSpec(true, out, fetch, parse, cpus) == Err(EmptyPool)
  {
  }

  /** With extras, `get_table` succeeds on a listing with the columns it needs exactly when
      some job is running, there is a CPU, and every running job's document loads; a failure
      past the listing is the empty pool or a bad document. */
  lemma ExtrasSucceeds(out: string, fetch: string -> string, parse: string -> Option<Bag>, cpus: nat)
    requires Listed(out).Ok? && RunningNames(Listed(out).value).Ok?
    ensures var jobs := RunningNames(Listed(out).value).value;
      GetTableSpec(true, out, fetch, parse, cpus).Ok? <==>
        jobs != [] && cpus > 0 && forall j :: j in jobs ==> GetEnvs(fetch, parse, j).Ok?
    ensures GetTableSpec(true, out, fetch, parse, cpus).Err? ==>
      GetTableSpec(true, out, fetch, parse, cpus).error == EmptyPool ||
      GetTableSpec(true, out, fetch, parse, cpus).error == BadDocument
  {
    var jobs := RunningNames(Listed(out).value).value;
    var r := EnvsForAllRunningJobs(fetch, parse, cpus, jobs);
    assert GetTableSpec(true, out, fetch, parse, cpus) ==
      if r.Ok? then Ok(Enrich(Listed(out).value, r.value)) else Err(r.error);
  }

  /** With extras, a successful `get_table` is the extras step on the listing, with the
      dictionary of the listing's running jobs. */
  lemma GetTableExtras(out: string, fetch: string -> string, parse: string -> Option<Bag>, cpus: nat)
    requires GetTableSpec(true, out, fetch, parse, cpus).Ok?
    ensures Listed(out).Ok? && RunningNames(Listed(out).value).Ok?
    ensures EnvsForAllRunningJobs(fetch, parse, cpus, RunningNames(Listed(out).value).value).Ok?
    ensures GetTableSpec(true, out, fetch, parse, cpus).value ==
      Enrich(Listed(out).value, EnvsForAllRunningJobs(fetch, parse, cpus, RunningNames(Listed(out).value).value).value)
  {
  }

  /** With extras, the successful result is the listing `t` with the documents of its running
      jobs `jobs`, collected in `env`, spread over it. A row whose `NAME` is a running job's
      name holds that job's values (blank for keys its document lacks), whatever its own
      status; a row whose `NAME` is no running job's name holds blanks in the new columns; the
      listing's other cells are kept. */
  lemma ExtrasCharacterization(fetch: string -> string, parse: string -> Option<Bag>, cpus: nat, t: Table, jobs: seq<string>, env: Env, e: Table)
    requires WellFormed(t) && RunningNames(t) == Ok(jobs)
    requires EnvsForAllRunningJobs(fetch, parse, cpus, jobs) == Ok(env)
    requires e == Enrich(t, env)
    requires forall j :: j in jobs && GetEnvs(fetch, parse, j).Ok? ==> LastValue(GetEnvs(fetch, parse, j).value, "NAME").None?
    ensures WellFormed(e)
    ensures e.columns == t.columns + NewNames(t.columns, NewColumns(env))
    ensures |e.rows| == |t.rows|
    ensures forall i, c :: 0 <= i < |t.rows| && c in NewColumns(env) && t.rows[i]["NAME"] in jobs ==>
      c in e.rows[i] && e.rows[i][c] == (match LastValue(GetEnvs(fetch, parse, t.rows[i]["NAME"]).value, c)
        case Some(v) => v
        case None => "")
    ensures forall i, c :: 0 <= i < |t.rows| && c in NewColumns(env) && t.rows[i]["NAME"] !in jobs ==>
      c in e.rows[i] && e.rows[i][c] == ""
    ensures forall i, c :: 0 <= i < |t.rows| && c in t.columns && c !in NewColumns(env) ==>
      c in e.rows[i] && e.rows[i][c] == t.rows[i][c]
  {
    forall i, c | 0 <= i < |t.rows| && c in NewColumns(env) && t.rows[i]["NAME"] in jobs
      ensures Enriched(env, t.rows[i]["NAME"], c) == match LastValue(GetEnvs(fetch, parse, t.rows[i]["NAME"]).value, c)
        case Some(v) => v
        case None => ""
    {
      EnrichedRunning(fetch, parse, cpus, jobs, env, t.rows[i]["NAME"], c);
    }
    forall i, c | 0 <= i < |t.rows| && c in NewColumns(env) && t.rows[i]["NAME"] !in jobs
      ensures Enriched(env, t.rows[i]["NAME"], c) == ""
    {
      EnrichedIdle(fetch, parse, cpus, jobs, env, t.rows[i]["NAME"], c);
    }
    NoNameKeyInEnv(fetch, parse, cpus, jobs, env);
    EnrichCharacterization(t, env);
  }

  /** A row whose `NAME` is a running job's name holds the values of that job's document. */
  lemma EnrichedRunning(fetch: string -> string, parse: string -> Option<Bag>, cpus: nat, jobs: seq<string>, env: Env, name: string, c: string)
    requires EnvsForAllRunningJobs(fetch, parse, cpus, jobs) == Ok(env)
    requires name in jobs
    ensures Enriched(env, name, c) == match LastValue(GetEnvs(fetch, parse, name).value, c)
      case Some(v) => v
      case None => ""
  {
    EnvsForAllRunningJobsLookup(fetch, parse, cpus, jobs);
  }

  /** A row whose `NAME` is no running job's name gets only blanks. */
  lemma EnrichedIdle(fetch: string -> string, parse: string -> Option<Bag>, cpus: nat, jobs: seq<string>, env: Env, name: string, c: string)
    requires EnvsForAllRunningJobs(fetch, parse, cpus, jobs) == Ok(env)
    requires name !in jobs
    ensures Enriched(env, name, c) == ""
  {
    EnvsForAllRunningJobsLookup(fetch, parse, cpus, jobs);
  }

  /** No document in the dictionary has a `NAME` key when no job's document has one. */
  lemma NoNameKeyInEnv(fetch: string -> string, parse: string -> Option<Bag>, cpus: nat, jobs: seq<string>, env: Env)
    requires EnvsForAllRunningJobs(fetch, parse, cpus, jobs) == Ok(env)
    requires forall j :: j in jobs && GetEnvs(fetch, parse, j).Ok? ==> LastValue(GetEnvs(fetch, parse, j).value, "NAME").None?
    ensures DistinctNames(env) && NoNameKey(env)
  {
    EnvsForAllRunningJobsLookup(fetch, parse, cpus, jobs);
    forall k | 0 <= k < |env| ensures LastValue(env[k].bag, "NAME").None? {
      LookupAt(env, k);
      assert env[k].bag == GetEnvs(fetch, parse, env[k].name).value;
    }
  }

  /** The inner loop (dgx/rlist.py:86-87): every key of one job's document written into the
      rows carrying the job's name. */
  method WriteJob(df: Frame, job: Job)
    requires df.Valid()
    requires forall j :: 0 <= j < |job.bag| ==> job.bag[j].key in df.columns
    modifies df
    ensures df.Valid() && df.columns == old(df.columns) && |df.rows| == |old(df.rows)|
    ensures forall x :: 0 <= x < |df.rows| ==> df.rows[x] == RowWriteBag(old(df.rows[x]), job.name, job.bag)
  {
    ghost var start := df.rows;
    var k := 0;
    while k < |job.bag|
      invariant 0 <= k <= |job.bag|
      invariant df.Valid() && df.columns == old(df.columns) && |df.rows| == |start|
      invariant forall x :: 0 <= x < |df.rows| ==> df.rows[x] == RowWriteBag(start[x], job.name, job.bag[..k])
    {
      assert job.bag[..k + 1][..k] == job.bag[..k];
      df.SetWhere(job.name, job.bag[k].key, job.bag[k].value);
      k := k + 1;
    }
    assert job.bag[..k] == job.bag;
  }

  /** The outer loop (dgx/rlist.py:85-87): the inner loop for every job, in dictionary order. */
  method WriteJobs(df: Frame, env: Env)
    requires df.Valid()
    requires forall k, j :: 0 <= k < |env| && 0 <= j < |env[k].bag| ==> env[k].bag[j].key in df.columns
    modifies df
    ensures df.Valid() && df.Value() == WriteAll(old(df.Value()), env)
  {
    ghost var start := df.rows;
    var i := 0;
    while i < |env|
      invariant 0 <= i <= |env|
      invariant df.Valid() && df.columns == old(df.columns) && |df.rows| == |start|
      invariant forall x :: 0 <= x < |df.rows| ==> df.rows[x] == RowWriteAll(start[x], env[..i])
    {
      assert env[..i + 1][..i] == env[..i];
      WriteJob(df, env[i]);
      i := i + 1;
    }
    assert env[..i] == env;
    assert df.rows == WriteAll(old(df.Value()), env).rows;
  }

  /** `get_table`, updating one data frame in place as the source does. */
  method GetTable(extras: bool, out: string, fetch: string -> string, parse: string -> Option<Bag>, cpus: nat)
    returns (r: Result<Table>)
    ensures r == GetTableSpec(extras, out, fetch, parse, cpus)
    ensures r.Ok? ==> WellFormed(r.value)
  {
    var listing :- RunaiList(out);
    var df := new Frame(listing);
    var missing := df.Drop(DROPPED);
    if missing != [] {
      return Err(MissingColumns(missing));
    }
    if !extras {
      return Ok(df.Value());
    }
    var jobs :- RunningNames(df.Value());
    var env :- EnvsForAllRunningJobs(fetch, parse, cpus, jobs);
    ghost var t := df.Value();
    var newCols := NewColumns(env);
    df.Assign(newCols);
    assert forall k, j :: 0 <= k < |env| && 0 <= j < |env[k].bag| ==> env[k].bag[j].key in df.columns;
    WriteJobs(df, env);
    r := Ok(df.Value());
  }
}
