/** `get_envs` and `get_envs_for_all_running_jobs`: for every running job, the JSON document
    read from a file inside it, parsed into a dictionary of key/value pairs, collected into a
    dictionary keyed by job name.

    The command the job runs (dgx/rlist.py:50) is the oracle `fetch` (job name to captured
    standard output, with the file path fixed). The JSON parser is the oracle `parse`, which
    gives an object's key/value pairs in document order, repeated keys included, or `None`
    when the text is not JSON or not a JSON object; `ToDict` then builds the dictionary from
    those pairs as `json.loads` does. */
module Envs {
  import opened Results
  import Frames

  datatype Entry = Entry(key: string, value: string)

  /** Key/value pairs in order: the pairs of a JSON object as written, or a dictionary. */
  type Bag = seq<Entry>

  /** One item of the dictionary from job names to documents (dgx/rlist.py:66). */
  datatype Job = Job(name: string, bag: Bag)

  /** An insertion-ordered dictionary from job name to bag. */
  type Env = seq<Job>

  /** The value of key `c` in `bag`: the last pair with that key, as `json.loads` keeps it. */
  function LastValue(bag: Bag, c: string): (v: Option<string>)
    ensures v.Some? <==> exists i :: 0 <= i < |bag| && bag[i].key == c
    ensures v.Some? ==> exists i :: LastAt(bag, i, c, v.value)
    decreases |bag|
  {
    if bag == [] then None
    else if bag[|bag| - 1].key == c then
      assert LastAt(bag, |bag| - 1, c, bag[|bag| - 1].value);
      Some(bag[|bag| - 1].value)
    else
      var pre := bag[..|bag| - 1];
      var v := LastValue(pre, c);
      assert forall i :: 0 <= i < |pre| ==> pre[i] == bag[i];
      assert v.Some? ==> exists i :: LastAt(bag, i, c, v.value) by {
        if v.Some? {
          var i :| LastAt(pre, i, c, v.value);
          assert LastAt(bag, i, c, v.value);
        }
      }
      v
  }

  /** The pair at `i` is `c: val` and no later pair has the key `c`. */
  predicate LastAt(bag: Bag, i: int, c: string, val: string) {
    0 <= i < |bag| && bag[i] == Entry(c, val) && forall j :: i < j < |bag| ==> bag[j].key != c
  }

  /** No key occurs twice: the pairs form a dictionary. */
  predicate DistinctKeys(bag: Bag) {
    forall i, j :: 0 <= i < j < |bag| ==> bag[i].key != bag[j].key
  }

  lemma LastValueSnoc(bag: Bag, e: Entry, c: string)
    ensures LastValue(bag + [e], c) == if e.key == c then Some(e.value) else LastValue(bag, c)
  {
    assert (bag + [e])[..|bag|] == bag;
  }

  lemma DistinctKeysSnoc(bag: Bag, e: Entry)
    requires DistinctKeys(bag) && LastValue(bag, e.key).None?
    ensures DistinctKeys(bag + [e])
  {
    var r := bag + [e];
    forall i, j | 0 <= i < j < |r| ensures r[i].key != r[j].key {
      if j == |bag| { assert r[i] == bag[i]; }
    }
  }

  /** Storing `e.value` under `e.key` in a dictionary: an existing key keeps its place and
      takes the new value, a new key is appended. */
  function Put(bag: Bag, e: Entry): (r: Bag)
    ensures forall c :: LastValue(r, c) == if c == e.key then Some(e.value) else LastValue(bag, c)
    ensures DistinctKeys(bag) ==> DistinctKeys(r)
    decreases |bag|
  {
    if LastValue(bag, e.key).None? then
      forall c ensures LastValue(bag + [e], c) == if c == e.key then Some(e.value) else LastValue(bag, c) {
        LastValueSnoc(bag, e, c);
      }
      assert DistinctKeys(bag) ==> DistinctKeys(bag + [e]) by {
        if DistinctKeys(bag) { DistinctKeysSnoc(bag, e); }
      }
      bag + [e]
    else
      var n := |bag| - 1;
      var pre, last := bag[..n], bag[n];
      assert bag == pre + [last];
      forall c ensures LastValue(bag, c) == if c == last.key then Some(last.value) else LastValue(pre, c) {
        LastValueSnoc(pre, last, c);
      }
      assert DistinctKeys(bag) ==> DistinctKeys(pre) && LastValue(pre, last.key).None?;
      if last.key == e.key then
        forall c ensures LastValue(pre + [e], c) == if c == e.key then Some(e.value) else LastValue(bag, c) {
          LastValueSnoc(pre, e, c);
        }
        assert DistinctKeys(bag) ==> DistinctKeys(pre + [e]) by {
        if DistinctKeys(bag) { DistinctKeysSnoc(pre, e); }
      }
        pre + [e]
      else
        var p := Put(pre, e);
        forall c ensures LastValue(p + [last], c) == if c == e.key then Some(e.value) else LastValue(bag, c) {
          LastValueSnoc(p, last, c);
        }
        assert DistinctKeys(bag) ==> DistinctKeys(p + [last]) by {
        if DistinctKeys(bag) { DistinctKeysSnoc(p, last); }
      }
        p + [last]
  }

  /** A new key is appended; an existing key stays where it is, and so does every other key. */
  lemma {:induction false} PutPlace(bag: Bag, e: Entry)
    ensures LastValue(bag, e.key).None? ==> Put(bag, e) == bag + [e]
    ensures LastValue(bag, e.key).Some? ==>
      |Put(bag, e)| == |bag| && forall i :: 0 <= i < |bag| ==> Put(bag, e)[i].key == bag[i].key
    decreases |bag|
  {
    if LastValue(bag, e.key).Some? {
      var n := |bag| - 1;
      var pre, last := bag[..n], bag[n];
      assert bag == pre + [last];
      LastValueSnoc(pre, last, e.key);
      if last.key != e.key {
        PutPlace(pre, e);
        assert Put(bag, e) == Put(pre, e) + [last];
      }
    }
  }

  /** The dictionary `json.loads` builds from an object's pairs: each key once, at the place
      of its first pair, with the value of its last. */
  function ToDict(pairs: Bag): (d: Bag)
    ensures DistinctKeys(d)
    ensures forall c :: LastValue(d, c) == LastValue(pairs, c)
    decreases |pairs|
  {
    if pairs == [] then []
    else
      var n := |pairs| - 1;
      assert pairs == pairs[..n] + [pairs[n]];
      PutKeepsLastValues(pairs[..n], ToDict(pairs[..n]), pairs[n]);
      Put(ToDict(pairs[..n]), pairs[n])
  }

  /** A dictionary that agrees with some pairs on every key's value still does after one more
      pair is stored in it and appended to them. */
  lemma PutKeepsLastValues(pairs: Bag, d: Bag, e: Entry)
    requires forall c :: LastValue(d, c) == LastValue(pairs, c)
    ensures forall c :: LastValue(Put(d, e), c) == LastValue(pairs + [e], c)
  {
    forall c ensures LastValue(Put(d, e), c) == LastValue(pairs + [e], c) {
      LastValueSnoc(pairs, e, c);
    }
  }

  lemma ToDictSnoc(pairs: Bag, e: Entry)
    ensures ToDict(pairs + [e]) == Put(ToDict(pairs), e)
  {
    assert (pairs + [e])[..|pairs|] == pairs;
  }

  /** Storing a key that the last pair has replaces that pair. */
  lemma PutOverLast(pre: Bag, last: Entry, e: Entry)
    requires last.key == e.key
    ensures Put(pre + [last], e) == pre + [e]
  {
    var bag := pre + [last];
    assert bag[..|pre|] == pre;
    LastValueSnoc(pre, last, e.key);
  }

  /** Storing a key that an earlier pair has leaves the last pair in place. */
  lemma PutBeforeLast(pre: Bag, last: Entry, e: Entry)
    requires last.key != e.key && LastValue(pre, e.key).Some?
    ensures Put(pre + [last], e) == Put(pre, e) + [last]
  {
    var bag := pre + [last];
    assert bag[..|pre|] == pre;
    LastValueSnoc(pre, last, e.key);
  }

  /** Two pairs with different keys load as themselves. */
  lemma ToDictTwo(e1: Entry, e2: Entry)
    requires e1.key != e2.key
    ensures ToDict([e1, e2]) == [e1, e2]
  {
    assert ToDict([e1]) == [e1] by {
      ToDictSnoc([], e1);
      PutPlace([], e1);
      assert [] + [e1] == [e1];
    }
    ToDictSnoc([e1], e2);
    LastValueSnoc([], e1, e2.key);
    PutPlace([e1], e2);
    assert [e1] + [e2] == [e1, e2];
  }

  /** Storing the key of the first of two pairs replaces that pair where it stands. */
  lemma PutRepeatsFirst(k1: string, k2: string, x: string, a: string, y: string)
    requires k1 != k2
    ensures Put([Entry(k1, x), Entry(k2, a)], Entry(k1, y)) == [Entry(k1, y), Entry(k2, a)]
  {
    var e1, e2, e3 := Entry(k1, x), Entry(k2, a), Entry(k1, y);
    LastValueSnoc([], e1, k1);
    assert [e1] + [e2] == [e1, e2];
    PutBeforeLast([e1], e2, e3);
    assert [] + [e1] == [e1];
    PutOverLast([], e1, e3);
  }

  /** A repeated key keeps the place of its first pair and the value of its last:
      `{"k1": x, "k2": a, "k1": y}` loads as `{"k1": y, "k2": a}`. */
  lemma ToDictRepeatedKey(k1: string, k2: string, x: string, a: string, y: string)
    requires k1 != k2
    ensures ToDict([Entry(k1, x), Entry(k2, a), Entry(k1, y)]) == [Entry(k1, y), Entry(k2, a)]
  {
    var e1, e2, e3 := Entry(k1, x), Entry(k2, a), Entry(k1, y);
    ToDictTwo(e1, e2);
    PutRepeatsFirst(k1, k2, x, a, y);
    ToDictThird(e1, e2, e3, [Entry(k1, y), Entry(k2, a)]);
  }

  /** The dictionary of three pairs is the third stored into that of the first two. */
  lemma ToDictThird(e1: Entry, e2: Entry, e3: Entry, r: Bag)
    requires Put(ToDict([e1, e2]), e3) == r
    ensures ToDict([e1, e2, e3]) == r
  {
    AppendThird(e1, e2, e3);
    ToDictSnoc([e1, e2], e3);
  }

  lemma AppendThird(e1: Entry, e2: Entry, e3: Entry)
    ensures [e1, e2] + [e3] == [e1, e2, e3]
  {
  }

  /** `get_envs`: non-empty output is loaded into a dictionary, empty output stands for `{}`
      (dgx/rlist.py:50-51). */
  function GetEnvs(fetch: string -> string, parse: string -> Option<Bag>, job: string): (r: Result<Bag>)
    ensures fetch(job) == [] ==> r == Ok([])
    ensures fetch(job) != [] ==> (r.Ok? <==> parse(fetch(job)).Some?)
    ensures fetch(job) != [] && r.Ok? ==> r.value == ToDict(parse(fetch(job)).value)
    ensures r.Ok? ==> DistinctKeys(r.value)
    ensures r.Err? ==> r.error == BadDocument
  {
    var res := fetch(job);
    if |res| > 0 then
      match parse(res)
      case Some(pairs) => Ok(ToDict(pairs))
      case None => Err(BadDocument)
    else
      Ok([])
  }

  function Min(a: int, b: int): int {
    if a <= b then a else b
  }

  /** The smallest of 10, the CPU count and the job count (dgx/rlist.py:61). */
  function PoolSize(cpus: nat, jobs: nat): (n: nat)
    ensures n <= 10 && n <= cpus && n <= jobs
    ensures n == 10 || n == cpus || n == jobs
  {
    Min(10, Min(cpus, jobs))
  }

  /** The pool's map of `get_envs` over the jobs (dgx/rlist.py:63): one result per job, in
      job order; any failing job fails the whole map. */
  function FetchAll(fetch: string -> string, parse: string -> Option<Bag>, jobs: seq<string>): (r: Result<seq<Bag>>)
    ensures r.Ok? <==> forall i :: 0 <= i < |jobs| ==> GetEnvs(fetch, parse, jobs[i]).Ok?
    ensures r.Ok? ==> |r.value| == |jobs|
    ensures r.Ok? ==> forall i :: 0 <= i < |jobs| ==> r.value[i] == GetEnvs(fetch, parse, jobs[i]).value
    ensures r.Err? ==> r.error == BadDocument
  {
    if jobs == [] then Ok([])
    else
      assert forall i :: 1 <= i < |jobs| ==> jobs[1..][i - 1] == jobs[i];
      match GetEnvs(fetch, parse, jobs[0])
      case Err(e) => Err(e)
      case Ok(bag) =>
        match FetchAll(fetch, parse, jobs[1..])
        case Err(e) => Err(e)
        case Ok(rest) => Ok([bag] + rest)
  }

  predicate DistinctNames(env: Env) {
    forall i, j :: 0 <= i < j < |env| ==> env[i].name != env[j].name
  }

  /** The bag stored under `name`. */
  function Lookup(env: Env, name: string): Option<Bag> {
    if env == [] then None
    else if env[0].name == name then Some(env[0].bag)
    else Lookup(env[1..], name)
  }

  lemma {:induction false} LookupFound(env: Env, name: string)
    ensures Lookup(env, name).Some? <==> exists i :: 0 <= i < |env| && env[i].name == name
    ensures Lookup(env, name).Some? ==>
      exists i :: 0 <= i < |env| && env[i].name == name && env[i].bag == Lookup(env, name).value
  {
    if env != [] {
      LookupFound(env[1..], name);
      assert forall i :: 1 <= i < |env| ==> env[1..][i - 1] == env[i];
    }
  }

  /** Looking up in a dictionary with one more item at the end finds the earlier items first. */
  lemma {:induction false} LookupSnoc(env: Env, x: Job, name: string)
    ensures Lookup(env + [x], name) ==
      if Lookup(env, name).Some? then Lookup(env, name) else if x.name == name then Some(x.bag) else None
  {
    if env != [] {
      assert (env + [x])[1..] == env[1..] + [x];
      LookupSnoc(env[1..], x, name);
    }
  }

  /** In a dictionary with distinct names, the item at position `i` is what `Lookup` finds. */
  lemma {:induction false} LookupAt(env: Env, i: nat)
    requires DistinctNames(env) && i < |env|
    ensures Lookup(env, env[i].name) == Some(env[i].bag)
  {
    if i > 0 {
      assert DistinctNames(env[1..]) by {
        forall a, b | 0 <= a < b < |env| - 1 ensures env[1..][a].name != env[1..][b].name {
          assert env[1..][a] == env[a + 1] && env[1..][b] == env[b + 1];
        }
      }
      LookupAt(env[1..], i - 1);
    }
  }

  /** Storing `bag` under `name` in an insertion-ordered dictionary: an existing item is
      overwritten in place, a new one is appended. */
  function Insert(env: Env, name: string, bag: Bag): (r: Env)
    ensures DistinctNames(env) ==> DistinctNames(r)
    ensures forall m :: Lookup(r, m) == if m == name then Some(bag) else Lookup(env, m)
    ensures |r| == if Lookup(env, name).Some? then |env| else |env| + 1
  {
    if env == [] then [Job(name, bag)]
    else if env[0].name == name then [Job(name, bag)] + env[1..]
    else
      var rest := Insert(env[1..], name, bag);
      assert DistinctNames(env) ==> DistinctNames([env[0]] + rest) by {
        if DistinctNames(env) {
          assert DistinctNames(env[1..]) by {
            forall a, b | 0 <= a < b < |env| - 1 ensures env[1..][a].name != env[1..][b].name {
              assert env[1..][a] == env[a + 1] && env[1..][b] == env[b + 1];
            }
          }
          LookupFound(env[1..], env[0].name);
          assert forall k :: 0 <= k < |env| - 1 ==> env[1..][k] == env[k + 1];
          assert Lookup(rest, env[0].name) == None;
          LookupFound(rest, env[0].name);
        }
      }
      [env[0]] + rest
  }

  /** The dictionary built from names and bags paired up (dgx/rlist.py:66): the pairs
      inserted in order, a repeated name keeping the position of its first occurrence and the
      bag of its last. */
  function ZipDict(names: seq<string>, bags: seq<Bag>): (env: Env)
    requires |names| == |bags|
    ensures DistinctNames(env)
    ensures |env| <= |names|
    decreases |names|
  {
    if names == [] then []
    else
      var n := |names| - 1;
      Insert(ZipDict(names[..n], bags[..n]), names[n], bags[n])
  }

  /** A job's bag is found under its name in the dictionary built from the jobs' results, and
      nothing else is: exactly one item per distinct job name. */
  lemma {:induction false} ZipDictLookup(names: seq<string>, bags: seq<Bag>)
    requires |names| == |bags|
    requires forall i, j :: 0 <= i < |names| && 0 <= j < |names| && names[i] == names[j] ==> bags[i] == bags[j]
    ensures forall i :: 0 <= i < |names| ==> Lookup(ZipDict(names, bags), names[i]) == Some(bags[i])
    ensures forall m :: m !in names ==> Lookup(ZipDict(names, bags), m) == None
    ensures Frames.Distinct(names) ==> |ZipDict(names, bags)| == |names|
    decreases |names|
  {
    if names != [] {
      var n := |names| - 1;
      var pre, pbags := names[..n], bags[..n];
      assert forall i :: 0 <= i < n ==> pre[i] == names[i] && pbags[i] == bags[i];
      ZipDictLookup(pre, pbags);
      var prev := ZipDict(pre, pbags);
      assert ZipDict(names, bags) == Insert(prev, names[n], bags[n]);
      forall i | 0 <= i < |names| ensures Lookup(ZipDict(names, bags), names[i]) == Some(bags[i]) {
        if names[i] != names[n] {
          assert Lookup(prev, pre[i]) == Some(pbags[i]);
        }
      }
      forall m | m !in names ensures Lookup(ZipDict(names, bags), m) == None {
        assert m !in pre && m != names[n];
      }
      if Frames.Distinct(names) {
        assert Frames.Distinct(pre);
        assert names[n] !in pre;
      }
    }
  }

  /** `get_envs_for_all_running_jobs`: a pool of `PoolSize` workers, which fails with none
      (dgx/rlist.py:61-62), one `get_envs` per job, the results paired with the job names
      into a dictionary (dgx/rlist.py:63-66). */
  function EnvsForAllRunningJobs(fetch: string -> string, parse: string -> Option<Bag>, cpus: nat, jobs: seq<string>): (r: Result<Env>)
    ensures jobs == [] || cpus == 0 ==> r == Err(EmptyPool)
    ensures r.Ok? ==> DistinctNames(r.value)
    ensures r.Ok? <==> jobs != [] && cpus > 0 && forall j :: j in jobs ==> GetEnvs(fetch, parse, j).Ok?
    ensures r.Err? && jobs != [] && cpus > 0 ==> r.error == BadDocument
  {
    if PoolSize(cpus, |jobs|) == 0 then
      assert jobs == [] || cpus == 0;
      Err(EmptyPool)
    else
      assert (forall j :: j in jobs ==> GetEnvs(fetch, parse, j).Ok?) <==>
        forall i :: 0 <= i < |jobs| ==> GetEnvs(fetch, parse, jobs[i]).Ok?;
      var results :- FetchAll(fetch, parse, jobs);
      Ok(ZipDict(jobs, results))
  }

  /** The dictionary holds one item per running job name and nothing else; each job's item is
      its `get_envs` result, `[]` when the job's file was empty. */
  lemma EnvsForAllRunningJobsLookup(fetch: string -> string, parse: string -> Option<Bag>, cpus: nat, jobs: seq<string>)
    requires EnvsForAllRunningJobs(fetch, parse, cpus, jobs).Ok?
    ensures var env := EnvsForAllRunningJobs(fetch, parse, cpus, jobs).value;
      && (forall m :: Lookup(env, m).Some? <==> m in jobs)
      && (forall m :: m in jobs ==> Lookup(env, m) == Some(GetEnvs(fetch, parse, m).value))
      && (forall m :: m in jobs && fetch(m) == [] ==> Lookup(env, m) == Some([]))
      && (Frames.Distinct(jobs) ==> |env| == |jobs|)
  {
    var results := FetchAll(fetch, parse, jobs).value;
    ZipDictLookup(jobs, results);
  }

  /** Every key of every document, in dictionary order (dgx/rlist.py:83). */
  function NewColumns(env: Env): (cols: seq<string>)
    ensures forall k, i :: 0 <= k < |env| && 0 <= i < |env[k].bag| ==> env[k].bag[i].key in cols
    ensures forall c :: c in cols ==> exists k, i :: 0 <= k < |env| && 0 <= i < |env[k].bag| && env[k].bag[i].key == c
  {
    if env == [] then []
    else
      var rest := NewColumns(env[1..]);
      var keys := seq(|env[0].bag|, i requires 0 <= i < |env[0].bag| => env[0].bag[i].key);
      assert forall k :: 1 <= k < |env| ==> env[1..][k - 1] == env[k];
      forall k, i | 0 <= k < |env| && 0 <= i < |env[k].bag| ensures env[k].bag[i].key in keys + rest {
        if k == 0 {
          assert keys[i] == env[k].bag[i].key;
        } else {
          assert env[1..][k - 1].bag[i].key in rest;
        }
      }
      keys + rest
  }
}
