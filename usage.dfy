/**
 * The usage accumulator, `query_usage` (sbalance/sbalance.py:96-140): per
 * `(account, qos)` key, running per-TRES totals and an `elaspsed_mins`
 * total over the job rows of `sacct`.
 */
module Usage {
  import opened Wrappers
  import opened Text
  import opened Records
  import opened Tres

  /** One row of `sacct -aPX --noheader --noconvert
      --format=jobid,user,account,qos,state,alloctres,elapsedraw,partition`. */
  datatype UsageRow = UsageRow(jobid: string, user: string, account: string, qos: string,
                               state: string, alloctres: string, elapsedraw: string, partition: string)

  /** A usage entry: the TRES totals and the `elaspsed_mins` total. */
  datatype UsageEntry = UsageEntry(tres: map<string, int>, elapsedMins: real)

  type UsageTable = map<Key, UsageEntry>

  /** `int(elapsedraw) / 60.0`, exactly. */
  function Minutes(seconds: int): real
  {
    (seconds as real) / 60.0
  }

  /** `math.ceil(value * elapsed_mins)`: the job's charge for one TRES, the
      least integer not below `value * seconds / 60`. */
  function JobCharge(value: int, seconds: int): (c: int)
    ensures (c - 1) as real < (value as real) * Minutes(seconds) <= c as real
  {
    var n := value * seconds;
    var c := (n + 59) / 60;
    assert 60 * c <= n + 59 < 60 * c + 60;
    assert (value as real) * Minutes(seconds) == (n as real) / 60.0;
    c
  }

  /** The inner loop `for tres in alloc_tres` on an existing entry: a TRES
      whose total is present and non-zero gets the charge added; a TRES that
      is absent (or whose total is 0) is set to the charge; every other TRES
      keeps its total. */
  function Accumulate(totals: map<string, int>, alloc: map<string, int>, seconds: int): (r: map<string, int>)
    ensures r.Keys == totals.Keys + alloc.Keys
    ensures forall t :: t in alloc ==> r[t] == (if t in totals then totals[t] else 0) + JobCharge(alloc[t], seconds)
    ensures forall t :: t in totals && t !in alloc ==> r[t] == totals[t]
  {
    map t | t in totals.Keys + alloc.Keys ::
      if t !in alloc then totals[t]
      else if t in totals && totals[t] != 0 then totals[t] + JobCharge(alloc[t], seconds)
      else JobCharge(alloc[t], seconds)
  }

  /** One accepted job, after parsing: the first job of a key stores its
      allocation as is; a later job adds its charges. */
  function AddJob(u: UsageTable, key: Key, alloc: map<string, int>, seconds: int): (v: UsageTable)
    ensures key !in u ==> key in v && v[key] == UsageEntry(alloc, Minutes(seconds))
    ensures key in u ==> key in v && v[key].elapsedMins == u[key].elapsedMins + Minutes(seconds)
    ensures key in u ==> v[key].tres.Keys == u[key].tres.Keys + alloc.Keys
    ensures key in u ==> forall t :: t in alloc ==>
      v[key].tres[t] == (if t in u[key].tres then u[key].tres[t] else 0) + JobCharge(alloc[t], seconds)
    ensures key in u ==> forall t :: t in u[key].tres && t !in alloc ==> v[key].tres[t] == u[key].tres[t]
    ensures forall k :: k != key ==> (k in v <==> k in u) && (k in u ==> v[k] == u[k])
  {
    if key in u then
      u[key := UsageEntry(Accumulate(u[key].tres, alloc, seconds), u[key].elapsedMins + Minutes(seconds))]
    else
      u[key := UsageEntry(alloc, Minutes(seconds))]
  }

  /** The two parses of a job row: its `alloctres` (every `M` removed),
      then its `elapsedraw`; a bad `alloctres` is raised before the
      `elapsedraw` is looked at. */
  function ParseJob(row: UsageRow): (r: Result<(map<string, int>, int), Error>)
    ensures ParseTres(row.alloctres, true).Failure? ==> r == Failure(ParseTres(row.alloctres, true).error)
    ensures r.Success? ==> ParseTres(row.alloctres, true) == Success(r.value.0) && r.value.0 != map[]
    ensures r.Success? ==> ParseInt(row.elapsedraw) == Some(r.value.1)
    ensures ParseTres(row.alloctres, true).Success? && ParseInt(row.elapsedraw).None? ==>
      r == Failure(NotAnInteger(row.elapsedraw))
  {
    match ParseTres(row.alloctres, true)
    case Failure(e) => Failure(e)
    case Success(alloc) =>
      match ParseInt(row.elapsedraw)
      case None => Failure(NotAnInteger(row.elapsedraw))
      case Some(seconds) => Success((alloc, seconds))
  }

  /** One turn of the loop of `query_usage`. */
  function AddUsageRow(u: UsageTable, row: UsageRow): (r: Result<UsageTable, Error>)
    ensures row.alloctres == [] ==> r == Success(u)
    ensures r.Success? ==> forall k :: k != Key(row.account, row.qos) ==>
      (k in r.value <==> k in u) && (k in u ==> r.value[k] == u[k])
    ensures r.Success? && row.alloctres != [] ==> Key(row.account, row.qos) in r.value
  {
    if row.alloctres == [] then Success(u)
    else
      match ParseJob(row)
      case Failure(e) => Failure(e)
      case Success(job) => Success(AddJob(u, Key(row.account, row.qos), job.0, job.1))
  }

  /** The table `query_usage` returns for `rows`, or the error it raises:
      its keys are those of the rows with an `alloctres`. */
  function UsageTotals(rows: seq<UsageRow>): (r: Result<UsageTable, Error>)
    ensures r.Success? ==> KeysFromRows(r.value, rows)
    decreases |rows|
  {
    if rows == [] then Success(map[])
    else
      var init, last := rows[..|rows| - 1], rows[|rows| - 1];
      assert rows == init + [last];
      match UsageTotals(init)
      case Failure(e) => Failure(e)
      case Success(u) =>
        var r := AddUsageRow(u, last);
        if r.Success? then KeysStep(init, last, u, r.value); r else r
  }

  /** The keys of a table built from rows with an `alloctres`: those rows' keys. */
  ghost predicate KeysFromRows(u: UsageTable, rows: seq<UsageRow>)
  {
    forall k :: k in u <==> exists row :: row in rows && row.alloctres != [] && Key(row.account, row.qos) == k
  }

  /** One more row keeps the keys of the table those of the rows with an `alloctres`. */
  lemma KeysStep(init: seq<UsageRow>, last: UsageRow, u: UsageTable, v: UsageTable)
    requires KeysFromRows(u, init)
    requires forall k :: k != Key(last.account, last.qos) ==> (k in v <==> k in u)
    requires last.alloctres != [] ==> Key(last.account, last.qos) in v
    requires last.alloctres == [] ==> v == u
    ensures KeysFromRows(v, init + [last])
  {
    var rows := init + [last];
    forall k
      ensures k in v <==> exists row :: row in rows && row.alloctres != [] && Key(row.account, row.qos) == k
    {
      if k in v && (last.alloctres == [] || k != Key(last.account, last.qos)) {
        var row :| row in init && row.alloctres != [] && Key(row.account, row.qos) == k;
        assert row in rows;
      }
    }
  }

  /** `query_usage` on already-split rows. */
  method QueryUsage(rows: seq<UsageRow>) returns (r: Result<UsageTable, Error>)
    ensures r == UsageTotals(rows)
  {
    var usage: UsageTable := map[];
    var i := 0;
    while i < |rows|
      invariant 0 <= i <= |rows|
      invariant UsageTotals(rows[..i]) == Success(usage)
    {
      TotalsSnoc(rows, i);
      var step := AddRowStep(usage, rows[i]);
      if step.Failure? {
        UsageFailureSticks(rows, i + 1);
        return step;
      }
      usage := step.value;
      i := i + 1;
    }
    assert rows[..i] == rows;
    r := Success(usage);
  }

  /** The body of the loop of `query_usage` for one row: skip a row
      without `alloctres`, parse its job (raising on a bad value), then
      store the job under a new key or add it to the key's entry. */
  method AddRowStep(usage: UsageTable, row: UsageRow) returns (r: Result<UsageTable, Error>)
    ensures r == AddUsageRow(usage, row)
  {
    if row.alloctres == [] {
      return Success(usage);
    }
    var parsed := ParseTres(row.alloctres, true);
    if parsed.Failure? {
      return Failure(parsed.error);
    }
    var alloc := parsed.value;
    var elapsed := ParseInt(row.elapsedraw);
    if elapsed.None? {
      return Failure(NotAnInteger(row.elapsedraw));
    }
    var seconds := elapsed.value;
    assert ParseJob(row) == Success((alloc, seconds));
    AddUsageRowOfJob(usage, row, alloc, seconds);
    var key := Key(row.account, row.qos);
    if key in usage {
      var totals := AccumulateTres(usage[key].tres, alloc, seconds);
      AddJobToEntry(usage, key, alloc, seconds, totals);
      r := Success(usage[key := UsageEntry(totals, usage[key].elapsedMins + Minutes(seconds))]);
    } else {
      r := Success(usage[key := UsageEntry(alloc, Minutes(seconds))]);
    }
  }

  /** A later job of a key replaces its entry by the accumulated totals
      and the summed minutes. */
  lemma AddJobToEntry(u: UsageTable, key: Key, alloc: map<string, int>, seconds: int, totals: map<string, int>)
    requires key in u && totals == Accumulate(u[key].tres, alloc, seconds)
    ensures AddJob(u, key, alloc, seconds) == u[key := UsageEntry(totals, u[key].elapsedMins + Minutes(seconds))]
  {
  }

  /** The run over one more row is one more turn of the loop. */
  lemma TotalsSnoc(rows: seq<UsageRow>, i: int)
    requires 0 <= i < |rows| && UsageTotals(rows[..i]).Success?
    ensures UsageTotals(rows[..i + 1]) == AddUsageRow(UsageTotals(rows[..i]).value, rows[i])
  {
    assert rows[..i + 1][..i] == rows[..i];
  }

  /** The inner loop over the job's TRES, one TRES at a time. */
  method AccumulateTres(totals0: map<string, int>, alloc: map<string, int>, seconds: int)
    returns (totals: map<string, int>)
    ensures totals == Accumulate(totals0, alloc, seconds)
  {
    totals := totals0;
    var pending := alloc.Keys;
    while pending != {}
      invariant pending <= alloc.Keys
      invariant forall t :: t in totals <==> t in totals0 || (t in alloc && t !in pending)
      invariant forall t :: t in totals ==>
        totals[t] == if t in alloc && t !in pending then Accumulate(totals0, alloc, seconds)[t] else totals0[t]
      decreases pending
    {
      var t :| t in pending;
      if t in totals && totals[t] != 0 {
        totals := totals[t := totals[t] + JobCharge(alloc[t], seconds)];
      } else {
        totals := totals[t := JobCharge(alloc[t], seconds)];
      }
      pending := pending - {t};
    }
    assert totals.Keys == Accumulate(totals0, alloc, seconds).Keys;
  }

  /** A failure after a prefix of the rows is the failure of the whole run. */
  lemma {:induction false} UsageFailureSticks(rows: seq<UsageRow>, n: int)
    requires 0 <= n <= |rows| && UsageTotals(rows[..n]).Failure?
    ensures UsageTotals(rows) == UsageTotals(rows[..n])
    decreases |rows| - n
  {
    if n < |rows| {
      assert rows[..n + 1][..n] == rows[..n];
      UsageFailureSticks(rows, n + 1);
    } else {
      assert rows[..n] == rows;
    }
  }

  /** The rows `query_usage` does not skip: those with a non-empty `alloctres`. */
  function Billed(rows: seq<UsageRow>): (billed: seq<UsageRow>)
    ensures forall r :: r in billed <==> r in rows && r.alloctres != []
    decreases |rows|
  {
    if rows == [] then []
    else if rows[|rows| - 1].alloctres == [] then Billed(rows[..|rows| - 1])
    else Billed(rows[..|rows| - 1]) + [rows[|rows| - 1]]
  }

  /** The kept rows keep their order: filtering distributes over
      concatenation, one row at a time. */
  lemma {:induction false} BilledAppend(rows1: seq<UsageRow>, rows2: seq<UsageRow>)
    ensures Billed(rows1 + rows2) == Billed(rows1) + Billed(rows2)
    decreases |rows2|
  {
    if rows2 == [] {
      assert rows1 + rows2 == rows1;
    } else {
      var init := rows2[..|rows2| - 1];
      assert (rows1 + rows2)[..|rows1 + rows2| - 1] == rows1 + init;
      BilledAppend(rows1, init);
    }
  }

  /** One row is kept exactly when it has an `alloctres`. */
  lemma BilledSingle(row: UsageRow)
    ensures Billed([row]) == if row.alloctres == [] then [] else [row]
  {
    assert [row][..0] == [];
  }

  /** Rows without an `alloctres` contribute nothing, not even an error. */
  lemma {:induction false} SkippedRowsIgnored(rows: seq<UsageRow>)
    ensures UsageTotals(rows) == UsageTotals(Billed(rows))
    decreases |rows|
  {
    if rows != [] {
      var init := rows[..|rows| - 1];
      SkippedRowsIgnored(init);
      if rows[|rows| - 1].alloctres != [] {
        var b := Billed(rows);
        assert b[..|b| - 1] == Billed(init);
      }
    }
  }

  /** A row whose parsed values are not negative. */
  predicate NonNegativeRow(row: UsageRow)
  {
    ParseJob(row).Success? ==>
      var job := ParseJob(row).value;
      job.1 >= 0 && forall t :: t in job.0 ==> job.0[t] >= 0
  }

  /** Every key, TRES and elapsed total of `small` is present in `big` and no larger there. */
  predicate Covers(big: UsageTable, small: UsageTable)
  {
    forall k :: k in small ==>
      && k in big
      && big[k].elapsedMins >= small[k].elapsedMins
      && forall t :: t in small[k].tres ==> t in big[k].tres && big[k].tres[t] >= small[k].tres[t]
  }

  lemma CoversTransitive(a: UsageTable, b: UsageTable, c: UsageTable)
    requires Covers(a, b) && Covers(b, c)
    ensures Covers(a, c)
  {
  }

  /** A job of non-negative size and length charges a non-negative amount. */
  lemma ChargeNonNegative(value: int, seconds: int)
    requires value >= 0 && seconds >= 0
    ensures JobCharge(value, seconds) >= 0
  {
    assert value * seconds >= 0;
  }

  /** One job of non-negative size and length lowers no total. */
  lemma JobGrows(u: UsageTable, key: Key, alloc: map<string, int>, seconds: int)
    requires seconds >= 0 && forall t :: t in alloc ==> alloc[t] >= 0
    ensures Covers(AddJob(u, key, alloc, seconds), u)
  {
    if key in u {
      forall t | t in alloc
        ensures JobCharge(alloc[t], seconds) >= 0
      {
        ChargeNonNegative(alloc[t], seconds);
      }
    }
  }

  /** One row with non-negative values lowers no total. */
  lemma StepGrows(u: UsageTable, row: UsageRow)
    requires NonNegativeRow(row) && AddUsageRow(u, row).Success?
    ensures Covers(AddUsageRow(u, row).value, u)
  {
    if row.alloctres != [] {
      var job := ParseJob(row).value;
      JobGrows(u, Key(row.account, row.qos), job.0, job.1);
    }
  }

  /** Totals only grow along the rows: every total after a prefix of the
      rows is at most the final one (for rows with non-negative values). */
  lemma {:induction false} TotalsGrow(rows: seq<UsageRow>, n: int)
    requires 0 <= n <= |rows|
    requires forall i :: 0 <= i < |rows| ==> NonNegativeRow(rows[i])
    requires UsageTotals(rows).Success?
    ensures UsageTotals(rows[..n]).Success?
    ensures Covers(UsageTotals(rows).value, UsageTotals(rows[..n]).value)
    decreases |rows| - n
  {
    if n == |rows| {
      assert rows[..n] == rows;
    } else {
      var init := rows[..|rows| - 1];
      assert init[..n] == rows[..n];
      TotalsGrow(init, n);
      StepGrows(UsageTotals(init).value, rows[|rows| - 1]);
      CoversTransitive(UsageTotals(rows).value, UsageTotals(init).value, UsageTotals(rows[..n]).value);
    }
  }

  /** The total of one TRES of one key, 0 when there is none. */
  function TotalOf(u: UsageTable, key: Key, t: string): int
  {
    if key in u && t in u[key].tres then u[key].tres[t] else 0
  }

  /** The intended step for every job, the first of its key included: each
      TRES total grows by the job's charge. */
  function CorrectedAddJob(u: UsageTable, key: Key, alloc: map<string, int>, seconds: int): (v: UsageTable)
    ensures key in v && v[key].tres.Keys == (if key in u then u[key].tres.Keys else {}) + alloc.Keys
    ensures forall k, t ::
      TotalOf(v, k, t) == TotalOf(u, k, t) + (if k == key && t in alloc then JobCharge(alloc[t], seconds) else 0)
  {
    var e := if key in u then u[key] else UsageEntry(map[], 0.0);
    var tres := map t | t in e.tres.Keys + alloc.Keys ::
      (if t in e.tres then e.tres[t] else 0) + (if t in alloc then JobCharge(alloc[t], seconds) else 0);
    u[key := UsageEntry(tres, e.elapsedMins + Minutes(seconds))]
  }

  function CorrectedAddUsageRow(u: UsageTable, row: UsageRow): Result<UsageTable, Error>
  {
    if row.alloctres == [] then Success(u)
    else
      match ParseJob(row)
      case Failure(e) => Failure(e)
      case Success(job) => Success(CorrectedAddJob(u, Key(row.account, row.qos), job.0, job.1))
  }

  /** `query_usage` with every job charged `ceil(value * minutes)`. */
  function CorrectedUsageTotals(rows: seq<UsageRow>): Result<UsageTable, Error>
    decreases |rows|
  {
    if rows == [] then Success(map[])
    else
      match CorrectedUsageTotals(rows[..|rows| - 1])
      case Failure(e) => Failure(e)
      case Success(u) => CorrectedAddUsageRow(u, rows[|rows| - 1])
  }

  /** What one row charges to one TRES of one key. */
  function RowCharge(row: UsageRow, key: Key, t: string): int
  {
    if row.alloctres == [] || Key(row.account, row.qos) != key then 0
    else
      match ParseJob(row)
      case Failure(_) => 0
      case Success(job) => if t in job.0 then JobCharge(job.0[t], job.1) else 0
  }

  /** The sum of the charges of the rows to one TRES of one key. */
  function ChargeSum(rows: seq<UsageRow>, key: Key, t: string): int
    decreases |rows|
  {
    if rows == [] then 0 else ChargeSum(rows[..|rows| - 1], key, t) + RowCharge(rows[|rows| - 1], key, t)
  }

  /** Corrected, every total is the sum of its jobs' charges. */
  lemma {:induction false} CorrectedTotalIsSum(rows: seq<UsageRow>, key: Key, t: string)
    requires CorrectedUsageTotals(rows).Success?
    ensures TotalOf(CorrectedUsageTotals(rows).value, key, t) == ChargeSum(rows, key, t)
    decreases |rows|
  {
    if rows != [] {
      CorrectedTotalIsSum(rows[..|rows| - 1], key, t);
    }
  }

  /** The charges of two batches of rows add up. */
  lemma {:induction false} ChargeSumAppend(rows1: seq<UsageRow>, rows2: seq<UsageRow>, key: Key, t: string)
    ensures ChargeSum(rows1 + rows2, key, t) == ChargeSum(rows1, key, t) + ChargeSum(rows2, key, t)
    decreases |rows2|
  {
    if rows2 == [] {
      assert rows1 + rows2 == rows1;
    } else {
      var init := rows2[..|rows2| - 1];
      assert (rows1 + rows2)[..|rows1 + rows2| - 1] == rows1 + init;
      ChargeSumAppend(rows1, init, key, t);
    }
  }

  /** The sum of the charges does not depend on the order of the rows. */
  lemma {:induction false} ChargeSumPerm(rows1: seq<UsageRow>, rows2: seq<UsageRow>, key: Key, t: string)
    requires multiset(rows1) == multiset(rows2)
    ensures ChargeSum(rows1, key, t) == ChargeSum(rows2, key, t)
    decreases |rows1|
  {
    if rows1 == [] {
      assert |rows2| == |multiset(rows2)| == 0;
    } else {
      var init := rows1[..|rows1| - 1];
      var x := rows1[|rows1| - 1];
      assert rows1 == init + [x];
      var before, after := RemoveOne(init, x, rows2);
      ChargeSumPerm(init, before + after, key, t);
      ChargeSumAppend(before, after, key, t);
      ChargeSumAppend(before + [x], after, key, t);
      ChargeSumAppend(before, [x], key, t);
      assert [x][..0] == [];
    }
  }

  /** A row of one sequence found in a permutation of it: the rest of the
      permutation is a permutation of the rest. */
  lemma RemoveOne<T>(init: seq<T>, x: T, rows: seq<T>) returns (before: seq<T>, after: seq<T>)
    requires multiset(init + [x]) == multiset(rows)
    ensures rows == before + [x] + after
    ensures multiset(init) == multiset(before + after)
  {
    assert multiset(init + [x]) == multiset(init) + multiset{x};
    assert x in multiset(rows);
    var j :| 0 <= j < |rows| && rows[j] == x;
    before, after := SplitAt(rows, j);
    MultisetCancel(multiset(init), multiset(before + after), x);
  }

  /** Cutting a sequence around its element at `j`. */
  lemma SplitAt<T>(rows: seq<T>, j: int) returns (before: seq<T>, after: seq<T>)
    requires 0 <= j < |rows|
    ensures rows == before + [rows[j]] + after
    ensures multiset(rows) == multiset(before + after) + multiset{rows[j]}
  {
    before, after := rows[..j], rows[j + 1..];
    assert rows == before + [rows[j]] + after;
  }

  /** Taking the same element from two multisets keeps them equal. */
  lemma MultisetCancel<T>(a: multiset<T>, b: multiset<T>, x: T)
    requires a + multiset{x} == b + multiset{x}
    ensures a == b
  {
    assert a == (a + multiset{x}) - multiset{x};
    assert b == (b + multiset{x}) - multiset{x};
  }

  /** A row the loop gets past: one without `alloctres`, or one whose job parses. */
  predicate Chargeable(row: UsageRow)
  {
    row.alloctres == [] || ParseJob(row).Success?
  }

  /** As written, the run raises exactly when some row is not chargeable. */
  lemma {:induction false} UsageSucceeds(rows: seq<UsageRow>)
    ensures UsageTotals(rows).Success? <==> forall r :: r in rows ==> Chargeable(r)
    decreases |rows|
  {
    if rows != [] {
      var init := rows[..|rows| - 1];
      var last := rows[|rows| - 1];
      assert rows == init + [last];
      UsageSucceeds(init);
      if UsageTotals(init).Success? {
        assert UsageTotals(rows) == AddUsageRow(UsageTotals(init).value, last);
        assert AddUsageRow(UsageTotals(init).value, last).Success? <==> Chargeable(last);
      }
    }
  }

  /** Corrected, the run raises exactly when some row is not chargeable. */
  lemma {:induction false} CorrectedSucceeds(rows: seq<UsageRow>)
    ensures CorrectedUsageTotals(rows).Success? <==> forall r :: r in rows ==> Chargeable(r)
    decreases |rows|
  {
    if rows != [] {
      var init := rows[..|rows| - 1];
      var last := rows[|rows| - 1];
      assert rows == init + [last];
      CorrectedSucceeds(init);
      if CorrectedUsageTotals(init).Success? {
        assert CorrectedUsageTotals(rows) == CorrectedAddUsageRow(CorrectedUsageTotals(init).value, last);
        assert CorrectedAddUsageRow(CorrectedUsageTotals(init).value, last).Success? <==> Chargeable(last);
      }
    }
  }

  /** Corrected, reordering the rows changes neither whether the run raises
      nor any total. */
  lemma CorrectedTotalsPermute(rows1: seq<UsageRow>, rows2: seq<UsageRow>)
    requires multiset(rows1) == multiset(rows2)
    ensures CorrectedUsageTotals(rows1).Success? <==> CorrectedUsageTotals(rows2).Success?
    ensures CorrectedUsageTotals(rows1).Success? ==> forall key, t ::
      TotalOf(CorrectedUsageTotals(rows1).value, key, t) == TotalOf(CorrectedUsageTotals(rows2).value, key, t)
  {
    CorrectedSucceeds(rows1);
    CorrectedSucceeds(rows2);
    assert forall r :: r in rows1 <==> r in multiset(rows1);
    assert forall r :: r in rows2 <==> r in multiset(rows2);
    if CorrectedUsageTotals(rows1).Success? {
      forall key, t
        ensures TotalOf(CorrectedUsageTotals(rows1).value, key, t) == TotalOf(CorrectedUsageTotals(rows2).value, key, t)
      {
        CorrectedTotalIsSum(rows1, key, t);
        CorrectedTotalIsSum(rows2, key, t);
        ChargeSumPerm(rows1, rows2, key, t);
      }
    }
  }

  /** As written and corrected, the run raises at the same row with the same error. */
  lemma {:induction false} FailsAlike(rows: seq<UsageRow>)
    ensures UsageTotals(rows).Failure? <==> CorrectedUsageTotals(rows).Failure?
    ensures UsageTotals(rows).Failure? ==> UsageTotals(rows) == CorrectedUsageTotals(rows)
    decreases |rows|
  {
    if rows != [] {
      FailsAlike(rows[..|rows| - 1]);
    }
  }

  /** Two tables with the same keys, each key with the same TRES. */
  predicate SameShape(u: UsageTable, v: UsageTable)
  {
    u.Keys == v.Keys && forall k :: k in u ==> u[k].tres.Keys == v[k].tres.Keys
  }

  /** The correction changes totals only: the keys and the TRES of each key
      are those of the code as written. */
  lemma {:induction false} TotalsSameShape(rows: seq<UsageRow>)
    requires UsageTotals(rows).Success? && CorrectedUsageTotals(rows).Success?
    ensures SameShape(UsageTotals(rows).value, CorrectedUsageTotals(rows).value)
    decreases |rows|
  {
    if rows != [] {
      var init := rows[..|rows| - 1];
      var row := rows[|rows| - 1];
      TotalsSameShape(init);
      var u, v := UsageTotals(init).value, CorrectedUsageTotals(init).value;
      if row.alloctres != [] {
        var job := ParseJob(row).value;
        AddUsageRowOfJob(u, row, job.0, job.1);
        CorrectedAddUsageRowOfJob(v, row, job.0, job.1);
        JobSameShape(u, v, Key(row.account, row.qos), job.0, job.1);
      }
    }
  }

  /** One job, as written and corrected, adds the same key and the same TRES. */
  lemma JobSameShape(u: UsageTable, v: UsageTable, key: Key, alloc: map<string, int>, seconds: int)
    requires SameShape(u, v)
    ensures SameShape(AddJob(u, key, alloc, seconds), CorrectedAddJob(v, key, alloc, seconds))
  {
    var u', v' := AddJob(u, key, alloc, seconds), CorrectedAddJob(v, key, alloc, seconds);
    assert u'.Keys == u.Keys + {key} && v'.Keys == v.Keys + {key};
  }

  /** After the first job of a key, the code as written and the corrected
      step agree: the two differ on the first job only. */
  lemma CorrectedAgreesLater(u: UsageTable, key: Key, alloc: map<string, int>, seconds: int)
    requires key in u
    ensures CorrectedAddJob(u, key, alloc, seconds) == AddJob(u, key, alloc, seconds)
  {
    var c := CorrectedAddJob(u, key, alloc, seconds);
    var a := AddJob(u, key, alloc, seconds);
    assert c[key].tres == a[key].tres;
  }

  /** A row that parses is one AddJob step. */
  lemma AddUsageRowOfJob(u: UsageTable, row: UsageRow, alloc: map<string, int>, seconds: int)
    requires row.alloctres != [] && ParseJob(row) == Success((alloc, seconds))
    ensures AddUsageRow(u, row) == Success(AddJob(u, Key(row.account, row.qos), alloc, seconds))
  {
  }

  /** The same, corrected. */
  lemma CorrectedAddUsageRowOfJob(u: UsageTable, row: UsageRow, alloc: map<string, int>, seconds: int)
    requires row.alloctres != [] && ParseJob(row) == Success((alloc, seconds))
    ensures CorrectedAddUsageRow(u, row) == Success(CorrectedAddJob(u, Key(row.account, row.qos), alloc, seconds))
  {
  }

  /** Two rows, each one step of the loop: the run is the two steps in order. */
  lemma TwoRowTotals(first: UsageRow, second: UsageRow, u1: UsageTable, u2: UsageTable)
    requires AddUsageRow(map[], first) == Success(u1) && AddUsageRow(u1, second) == Success(u2)
    ensures UsageTotals([first, second]) == Success(u2)
  {
    var rows := [first, second];
    assert rows[..1] == [first] && [first][..0] == [];
    assert UsageTotals([first]) == Success(u1);
  }

  /** The same, corrected. */
  lemma TwoRowCorrectedTotals(first: UsageRow, second: UsageRow, u1: UsageTable, u2: UsageTable)
    requires CorrectedAddUsageRow(map[], first) == Success(u1) && CorrectedAddUsageRow(u1, second) == Success(u2)
    ensures CorrectedUsageTotals([first, second]) == Success(u2)
  {
    var rows := [first, second];
    assert rows[..1] == [first] && [first][..0] == [];
    assert CorrectedUsageTotals([first]) == Success(u1);
  }

  /** The charges of the two jobs of the example. */
  lemma ExampleCharges()
    ensures JobCharge(10, 600) == 100 && JobCharge(20, 1200) == 400
  {
  }

  lemma ExampleAsWritten(key: Key)
    ensures AddJob(AddJob(map[], key, map["billing" := 10], 600), key, map["billing" := 20], 1200)
            == map[key := UsageEntry(map["billing" := 410], 30.0)]
    ensures AddJob(AddJob(map[], key, map["billing" := 20], 1200), key, map["billing" := 10], 600)
            == map[key := UsageEntry(map["billing" := 120], 30.0)]
  {
    ExampleCharges();
    var a := AddJob(map[key := UsageEntry(map["billing" := 10], 10.0)], key, map["billing" := 20], 1200);
    assert a[key].tres == map["billing" := 410];
    var b := AddJob(map[key := UsageEntry(map["billing" := 20], 20.0)], key, map["billing" := 10], 600);
    assert b[key].tres == map["billing" := 120];
  }

  lemma ExampleCorrected(key: Key)
    ensures CorrectedAddJob(CorrectedAddJob(map[], key, map["billing" := 10], 600), key, map["billing" := 20], 1200)
            == map[key := UsageEntry(map["billing" := 500], 30.0)]
  {
    ExampleCharges();
    var c := CorrectedAddJob(map[], key, map["billing" := 10], 600);
    assert c[key].tres == map["billing" := 100];
    assert c == map[key := UsageEntry(map["billing" := 100], 10.0)];
    var c2 := CorrectedAddJob(c, key, map["billing" := 20], 1200);
    assert c2[key].tres == map["billing" := 500];
  }

  /** Two jobs of one key, 10 billing for 600 s then 20 billing for 1200 s:
      as written the total is 10 + 400 = 410, where every job charged gives
      100 + 400 = 500; in the other order the code gives 20 + 100 = 120. */
  lemma FirstJobUnscaled(account: string, qos: string)
    ensures
      var key := Key(account, qos);
      var first := UsageRow("1", "alice", account, qos, "COMPLETED", PairText(("billing", 10)), IntToString(600), "batch");
      var second := UsageRow("2", "alice", account, qos, "COMPLETED", PairText(("billing", 20)), IntToString(1200), "batch");
      && UsageTotals([first, second]) == Success(map[key := UsageEntry(map["billing" := 410], 30.0)])
      && UsageTotals([second, first]) == Success(map[key := UsageEntry(map["billing" := 120], 30.0)])
      && CorrectedUsageTotals([first, second]) == Success(map[key := UsageEntry(map["billing" := 500], 30.0)])
  {
    var key := Key(account, qos);
    var first := UsageRow("1", "alice", account, qos, "COMPLETED", PairText(("billing", 10)), IntToString(600), "batch");
    var second := UsageRow("2", "alice", account, qos, "COMPLETED", PairText(("billing", 20)), IntToString(1200), "batch");
    var a1, a2 := map["billing" := 10], map["billing" := 20];
    FirstJobParses(first, 10, 600);
    FirstJobParses(second, 20, 1200);
    var u1 := AddJob(map[], key, a1, 600);
    AddUsageRowOfJob(map[], first, a1, 600);
    AddUsageRowOfJob(u1, second, a2, 1200);
    TwoRowTotals(first, second, u1, AddJob(u1, key, a2, 1200));
    var v1 := AddJob(map[], key, a2, 1200);
    AddUsageRowOfJob(map[], second, a2, 1200);
    AddUsageRowOfJob(v1, first, a1, 600);
    TwoRowTotals(second, first, v1, AddJob(v1, key, a1, 600));
    var c1 := CorrectedAddJob(map[], key, a1, 600);
    CorrectedAddUsageRowOfJob(map[], first, a1, 600);
    CorrectedAddUsageRowOfJob(c1, second, a2, 1200);
    TwoRowCorrectedTotals(first, second, c1, CorrectedAddJob(c1, key, a2, 1200));
    ExampleAsWritten(key);
    ExampleCorrected(key);
  }

  /** A row printing one billing value and a number of seconds parses to them. */
  lemma FirstJobParses(row: UsageRow, billing: int, seconds: int)
    requires row.alloctres == PairText(("billing", billing)) && row.elapsedraw == IntToString(seconds)
    ensures row.alloctres != [] && ParseJob(row) == Success((map["billing" := billing], seconds))
  {
    assert PlainName("billing");
    ParseSinglePair(("billing", billing), true);
    ParseIntToString(seconds);
  }
}
