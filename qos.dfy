/**
 * The QoS catalog builder, `query_qos` (sbalance/sbalance.py:38-58): of the
 * rows of `sacctmgr show qos`, keep those flagged `NoDecay` and parse their
 * `grptresmins` into a TRES-to-minutes record.
 */
module Qos {
  import opened Wrappers
  import opened Text
  import opened Records
  import opened Tres

  const NoDecayFlag := "NoDecay"

  /** One row of `sacctmgr --noheader show qos -P format=name,grptresmins,flags`. */
  datatype QosRow = QosRow(name: string, grptresmins: string, flags: string)

  /** `'NoDecay' in flags.split(',')`: a field holding a single flag
      qualifies exactly when that flag is `NoDecay`. */
  predicate HasNoDecay(flags: string)
    ensures ',' !in flags ==> (HasNoDecay(flags) <==> flags == NoDecayFlag)
  {
    JoinSplit(flags, ',');
    NoDecayFlag in Split(flags, ',')
  }

  /** For a flag list written out with commas, the test is exact membership
      of the flag `NoDecay`: no substring, prefix or case-folded match. */
  lemma NoDecayAmongFlags(flags: seq<string>)
    requires |flags| >= 1 && forall i :: 0 <= i < |flags| ==> ',' !in flags[i]
    ensures HasNoDecay(Join(flags, ',')) <==> NoDecayFlag in flags
  {
    SplitJoin(flags, ',');
  }

  /** What the loop of `query_qos` takes from one row: its name, whether it
      is flagged `NoDecay`, and the parse of its `grptresmins`. */
  datatype Outcome = Outcome(name: string, flagged: bool, parsed: Result<map<string, int>, Error>)

  function OutcomeOf(row: QosRow): Outcome
  {
    Outcome(row.name, HasNoDecay(row.flags), ParseTres(row.grptresmins, false))
  }

  function Outcomes(rows: seq<QosRow>): (outs: seq<Outcome>)
    ensures |outs| == |rows|
    ensures forall i :: 0 <= i < |rows| ==> outs[i] == OutcomeOf(rows[i])
  {
    seq(|rows|, i requires 0 <= i < |rows| => OutcomeOf(rows[i]))
  }

  /** One turn of the loop on the catalog built so far: an unflagged row is
      passed over, a flagged row's record is filed under its name, and a
      flagged row that does not parse aborts. */
  function AddOutcome(m: map<string, map<string, int>>, o: Outcome): Result<map<string, map<string, int>>, Error>
  {
    if !o.flagged then Success(m)
    else
      match o.parsed
      case Failure(e) => Failure(e)
      case Success(t) => Success(m[o.name := t])
  }

  /** The loop over the outcomes of the rows, in order. */
  function Load(outs: seq<Outcome>): Result<map<string, map<string, int>>, Error>
    decreases |outs|
  {
    if outs == [] then Success(map[])
    else
      match Load(outs[..|outs| - 1])
      case Failure(e) => Failure(e)
      case Success(m) => AddOutcome(m, outs[|outs| - 1])
  }

  /** The catalog `query_qos` returns, as values: rows are taken in order,
      a row without `NoDecay` is passed over, a flagged row's record replaces
      any earlier one of the same name, and the first flagged row whose
      `grptresmins` does not parse aborts the load. */
  function QosCatalog(rows: seq<QosRow>): (r: Result<map<string, map<string, int>>, Error>)
    ensures r.Success? ==> forall name :: name in r.value ==> r.value[name] != map[]
  {
    var outs := Outcomes(rows);
    LoadNonEmpty(outs);
    Load(outs)
  }

  /** The loop files parsed records only, and a parsed record is never empty. */
  lemma {:induction false} LoadNonEmpty(outs: seq<Outcome>)
    requires forall i :: 0 <= i < |outs| && outs[i].parsed.Success? ==> outs[i].parsed.value != map[]
    ensures Load(outs).Success? ==> forall name :: name in Load(outs).value ==> Load(outs).value[name] != map[]
    decreases |outs|
  {
    if outs != [] {
      LoadNonEmpty(outs[..|outs| - 1]);
    }
  }

  /** A flagged row whose `grptresmins` does not parse. */
  predicate Unloadable(row: QosRow)
  {
    HasNoDecay(row.flags) && ParseTres(row.grptresmins, false).Failure?
  }

  lemma {:induction false} LoadFails(outs: seq<Outcome>)
    ensures Load(outs).Failure? <==> exists i :: 0 <= i < |outs| && outs[i].flagged && outs[i].parsed.Failure?
    decreases |outs|
  {
    if outs != [] {
      var prefix := outs[..|outs| - 1];
      var last := outs[|outs| - 1];
      LoadFails(prefix);
      if Load(prefix).Failure? {
        var i :| 0 <= i < |prefix| && prefix[i].flagged && prefix[i].parsed.Failure?;
        assert outs[i] == prefix[i];
      } else if !(last.flagged && last.parsed.Failure?) {
        forall i | 0 <= i < |outs| ensures !(outs[i].flagged && outs[i].parsed.Failure?) {
          if i < |prefix| {
            assert outs[i] == prefix[i];
          }
        }
      }
    }
  }

  /** The load fails exactly when some flagged row's `grptresmins` does not parse. */
  lemma CatalogFails(rows: seq<QosRow>)
    ensures QosCatalog(rows).Failure? <==> exists i :: 0 <= i < |rows| && Unloadable(rows[i])
  {
    var outs := Outcomes(rows);
    LoadFails(outs);
    if QosCatalog(rows).Failure? {
      var i :| 0 <= i < |outs| && outs[i].flagged && outs[i].parsed.Failure?;
      assert Unloadable(rows[i]);
    } else {
      forall i | 0 <= i < |rows| ensures !Unloadable(rows[i]) {
        assert !(outs[i].flagged && outs[i].parsed.Failure?);
      }
    }
  }

  lemma {:induction false} LoadMembers(outs: seq<Outcome>, name: string)
    requires Load(outs).Success?
    ensures name in Load(outs).value <==> exists i :: 0 <= i < |outs| && outs[i].name == name && outs[i].flagged
    decreases |outs|
  {
    if outs != [] {
      var prefix := outs[..|outs| - 1];
      LoadMembers(prefix, name);
      assert forall i :: 0 <= i < |prefix| ==> prefix[i] == outs[i];
    }
  }

  /** Catalog membership is gated by the flag: a name is catalogued exactly
      when some row of that name carries `NoDecay`. */
  lemma CatalogMembers(rows: seq<QosRow>, name: string)
    requires QosCatalog(rows).Success?
    ensures name in QosCatalog(rows).value <==>
      exists i :: 0 <= i < |rows| && rows[i].name == name && HasNoDecay(rows[i].flags)
  {
    var outs := Outcomes(rows);
    LoadMembers(outs, name);
    if name in QosCatalog(rows).value {
      var i :| 0 <= i < |outs| && outs[i].name == name && outs[i].flagged;
      assert rows[i].name == name && HasNoDecay(rows[i].flags);
    } else {
      forall i | 0 <= i < |rows| ensures !(rows[i].name == name && HasNoDecay(rows[i].flags)) {
        assert !(outs[i].name == name && outs[i].flagged);
      }
    }
  }

  lemma {:induction false} LoadLastWins(outs: seq<Outcome>, i: int)
    requires Load(outs).Success?
    requires 0 <= i < |outs| && outs[i].flagged
    requires forall j :: i < j < |outs| && outs[j].flagged ==> outs[j].name != outs[i].name
    ensures outs[i].parsed.Success?
    ensures outs[i].name in Load(outs).value && Load(outs).value[outs[i].name] == outs[i].parsed.value
    decreases |outs|
  {
    var prefix := outs[..|outs| - 1];
    if i < |outs| - 1 {
      assert prefix[i] == outs[i];
      assert forall j :: i < j < |prefix| ==> prefix[j] == outs[j];
      LoadLastWins(prefix, i);
    }
  }

  /** A catalogued record is the parse of the last flagged row of its name. */
  lemma CatalogLastRowWins(rows: seq<QosRow>, i: int)
    requires QosCatalog(rows).Success?
    requires 0 <= i < |rows| && HasNoDecay(rows[i].flags)
    requires forall j :: i < j < |rows| && HasNoDecay(rows[j].flags) ==> rows[j].name != rows[i].name
    ensures ParseTres(rows[i].grptresmins, false).Success?
    ensures rows[i].name in QosCatalog(rows).value
    ensures QosCatalog(rows).value[rows[i].name] == ParseTres(rows[i].grptresmins, false).value
  {
    var outs := Outcomes(rows);
    forall j | i < j < |outs| && outs[j].flagged ensures outs[j].name != outs[i].name {
      assert HasNoDecay(rows[j].flags);
    }
    LoadLastWins(outs, i);
  }

  lemma {:induction false} LoadFailureSticks(outs: seq<Outcome>, n: int)
    requires 0 <= n <= |outs| && Load(outs[..n]).Failure?
    ensures Load(outs) == Load(outs[..n])
    decreases |outs| - n
  {
    if n < |outs| {
      assert outs[..n + 1][..n] == outs[..n];
      LoadFailureSticks(outs, n + 1);
    } else {
      assert outs[..n] == outs;
    }
  }

  /** Distinct names hold distinct record objects. */
  ghost predicate DistinctRecords(catalog: map<string, QosRecord>)
  {
    forall a, b :: a in catalog && b in catalog && a != b ==> catalog[a] != catalog[b]
  }

  /** `query_qos` on already-split rows: one fresh record per catalogued
      name, holding the parsed TRES minutes and no `default` entry yet. */
  method QueryQos(rows: seq<QosRow>) returns (r: Result<map<string, QosRecord>, Error>)
    ensures r.Failure? <==> QosCatalog(rows).Failure?
    ensures r.Failure? ==> r.error == QosCatalog(rows).error
    ensures r.Success? ==>
      && r.value.Keys == QosCatalog(rows).value.Keys
      && DistinctRecords(r.value)
      && forall n :: n in r.value ==>
           fresh(r.value[n]) && r.value[n].tres == QosCatalog(rows).value[n] && r.value[n].default == Unset
  {
    var catalog: map<string, QosRecord> := map[];
    ghost var m: map<string, map<string, int>> := map[];
    var i := 0;
    assert rows[..0] == [];
    while i < |rows|
      invariant 0 <= i <= |rows|
      invariant QosCatalog(rows[..i]) == Success(m)
      invariant Holds(catalog, m)
      invariant forall n :: n in catalog ==> fresh(catalog[n])
    {
      var step := FileRow(catalog, m, rows, i);
      if step.Failure? {
        CatalogFailureSticks(rows, i + 1);
        return Failure(step.error);
      }
      catalog := step.value;
      m := QosCatalog(rows[..i + 1]).value;
      i := i + 1;
    }
    assert rows[..i] == rows;
    r := Success(catalog);
  }

  /** The load of one more row is one more turn of the loop. */
  lemma CatalogStep(rows: seq<QosRow>, i: int)
    requires 0 <= i < |rows| && QosCatalog(rows[..i]).Success?
    ensures QosCatalog(rows[..i + 1]) == AddOutcome(QosCatalog(rows[..i]).value, OutcomeOf(rows[i]))
  {
    var outs := Outcomes(rows[..i + 1]);
    assert outs[..i] == Outcomes(rows[..i]);
  }

  /** A failure after a prefix of the rows is the failure of the whole load. */
  lemma CatalogFailureSticks(rows: seq<QosRow>, n: int)
    requires 0 <= n <= |rows| && QosCatalog(rows[..n]).Failure?
    ensures QosCatalog(rows) == QosCatalog(rows[..n])
  {
    assert Outcomes(rows)[..n] == Outcomes(rows[..n]);
    LoadFailureSticks(Outcomes(rows), n);
  }

  /** The records `catalog` stand for the catalog `m`: same names, one
      record per name, holding its minutes and no `default` entry. */
  ghost predicate Holds(catalog: map<string, QosRecord>, m: map<string, map<string, int>>)
    reads catalog.Values
  {
    && catalog.Keys == m.Keys
    && DistinctRecords(catalog)
    && forall n :: n in catalog ==> catalog[n].tres == m[n] && catalog[n].default == Unset
  }

  /** One turn of the loop of `query_qos` on the records: a row without
      `NoDecay` is passed over; a flagged row's `grptresmins` is parsed and
      filed under its name in a new record. */
  method FileRow(catalog: map<string, QosRecord>, ghost m: map<string, map<string, int>>, rows: seq<QosRow>, i: int)
    returns (r: Result<map<string, QosRecord>, Error>)
    requires 0 <= i < |rows| && QosCatalog(rows[..i]) == Success(m)
    requires Holds(catalog, m)
    ensures r.Failure? <==> QosCatalog(rows[..i + 1]).Failure?
    ensures r.Failure? ==> r.error == QosCatalog(rows[..i + 1]).error
    ensures r.Success? ==> Holds(r.value, QosCatalog(rows[..i + 1]).value)
    ensures r.Success? ==> forall n :: n in r.value ==> (n in catalog && r.value[n] == catalog[n]) || fresh(r.value[n])
  {
    CatalogStep(rows, i);
    var row := rows[i];
    if !HasNoDecay(row.flags) {
      assert OutcomeOf(row) == Outcome(row.name, false, ParseTres(row.grptresmins, false));
      return Success(catalog);
    }
    var t := ParseTres(row.grptresmins, false);
    assert OutcomeOf(row) == Outcome(row.name, true, t);
    r := FileParsed(catalog, m, row.name, t);
  }

  /** Filing the parse of a flagged row: a new record under its name, or
      the parse's error. */
  method FileParsed(catalog: map<string, QosRecord>, ghost m: map<string, map<string, int>>, name: string,
                    t: Result<map<string, int>, Error>)
    returns (r: Result<map<string, QosRecord>, Error>)
    requires Holds(catalog, m)
    ensures r.Failure? <==> t.Failure?
    ensures r.Failure? ==> r.error == t.error
    ensures r.Success? ==> Holds(r.value, m[name := t.value])
    ensures r.Success? ==> forall n :: n in r.value ==> (n in catalog && r.value[n] == catalog[n]) || fresh(r.value[n])
  {
    if t.Failure? {
      return Failure(t.error);
    }
    var rec := new QosRecord(t.value);
    r := Success(catalog[name := rec]);
  }
}
