/**
 * The report of `print_user_balance` (sbalance/sbalance.py:142-179): for each
 * association, its heading and either `unlimited` or the allocation, the
 * usage, the remaining balance and its percentage, in SU, kSU or MSU.
 */
module Balance {
  import opened Wrappers
  import opened Records
  import opened Usage

  /** The divisor of the `-k` and `-m` options: SU, kSU (1,000 SU) or MSU
      (1,000,000 SU). */
  function UnitFactor(units: string): (f: real)
    ensures f >= 1.0
    ensures units == "k" ==> f == 1000.0
    ensures units == "m" ==> f == 1000000.0
    ensures units != "k" && units != "m" ==> f == 1.0
  {
    if units == "k" then 1.0e3 else if units == "m" then 1.0e6 else 1.0
  }

  /** The unit name printed after each amount: it names the factor the
      amounts were divided by. */
  function UnitName(units: string): (name: string)
    ensures name == "kSU" <==> UnitFactor(units) == 1000.0
    ensures name == "MSU" <==> UnitFactor(units) == 1000000.0
    ensures name == "SU" <==> UnitFactor(units) == 1.0
  {
    if units == "k" then "kSU" else if units == "m" then "MSU" else "SU"
  }

  /** What an association line reports below its heading. */
  datatype Allocation =
    | Unlimited
    | Limited(limit: real, usage: real, remaining: real, percent: real, unit: string)

  /** The lines printed for one association. */
  datatype BalanceLine = BalanceLine(heading: string, allocation: Allocation)

  /** An association record as the report reads it: its TRES minutes and its
      `default` entry. */
  datatype AssocView = AssocView(tres: map<string, int>, flag: DefaultFlag)

  /** `account:` for a single-QoS association or its default QoS, and
      `account:qos:` for any other QoS; a record without a `default` entry
      is a KeyError. */
  function Heading(key: Key, flag: DefaultFlag): (r: Result<string, Error>)
    ensures r.Failure? <==> flag == Unset
    ensures r.Failure? ==> r.error == MissingDefault(key)
    ensures r.Success? ==>
      r.value == key.account + ":" + (if flag == Default(false) then key.qos + ":" else "")
  {
    match flag
    case Unset => Failure(MissingDefault(key))
    case NoChoice => Success(key.account + ":")
    case Default(isDefault) => Success(if isDefault then key.account + ":" else key.account + ":" + key.qos + ":")
  }

  /** `record.get('billing', None)` read as a truth value: 0 when absent. */
  function Billing(tres: map<string, int>): (b: int)
    ensures b != 0 <==> "billing" in tres && tres["billing"] != 0
    ensures b != 0 ==> b == tres["billing"]
  {
    if "billing" in tres then tres["billing"] else 0
  }

  /** The report for one association. */
  function AssocBalance(key: Key, view: AssocView, usage: UsageTable, units: string): (r: Result<BalanceLine, Error>)
    ensures r.Failure? <==>
      view.flag == Unset || (Billing(view.tres) != 0 && key in usage && "billing" !in usage[key].tres)
    ensures r.Failure? ==>
      r.error == if view.flag == Unset then MissingDefault(key) else MissingBilling(key)
    ensures r.Success? ==> Heading(key, view.flag) == Success(r.value.heading)
    ensures r.Success? ==> (r.value.allocation.Unlimited? <==> Billing(view.tres) == 0)
  {
    match Heading(key, view.flag)
    case Failure(e) => Failure(e)
    case Success(heading) =>
      var billing := Billing(view.tres);
      if billing == 0 then Success(BalanceLine(heading, Unlimited))
      else if key in usage && "billing" !in usage[key].tres then Failure(MissingBilling(key))
      else
        var f := UnitFactor(units);
        var limit := billing as real / f;
        var used := if key in usage then usage[key].tres["billing"] as real / f else 0.0;
        var remaining := limit - used;
        Success(BalanceLine(heading, Limited(limit, used, remaining, remaining * 100.0 / limit, UnitName(units))))
  }

  /** The billing minutes charged to an association, 0 without usage. */
  function UsedBilling(usage: UsageTable, key: Key): int
  {
    if key in usage && "billing" in usage[key].tres then usage[key].tres["billing"] else 0
  }

  /** A limited line adds up: the limit and the usage are the billing
      minutes of the record and of the usage table in the chosen unit, the
      remaining balance is their difference and the percentage is its share
      of the limit. */
  lemma LimitedLine(key: Key, view: AssocView, usage: UsageTable, units: string)
    requires AssocBalance(key, view, usage, units).Success?
    requires AssocBalance(key, view, usage, units).value.allocation.Limited?
    ensures var a := AssocBalance(key, view, usage, units).value.allocation;
      && a.limit * UnitFactor(units) == Billing(view.tres) as real
      && a.usage * UnitFactor(units) == UsedBilling(usage, key) as real
      && a.remaining + a.usage == a.limit
      && a.limit != 0.0
      && a.percent * a.limit == a.remaining * 100.0
      && a.unit == UnitName(units)
  {
    var a := AssocBalance(key, view, usage, units).value.allocation;
    var f := UnitFactor(units);
    assert a.limit == Billing(view.tres) as real / f;
    assert a.percent == a.remaining * 100.0 / a.limit;
  }

  /** Without usage the whole allocation remains: 100 percent. */
  lemma NoUsageFullBalance(key: Key, view: AssocView, usage: UsageTable, units: string)
    requires view.flag != Unset && Billing(view.tres) != 0 && key !in usage
    ensures var r := AssocBalance(key, view, usage, units);
      && r.Success?
      && r.value.allocation == Limited(Billing(view.tres) as real / UnitFactor(units), 0.0,
                                       Billing(view.tres) as real / UnitFactor(units), 100.0, UnitName(units))
  {
    var limit := Billing(view.tres) as real / UnitFactor(units);
    WholePercent(limit);
  }

  lemma WholePercent(x: real)
    requires x != 0.0
    ensures (x - 0.0) * 100.0 / x == 100.0
  {
  }

  /** `(b/f - u/f) * 100 / (b/f) == (b - u) * 100 / b`. */
  lemma PercentScaleFree(b: real, u: real, f: real)
    requires b != 0.0 && f > 0.0
    ensures (b / f - u / f) * 100.0 / (b / f) == (b - u) * 100.0 / b
  {
    calc {
      (b / f - u / f) * 100.0 / (b / f);
      ((b - u) / f) * 100.0 / (b / f);
      { assert ((b - u) / f) / (b / f) == (b - u) / b; }
      (b - u) * 100.0 / b;
    }
  }

  /** The percentage does not depend on the unit. */
  lemma PercentIgnoresUnits(key: Key, view: AssocView, usage: UsageTable, units1: string, units2: string)
    requires AssocBalance(key, view, usage, units1).Success?
    requires AssocBalance(key, view, usage, units1).value.allocation.Limited?
    ensures AssocBalance(key, view, usage, units2).Success?
    ensures AssocBalance(key, view, usage, units2).value.allocation.Limited?
    ensures AssocBalance(key, view, usage, units1).value.allocation.percent
         == AssocBalance(key, view, usage, units2).value.allocation.percent
  {
    var b := Billing(view.tres) as real;
    var u := UsedBilling(usage, key) as real;
    PercentScaleFree(b, u, UnitFactor(units1));
    PercentScaleFree(b, u, UnitFactor(units2));
  }

  /** The report for the associations in order, stopping at the first
      KeyError. */
  function Balances(keys: seq<Key>, views: map<Key, AssocView>, usage: UsageTable, units: string)
    : (r: Result<seq<BalanceLine>, Error>)
    requires forall i :: 0 <= i < |keys| ==> keys[i] in views
    ensures r.Success? ==> |r.value| == |keys|
    ensures r.Success? ==> forall i :: 0 <= i < |keys| ==>
      Success(r.value[i]) == AssocBalance(keys[i], views[keys[i]], usage, units)
    decreases |keys|
  {
    if keys == [] then Success([])
    else
      var n := |keys| - 1;
      match Balances(keys[..n], views, usage, units)
      case Failure(e) => Failure(e)
      case Success(lines) =>
        match AssocBalance(keys[n], views[keys[n]], usage, units)
        case Failure(e) => Failure(e)
        case Success(line) => Success(lines + [line])
  }

  /** The report fails exactly when some association does, with the error
      of the first one that does. */
  lemma {:induction false} BalancesFailure(keys: seq<Key>, views: map<Key, AssocView>, usage: UsageTable, units: string)
    requires forall i :: 0 <= i < |keys| ==> keys[i] in views
    ensures Balances(keys, views, usage, units).Failure? <==>
      exists i :: 0 <= i < |keys| && AssocBalance(keys[i], views[keys[i]], usage, units).Failure?
    ensures Balances(keys, views, usage, units).Failure? ==> exists i :: (
      && 0 <= i < |keys|
      && AssocBalance(keys[i], views[keys[i]], usage, units) == Failure(Balances(keys, views, usage, units).error)
      && forall j :: 0 <= j < i ==> AssocBalance(keys[j], views[keys[j]], usage, units).Success?)
    decreases |keys|
  {
    if keys != [] {
      var n := |keys| - 1;
      var init := keys[..n];
      BalancesFailure(init, views, usage, units);
      var prior := Balances(init, views, usage, units);
      if prior.Failure? {
        var i :| 0 <= i < |init| && AssocBalance(init[i], views[init[i]], usage, units) == Failure(prior.error)
          && forall j :: 0 <= j < i ==> AssocBalance(init[j], views[init[j]], usage, units).Success?;
        assert keys[i] == init[i];
        assert forall j :: 0 <= j < i ==> keys[j] == init[j];
      } else {
        assert forall j :: 0 <= j < n ==> keys[j] == init[j];
        assert forall j :: 0 <= j < n ==> AssocBalance(keys[j], views[keys[j]], usage, units).Success?;
      }
    }
  }

  /** Over associations that all carry a `default`, the only error the
      report can raise is a usage entry without `billing`. */
  lemma OnlyMissingBilling(keys: seq<Key>, views: map<Key, AssocView>, usage: UsageTable, units: string)
    requires forall i :: 0 <= i < |keys| ==> keys[i] in views && views[keys[i]].flag != Unset
    ensures Balances(keys, views, usage, units).Failure? ==> Balances(keys, views, usage, units).error.MissingBilling?
  {
    BalancesFailure(keys, views, usage, units);
  }

  /** Two reports of one association that raise alike: both or neither,
      with the same error. */
  predicate RaisesAlike<T(==)>(r1: Result<T, Error>, r2: Result<T, Error>)
  {
    (r1.Failure? <==> r2.Failure?) && (r1.Failure? ==> r1.error == r2.error)
  }

  /** Two reports over the same associations whose every association raises
      alike raise alike as a whole. */
  lemma {:induction false} BalancesAlike(keys: seq<Key>, views1: map<Key, AssocView>, usage1: UsageTable,
                                          views2: map<Key, AssocView>, usage2: UsageTable, units: string)
    requires forall i :: 0 <= i < |keys| ==> keys[i] in views1 && keys[i] in views2
    requires forall i :: 0 <= i < |keys| ==>
      RaisesAlike(AssocBalance(keys[i], views1[keys[i]], usage1, units), AssocBalance(keys[i], views2[keys[i]], usage2, units))
    ensures RaisesAlike(Balances(keys, views1, usage1, units), Balances(keys, views2, usage2, units))
    decreases |keys|
  {
    if keys != [] {
      var n := |keys| - 1;
      BalancesAlike(keys[..n], views1, usage1, views2, usage2, units);
    }
  }

  /** The association records as the report reads them. */
  function View(info: map<Key, QosRecord>): (views: map<Key, AssocView>)
    reads info.Values
    ensures views.Keys == info.Keys
  {
    map k | k in info :: AssocView(info[k].tres, info[k].default)
  }

  /** `print_user_balance` over the associations in the order of `keys`. */
  method UserBalance(keys: seq<Key>, info: map<Key, QosRecord>, usage: UsageTable, units: string)
    returns (r: Result<seq<BalanceLine>, Error>)
    requires forall i :: 0 <= i < |keys| ==> keys[i] in info
    ensures r == Balances(keys, View(info), usage, units)
  {
    var views := View(info);
    var lines: seq<BalanceLine> := [];
    var i := 0;
    while i < |keys|
      invariant 0 <= i <= |keys|
      invariant Balances(keys[..i], views, usage, units) == Success(lines)
    {
      assert keys[..i + 1][..i] == keys[..i];
      var key := keys[i];
      var rec := info[key];
      var line := AssocBalance(key, AssocView(rec.tres, rec.default), usage, units);
      if line.Failure? {
        FailureSticks(keys, views, usage, units, i + 1);
        return Failure(line.error);
      }
      lines := lines + [line.value];
      i := i + 1;
    }
    assert keys[..i] == keys;
    r := Success(lines);
  }

  /** A KeyError after some associations is the result of the whole report. */
  lemma {:induction false} FailureSticks(keys: seq<Key>, views: map<Key, AssocView>, usage: UsageTable, units: string, n: int)
    requires forall i :: 0 <= i < |keys| ==> keys[i] in views
    requires 0 <= n <= |keys| && Balances(keys[..n], views, usage, units).Failure?
    ensures Balances(keys, views, usage, units) == Balances(keys[..n], views, usage, units)
    decreases |keys| - n
  {
    if n < |keys| {
      assert keys[..n + 1][..n] == keys[..n];
      FailureSticks(keys, views, usage, units, n + 1);
    } else {
      assert keys[..n] == keys;
    }
  }
}
