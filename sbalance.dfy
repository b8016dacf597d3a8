/**
 * The pipeline of `main` (sbalance/sbalance.py:213-219): the QoS catalog,
 * then the associations over it, then the usage, then the report.
 */
module Sbalance {
  import opened Wrappers
  import opened Records
  import Qos
  import Accounts
  import Usage
  import Balance

  /** The association records as the loaders leave them, stated on values:
      a catalogued key reads its QoS's TRES minutes and the flag last
      written through that QoS; any other key reads no minutes and its own
      last flag. */
  function ReportViews(minutes: map<string, map<string, int>>, w: seq<Accounts.Write>): (views: map<Key, Balance.AssocView>)
    ensures forall k :: k in views <==> k in Accounts.KeysOf(w)
  {
    map k | k in Accounts.KeysOf(w) ::
      Balance.AssocView(if k.qos in minutes then minutes[k.qos] else map[], Accounts.ReportedFlag(w, minutes.Keys, k))
  }

  /** What `main` prints (or the exception it stops with), given the three
      listings and the unit option. */
  function Report(qosRows: seq<Qos.QosRow>, assocRows: seq<Accounts.AssocRow>, usageRows: seq<Usage.UsageRow>,
                  units: string): (r: Result<seq<Balance.BalanceLine>, Error>)
    ensures Qos.QosCatalog(qosRows).Failure? ==> r == Failure(Qos.QosCatalog(qosRows).error)
    ensures Qos.QosCatalog(qosRows).Success? && Usage.UsageTotals(usageRows).Failure? ==>
      r == Failure(Usage.UsageTotals(usageRows).error)
    ensures Qos.QosCatalog(qosRows).Success? && Usage.UsageTotals(usageRows).Success? && r.Failure? ==>
      r.error.MissingBilling?
    ensures r.Success? ==> |r.value| == |Accounts.KeysOf(Accounts.AssocWrites(assocRows, []))|
  {
    match Qos.QosCatalog(qosRows)
    case Failure(e) => Failure(e)
    case Success(minutes) =>
      var w := Accounts.AssocWrites(assocRows, []);
      match Usage.UsageTotals(usageRows)
      case Failure(e) => Failure(e)
      case Success(usage) =>
        ReportViewsRaise(minutes, assocRows, usage, units);
        Balance.Balances(Accounts.KeysOf(w), ReportViews(minutes, w), usage, units)
  }

  /** Every association record the loaders leave carries a `default`, so
      the only error the report can still raise is a missing `billing`. */
  lemma ReportViewsRaise(minutes: map<string, map<string, int>>, assocRows: seq<Accounts.AssocRow>,
                         usage: Usage.UsageTable, units: string)
    ensures var w := Accounts.AssocWrites(assocRows, []);
      var r := Balance.Balances(Accounts.KeysOf(w), ReportViews(minutes, w), usage, units);
      r.Failure? ==> r.error.MissingBilling?
  {
    var w := Accounts.AssocWrites(assocRows, []);
    forall k | k in ReportViews(minutes, w)
      ensures ReportViews(minutes, w)[k].flag != Unset
    {
      Accounts.ReportedFlagSet(assocRows, [], minutes.Keys, k);
    }
    Balance.OnlyMissingBilling(Accounts.KeysOf(w), ReportViews(minutes, w), usage, units);
  }

  /** The association records with both corrections of the findings: each
      key reads its QoS's minutes and the flag its own rows wrote. */
  function CorrectedViews(minutes: map<string, map<string, int>>, w: seq<Accounts.Write>): (views: map<Key, Balance.AssocView>)
    ensures forall k :: k in views <==> k in Accounts.KeysOf(w)
  {
    map k | k in Accounts.KeysOf(w) ::
      Balance.AssocView(if k.qos in minutes then minutes[k.qos] else map[], Accounts.OwnFlag(w, k))
  }

  /** The report as evidently intended: every job charged, and each
      association headed by its own default flag. */
  function CorrectedReport(qosRows: seq<Qos.QosRow>, assocRows: seq<Accounts.AssocRow>, usageRows: seq<Usage.UsageRow>,
                           units: string): (r: Result<seq<Balance.BalanceLine>, Error>)
    ensures Qos.QosCatalog(qosRows).Failure? ==> r == Failure(Qos.QosCatalog(qosRows).error)
    ensures Qos.QosCatalog(qosRows).Success? && Usage.CorrectedUsageTotals(usageRows).Failure? ==>
      r == Failure(Usage.CorrectedUsageTotals(usageRows).error)
    ensures Qos.QosCatalog(qosRows).Success? && Usage.CorrectedUsageTotals(usageRows).Success? && r.Failure? ==>
      r.error.MissingBilling?
    ensures r.Success? ==> |r.value| == |Accounts.KeysOf(Accounts.AssocWrites(assocRows, []))|
  {
    match Qos.QosCatalog(qosRows)
    case Failure(e) => Failure(e)
    case Success(minutes) =>
      var w := Accounts.AssocWrites(assocRows, []);
      match Usage.CorrectedUsageTotals(usageRows)
      case Failure(e) => Failure(e)
      case Success(usage) =>
        CorrectedViewsRaise(minutes, assocRows, usage, units);
        Balance.Balances(Accounts.KeysOf(w), CorrectedViews(minutes, w), usage, units)
  }

  /** Corrected too, every association carries its own `default`, so the
      only error the report can still raise is a missing `billing`. */
  lemma CorrectedViewsRaise(minutes: map<string, map<string, int>>, assocRows: seq<Accounts.AssocRow>,
                            usage: Usage.UsageTable, units: string)
    ensures var w := Accounts.AssocWrites(assocRows, []);
      var r := Balance.Balances(Accounts.KeysOf(w), CorrectedViews(minutes, w), usage, units);
      r.Failure? ==> r.error.MissingBilling?
  {
    var w := Accounts.AssocWrites(assocRows, []);
    Accounts.WritesAreSet(assocRows, []);
    Accounts.KeysOfMeaning(w);
    forall k | k in CorrectedViews(minutes, w)
      ensures CorrectedViews(minutes, w)[k].flag != Unset
    {
      Accounts.LastKeyFlagSet(w, k);
    }
    Balance.OnlyMissingBilling(Accounts.KeysOf(w), CorrectedViews(minutes, w), usage, units);
  }

  /** The corrections change figures and headings only: the corrected
      report raises exactly when the code as written does, with the same
      error. */
  lemma CorrectedRaisesAlike(qosRows: seq<Qos.QosRow>, assocRows: seq<Accounts.AssocRow>,
                             usageRows: seq<Usage.UsageRow>, units: string)
    ensures Balance.RaisesAlike(Report(qosRows, assocRows, usageRows, units),
                                CorrectedReport(qosRows, assocRows, usageRows, units))
  {
    Usage.FailsAlike(usageRows);
    if Qos.QosCatalog(qosRows).Success? && Usage.UsageTotals(usageRows).Success? {
      var minutes := Qos.QosCatalog(qosRows).value;
      var w := Accounts.AssocWrites(assocRows, []);
      var keys := Accounts.KeysOf(w);
      var usage1, usage2 := Usage.UsageTotals(usageRows).value, Usage.CorrectedUsageTotals(usageRows).value;
      var views1, views2 := ReportViews(minutes, w), CorrectedViews(minutes, w);
      Usage.TotalsSameShape(usageRows);
      Accounts.WritesAreSet(assocRows, []);
      Accounts.KeysOfMeaning(w);
      forall i | 0 <= i < |keys|
        ensures Balance.RaisesAlike(Balance.AssocBalance(keys[i], views1[keys[i]], usage1, units),
                                    Balance.AssocBalance(keys[i], views2[keys[i]], usage2, units))
      {
        var k := keys[i];
        Accounts.ReportedFlagSet(assocRows, [], minutes.Keys, k);
        Accounts.LastKeyFlagSet(w, k);
      }
      Balance.BalancesAlike(keys, views1, usage1, views2, usage2, units);
    }
  }

  /** The corrected heading of an association is not changed by the rows of
      other accounts loaded after it. */
  lemma CorrectedViewLocal(minutes: map<string, map<string, int>>, rows1: seq<Accounts.AssocRow>,
                           rows2: seq<Accounts.AssocRow>, k: Key)
    requires forall i :: 0 <= i < |rows2| ==> rows2[i].account != k.account
    requires k in Accounts.KeysOf(Accounts.AssocWrites(rows1, []))
    ensures k in CorrectedViews(minutes, Accounts.AssocWrites(rows1 + rows2, []))
    ensures CorrectedViews(minutes, Accounts.AssocWrites(rows1 + rows2, []))[k]
         == CorrectedViews(minutes, Accounts.AssocWrites(rows1, []))[k]
  {
    var w1, w := Accounts.AssocWrites(rows1, []), Accounts.AssocWrites(rows1 + rows2, []);
    assert k in Accounts.KeysOf(w) by {
      Accounts.AssocWritesAppend(rows1, rows2, []);
      Accounts.KeysOfKeepsOrder(w1, Accounts.AssocWrites(rows2, []));
    }
    assert Accounts.OwnFlag(w, k) == Accounts.OwnFlag(w1, k) by {
      Accounts.OwnFlagIgnoresOtherAccounts(rows1, rows2, [], k);
    }
  }

  /** `main` on the three listings: `query_qos`, `query_accounts` without a
      user list, `query_usage` and `print_user_balance`. */
  method Sbalance(qosRows: seq<Qos.QosRow>, assocRows: seq<Accounts.AssocRow>, usageRows: seq<Usage.UsageRow>,
                  units: string) returns (r: Result<seq<Balance.BalanceLine>, Error>)
    ensures r == Report(qosRows, assocRows, usageRows, units)
  {
    var catalog := Qos.QueryQos(qosRows);
    if catalog.Failure? {
      return Failure(catalog.error);
    }
    ghost var minutes := Qos.QosCatalog(qosRows).value;
    var keys, info := Accounts.QueryAccounts(catalog.value, assocRows, []);
    ghost var w := Accounts.AssocWrites(assocRows, []);
    var usage := Usage.QueryUsage(usageRows);
    if usage.Failure? {
      return Failure(usage.error);
    }
    ViewsAgree(catalog.value, minutes, w, info);
    r := Balance.UserBalance(keys, info, usage.value, units);
  }

  /** After the association loader, the records read as ReportViews says. */
  lemma ViewsAgree(catalog: map<string, QosRecord>, minutes: map<string, map<string, int>>, w: seq<Accounts.Write>,
                   info: map<Key, QosRecord>)
    requires Qos.DistinctRecords(catalog) && catalog.Keys == minutes.Keys
    requires forall k :: k in info <==> k in Accounts.KeysOf(w)
    requires forall k :: k in info && k.qos in catalog ==> info[k] == catalog[k.qos]
    requires forall k :: k in info && k.qos !in catalog ==>
      info[k].tres == map[] && info[k].default == Accounts.LastKeyFlag(w, k, Unset)
    requires forall q :: q in catalog ==>
      catalog[q].tres == minutes[q] && catalog[q].default == Accounts.LastSharedFlag(w, catalog, catalog[q], Unset)
    ensures Balance.View(info) == ReportViews(minutes, w)
  {
    forall k | k in info && k.qos in catalog
      ensures info[k].default == Accounts.ReportedFlag(w, minutes.Keys, k)
    {
      Accounts.SharedIsPerQos(w, catalog, k.qos, Unset);
    }
  }
}
