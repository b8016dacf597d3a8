/**
 * The association builder, `query_accounts` (sbalance/sbalance.py:60-94):
 * every user row of `sacctmgr show assoc` contributes one `(account, qos)`
 * key per QoS in its comma list, in an insertion-ordered table whose value
 * is the catalog's own record for a catalogued QoS (shared, not copied) and
 * a fresh empty record otherwise; the row's `default` flag is then written
 * into that record.
 */
module Accounts {
  import opened Text
  import opened Records
  import Qos

  /** One row of `sacctmgr --noheader show assoc -P format=account,user,qos,defaultqos`. */
  datatype AssocRow = AssocRow(account: string, user: string, qos: string, defaultqos: string)

  /** One `account_info[key]['default'] = flag` assignment, in program order. */
  datatype Write = Write(key: Key, flag: DefaultFlag)

  /** A row the loop processes: it names a user, and that user passes the
      filter when a non-empty user list is given. */
  predicate Selected(row: AssocRow, users: seq<string>)
    ensures users == [] ==> (Selected(row, users) <==> row.user != [])
    ensures Selected(row, users) ==> row.user != []
  {
    row.user != [] && (users == [] || row.user in users)
  }

  /** The flag written for `qos` of a row listing `qosList`: `None` for a
      single QoS, otherwise whether it is the row's default QoS. */
  function FlagFor(qosList: seq<string>, qos: string, defaultqos: string): (f: DefaultFlag)
    ensures f != Unset
    ensures f == NoChoice <==> |qosList| <= 1
    ensures |qosList| > 1 ==> (f == Default(true) <==> qos == defaultqos)
  {
    if |qosList| > 1 then Default(qos == defaultqos) else NoChoice
  }

  /** The writes one processed row makes, one per element of its QoS list. */
  function RowWrites(row: AssocRow): (w: seq<Write>)
    ensures |w| >= 1
    ensures forall i :: 0 <= i < |w| ==> w[i].key.account == row.account && w[i].flag != Unset
  {
    var qs := Split(row.qos, ',');
    seq(|qs|, j requires 0 <= j < |qs| => Write(Key(row.account, qs[j]), FlagFor(qs, qs[j], row.defaultqos)))
  }

  /** All writes of the loop over `rows`, in program order. */
  function AssocWrites(rows: seq<AssocRow>, users: seq<string>): seq<Write>
    decreases |rows|
  {
    if rows == [] then []
    else
      var row := rows[|rows| - 1];
      AssocWrites(rows[..|rows| - 1], users) + (if Selected(row, users) then RowWrites(row) else [])
  }

  predicate NoDuplicates<T(==)>(s: seq<T>)
  {
    forall i, j :: 0 <= i < j < |s| ==> s[i] != s[j]
  }

  /** The key order of the `OrderedDict` after the writes `w`: each key at
      the place of its first write, never twice. */
  function KeysOf(w: seq<Write>): seq<Key>
    decreases |w|
  {
    if w == [] then []
    else
      var p := KeysOf(w[..|w| - 1]);
      var k := w[|w| - 1].key;
      if k in p then p else p + [k]
  }

  /** The table holds each written key exactly once. */
  lemma {:induction false} KeysOfMeaning(w: seq<Write>)
    ensures NoDuplicates(KeysOf(w))
    ensures forall k :: k in KeysOf(w) <==> exists i :: 0 <= i < |w| && w[i].key == k
    decreases |w|
  {
    if w != [] {
      KeysOfMeaning(w[..|w| - 1]);
      assert forall i :: 0 <= i < |w| - 1 ==> w[..|w| - 1][i] == w[i];
    }
  }

  /** The flag of the last write to `key`, or `otherwise` when there is none. */
  function LastKeyFlag(w: seq<Write>, key: Key, otherwise: DefaultFlag): DefaultFlag
    decreases |w|
  {
    if w == [] then otherwise
    else if w[|w| - 1].key == key then w[|w| - 1].flag
    else LastKeyFlag(w[..|w| - 1], key, otherwise)
  }

  /** The flag of the last write to any key whose QoS is `qos`. */
  function LastQosFlag(w: seq<Write>, qos: string, otherwise: DefaultFlag): DefaultFlag
    decreases |w|
  {
    if w == [] then otherwise
    else if w[|w| - 1].key.qos == qos then w[|w| - 1].flag
    else LastQosFlag(w[..|w| - 1], qos, otherwise)
  }

  /** The flag of the last write that went through the record `rec`: a
      write to a key whose QoS the catalog maps to `rec`. */
  function LastSharedFlag(w: seq<Write>, catalog: map<string, QosRecord>, rec: QosRecord, otherwise: DefaultFlag): DefaultFlag
    decreases |w|
  {
    if w == [] then otherwise
    else if w[|w| - 1].key.qos in catalog && catalog[w[|w| - 1].key.qos] == rec then w[|w| - 1].flag
    else LastSharedFlag(w[..|w| - 1], catalog, rec, otherwise)
  }

  /** The `default` a key reports after the loop, for a catalog with one
      fresh record per name (as `query_qos` builds it): the record of a
      catalogued QoS holds the last flag written through ANY key of that
      QoS; the fresh record of an uncatalogued key holds its own last flag. */
  function ReportedFlag(w: seq<Write>, catalogued: set<string>, key: Key): DefaultFlag
  {
    if key.qos in catalogued then LastQosFlag(w, key.qos, Unset) else LastKeyFlag(w, key, Unset)
  }

  /** The shape of `account_info` (as `keys` and `info`) after the writes
      `w`: keys in first-write order, each catalogued key bound to its QoS's
      catalog record, each other key to a record of its own outside the
      catalog. */
  ghost predicate Shaped(catalog: map<string, QosRecord>, w: seq<Write>, keys: seq<Key>, info: map<Key, QosRecord>)
  {
    && keys == KeysOf(w)
    && (forall k :: k in info <==> k in keys)
    && (forall k :: k in info && k.qos in catalog ==> info[k] == catalog[k.qos])
    && (forall k, q :: k in info && k.qos !in catalog && q in catalog ==> info[k] != catalog[q])
    && (forall k1, k2 :: k1 in info && k2 in info && k1 != k2 && k1.qos !in catalog ==> info[k1] != info[k2])
  }

  /** The records' contents after the writes `w`; `start` holds each catalog
      record's `default` before the loop. */
  ghost predicate Flagged(catalog: map<string, QosRecord>, start: map<string, DefaultFlag>,
                          w: seq<Write>, info: map<Key, QosRecord>)
    reads catalog.Values, info.Values
  {
    && (forall k :: k in info && k.qos !in catalog ==>
          info[k].tres == map[] && info[k].default == LastKeyFlag(w, k, Unset))
    && (forall q :: q in catalog ==>
          q in start && catalog[q].default == LastSharedFlag(w, catalog, catalog[q], start[q]))
  }

  ghost predicate Loaded(catalog: map<string, QosRecord>, start: map<string, DefaultFlag>,
                         w: seq<Write>, keys: seq<Key>, info: map<Key, QosRecord>)
    reads catalog.Values, info.Values
  {
    Shaped(catalog, w, keys, info) && Flagged(catalog, start, w, info)
  }

  /** `query_accounts(qos_info, user_list)` on already-split rows. An empty
      `users` stands for both `None` and `[]`. */
  method QueryAccounts(catalog: map<string, QosRecord>, rows: seq<AssocRow>, users: seq<string>)
    returns (keys: seq<Key>, info: map<Key, QosRecord>)
    modifies catalog.Values
    ensures keys == KeysOf(AssocWrites(rows, users))
    ensures forall k :: k in info <==> k in keys
    ensures forall k :: k in info && k.qos in catalog ==> info[k] == catalog[k.qos]
    ensures forall k :: k in info && k.qos !in catalog ==>
      && fresh(info[k])
      && info[k].tres == map[]
      && info[k].default == LastKeyFlag(AssocWrites(rows, users), k, Unset)
    ensures forall k1, k2 :: k1 in info && k2 in info && k1 != k2 && k1.qos !in catalog ==> info[k1] != info[k2]
    ensures forall q :: q in catalog ==>
      && catalog[q].tres == old(catalog[q].tres)
      && catalog[q].default == LastSharedFlag(AssocWrites(rows, users), catalog, catalog[q], old(catalog[q].default))
  {
    ghost var start := map q | q in catalog :: catalog[q].default;
    keys, info := LoadRows(catalog, start, rows, users);
  }

  /** The outer loop of `query_accounts`, row by row. */
  method LoadRows(catalog: map<string, QosRecord>, ghost start: map<string, DefaultFlag>,
                  rows: seq<AssocRow>, users: seq<string>)
    returns (keys: seq<Key>, info: map<Key, QosRecord>)
    requires forall q :: q in catalog ==> q in start && start[q] == catalog[q].default
    modifies catalog.Values
    ensures Loaded(catalog, start, AssocWrites(rows, users), keys, info)
    ensures forall k :: k in info && k.qos !in catalog ==> fresh(info[k])
    ensures forall q :: q in catalog ==> catalog[q].tres == old(catalog[q].tres)
  {
    keys, info := [], map[];
    assert AssocWrites(rows[..0], users) == [];
    var i := 0;
    while i < |rows|
      invariant 0 <= i <= |rows|
      invariant Loaded(catalog, start, AssocWrites(rows[..i], users), keys, info)
      invariant forall k :: k in info && k.qos !in catalog ==> fresh(info[k])
      invariant forall q :: q in catalog ==> catalog[q].tres == old(catalog[q].tres)
    {
      keys, info := ProcessRow(catalog, start, rows, i, users, keys, info);
      i := i + 1;
    }
    assert rows[..i] == rows;
  }

  /** One turn of the outer loop: a selected row adds its keys, any other
      row is passed over. */
  method ProcessRow(catalog: map<string, QosRecord>, ghost start: map<string, DefaultFlag>,
                    rows: seq<AssocRow>, i: int, users: seq<string>,
                    keys0: seq<Key>, info0: map<Key, QosRecord>)
    returns (keys: seq<Key>, info: map<Key, QosRecord>)
    requires 0 <= i < |rows|
    requires Loaded(catalog, start, AssocWrites(rows[..i], users), keys0, info0)
    modifies catalog.Values
    ensures Loaded(catalog, start, AssocWrites(rows[..i + 1], users), keys, info)
    ensures forall k :: k in info && k.qos !in catalog ==> (k in info0 && info[k] == info0[k]) || fresh(info[k])
    ensures forall q :: q in catalog ==> catalog[q].tres == old(catalog[q].tres)
  {
    var row := rows[i];
    assert rows[..i + 1][..i] == rows[..i] && rows[..i + 1][i] == row;
    AssocWritesSnoc(rows[..i + 1], users);
    if Selected(row, users) {
      keys, info := AddRow(catalog, start, row, keys0, info0, AssocWrites(rows[..i], users));
    } else {
      keys, info := keys0, info0;
    }
  }

  /** The inner loop of `query_accounts`: the keys of one selected row. */
  method AddRow(catalog: map<string, QosRecord>, ghost start: map<string, DefaultFlag>, row: AssocRow,
                keys0: seq<Key>, info0: map<Key, QosRecord>, ghost w: seq<Write>)
    returns (keys: seq<Key>, info: map<Key, QosRecord>)
    requires Loaded(catalog, start, w, keys0, info0)
    modifies catalog.Values
    ensures Loaded(catalog, start, w + RowWrites(row), keys, info)
    ensures forall k :: k in info && k.qos !in catalog ==> (k in info0 && info[k] == info0[k]) || fresh(info[k])
    ensures forall q :: q in catalog ==> catalog[q].tres == old(catalog[q].tres)
  {
    var qosList := Split(row.qos, ',');
    ghost var rw := RowWrites(row);
    keys, info := keys0, info0;
    ghost var done := w;
    var j := 0;
    while j < |qosList|
      invariant 0 <= j <= |qosList|
      invariant done == w + rw[..j]
      invariant Loaded(catalog, start, done, keys, info)
      invariant forall k :: k in info && k.qos !in catalog ==> (k in info0 && info[k] == info0[k]) || fresh(info[k])
      invariant forall q :: q in catalog ==> catalog[q].tres == old(catalog[q].tres)
    {
      var qos := qosList[j];
      var flag := if |qosList| > 1 then Default(qos == row.defaultqos) else NoChoice;
      assert rw[j] == Write(Key(row.account, qos), flag);
      keys, info := Assign(catalog, start, Key(row.account, qos), flag, keys, info, done);
      PrefixStep(w, rw, j);
      done := done + [rw[j]];
      j := j + 1;
    }
    assert rw[..j] == rw;
  }

  lemma PrefixStep(w: seq<Write>, rw: seq<Write>, j: int)
    requires 0 <= j < |rw|
    ensures w + rw[..j + 1] == (w + rw[..j]) + [rw[j]]
  {
    assert rw[..j + 1] == rw[..j] + [rw[j]];
  }

  /** `account_info[key] = qos_info[qos]` (or `{}`), then
      `account_info[key]['default'] = flag`. */
  method Assign(catalog: map<string, QosRecord>, ghost start: map<string, DefaultFlag>, key: Key, flag: DefaultFlag,
                keys0: seq<Key>, info0: map<Key, QosRecord>, ghost w: seq<Write>)
    returns (keys: seq<Key>, info: map<Key, QosRecord>)
    requires Loaded(catalog, start, w, keys0, info0)
    modifies catalog.Values
    ensures Loaded(catalog, start, w + [Write(key, flag)], keys, info)
    ensures forall k :: k in info && k.qos !in catalog ==> (k in info0 && info[k] == info0[k]) || fresh(info[k])
    ensures forall q :: q in catalog ==> catalog[q].tres == old(catalog[q].tres)
  {
    if key.qos in catalog {
      keys, info := AssignShared(catalog, start, key, flag, keys0, info0, w);
    } else {
      keys, info := AssignOwn(catalog, start, key, flag, keys0, info0, w);
    }
  }

  /** Assign for a catalogued QoS: the key is bound to the catalog's record,
      and the flag lands in that shared record. */
  method AssignShared(catalog: map<string, QosRecord>, ghost start: map<string, DefaultFlag>, key: Key, flag: DefaultFlag,
                      keys0: seq<Key>, info0: map<Key, QosRecord>, ghost w: seq<Write>)
    returns (keys: seq<Key>, info: map<Key, QosRecord>)
    requires key.qos in catalog
    requires Loaded(catalog, start, w, keys0, info0)
    modifies catalog[key.qos]
    ensures Loaded(catalog, start, w + [Write(key, flag)], keys, info)
    ensures forall k :: k in info && k.qos !in catalog ==> k in info0 && info[k] == info0[k]
    ensures forall q :: q in catalog ==> catalog[q].tres == old(catalog[q].tres)
  {
    ghost var w' := w + [Write(key, flag)];
    assert w'[..|w|] == w;
    keys := if key in info0 then keys0 else keys0 + [key];
    var rec := catalog[key.qos];
    info := info0[key := rec];
    assert Shaped(catalog, w', keys, info);
    rec.default := flag;
    assert forall k :: k in info && k.qos !in catalog ==> info[k] == info0[k] && info[k] != rec;
    assert forall k: Key :: k.qos !in catalog ==> LastKeyFlag(w', k, Unset) == LastKeyFlag(w, k, Unset);
  }

  /** Assign for an uncatalogued QoS: the key is bound to a fresh record
      `{}` that then receives the flag. */
  method AssignOwn(catalog: map<string, QosRecord>, ghost start: map<string, DefaultFlag>, key: Key, flag: DefaultFlag,
                   keys0: seq<Key>, info0: map<Key, QosRecord>, ghost w: seq<Write>)
    returns (keys: seq<Key>, info: map<Key, QosRecord>)
    requires key.qos !in catalog
    requires Loaded(catalog, start, w, keys0, info0)
    ensures Loaded(catalog, start, w + [Write(key, flag)], keys, info)
    ensures forall k :: k in info && k.qos !in catalog ==> (k in info0 && info[k] == info0[k]) || fresh(info[k])
  {
    ghost var w' := w + [Write(key, flag)];
    assert w'[..|w|] == w;
    keys := if key in info0 then keys0 else keys0 + [key];
    var rec := new QosRecord(map[]);
    info := info0[key := rec];
    rec.default := flag;
    assert Shaped(catalog, w', keys, info);
    assert forall q :: q in catalog ==>
      LastSharedFlag(w', catalog, catalog[q], start[q]) == LastSharedFlag(w, catalog, catalog[q], start[q]);
  }

  /** A row's writes follow its comma list: one key per listed QoS, in list
      order, flagged `None` for a single QoS and otherwise by comparison
      with the row's default QoS. */
  lemma RowWritesOfList(row: AssocRow, qs: seq<string>)
    requires |qs| >= 1 && forall i :: 0 <= i < |qs| ==> ',' !in qs[i]
    requires row.qos == Join(qs, ',')
    ensures |RowWrites(row)| == |qs|
    ensures forall j :: 0 <= j < |qs| ==>
      RowWrites(row)[j] == Write(Key(row.account, qs[j]), if |qs| > 1 then Default(qs[j] == row.defaultqos) else NoChoice)
  {
    SplitJoin(qs, ',');
  }

  /** Some write of `w` goes to `k`. */
  predicate WritesKey(w: seq<Write>, k: Key)
  {
    exists i :: 0 <= i < |w| && w[i].key == k
  }

  /** The row names `k`'s account and lists `k`'s QoS. */
  predicate ListsKey(row: AssocRow, k: Key)
  {
    row.account == k.account && k.qos in Split(row.qos, ',')
  }

  lemma WritesKeyAppend(w0: seq<Write>, v: seq<Write>, k: Key)
    ensures WritesKey(w0 + v, k) <==> WritesKey(w0, k) || WritesKey(v, k)
  {
    var w := w0 + v;
    if WritesKey(w, k) {
      var i :| 0 <= i < |w| && w[i].key == k;
      if i >= |w0| {
        assert v[i - |w0|] == w[i];
      }
    }
    if WritesKey(v, k) {
      var i :| 0 <= i < |v| && v[i].key == k;
      assert w[|w0| + i] == v[i];
    }
    if WritesKey(w0, k) {
      var i :| 0 <= i < |w0| && w0[i].key == k;
      assert w[i] == w0[i];
    }
  }

  /** A row writes a key exactly when it lists it. */
  lemma RowWritesKey(row: AssocRow, k: Key)
    ensures WritesKey(RowWrites(row), k) <==> ListsKey(row, k)
  {
    var qs := Split(row.qos, ',');
    if ListsKey(row, k) {
      var j :| 0 <= j < |qs| && qs[j] == k.qos;
      assert RowWrites(row)[j].key == k;
    }
  }

  /** Some selected row lists `k`. */
  predicate SomeRowLists(rows: seq<AssocRow>, users: seq<string>, k: Key)
  {
    exists j :: 0 <= j < |rows| && Selected(rows[j], users) && ListsKey(rows[j], k)
  }

  lemma SomeRowListsSnoc(rows: seq<AssocRow>, users: seq<string>, k: Key)
    requires rows != []
    ensures SomeRowLists(rows, users, k) <==>
      SomeRowLists(rows[..|rows| - 1], users, k) || (Selected(rows[|rows| - 1], users) && ListsKey(rows[|rows| - 1], k))
  {
    var init := rows[..|rows| - 1];
    assert forall j :: 0 <= j < |init| ==> init[j] == rows[j];
    if SomeRowLists(rows, users, k) {
      var j :| 0 <= j < |rows| && Selected(rows[j], users) && ListsKey(rows[j], k);
      assert j < |init| || j == |rows| - 1;
    }
  }

  /** The writes of all rows are those of all but the last, then the last's. */
  lemma AssocWritesSnoc(rows: seq<AssocRow>, users: seq<string>)
    requires rows != []
    ensures Selected(rows[|rows| - 1], users) ==>
      AssocWrites(rows, users) == AssocWrites(rows[..|rows| - 1], users) + RowWrites(rows[|rows| - 1])
    ensures !Selected(rows[|rows| - 1], users) ==> AssocWrites(rows, users) == AssocWrites(rows[..|rows| - 1], users)
  {
  }

  /** The keys the loop writes are exactly those the selected rows list. */
  lemma {:induction false} WrittenKeys(rows: seq<AssocRow>, users: seq<string>, k: Key)
    ensures WritesKey(AssocWrites(rows, users), k) <==> SomeRowLists(rows, users, k)
    decreases |rows|
  {
    if rows != [] {
      var init := rows[..|rows| - 1];
      var row := rows[|rows| - 1];
      var rw := if Selected(row, users) then RowWrites(row) else [];
      WrittenKeys(init, users, k);
      RowWritesKey(row, k);
      AssocWritesSnoc(rows, users);
      WritesKeyAppend(AssocWrites(init, users), rw, k);
      assert AssocWrites(init, users) + [] == AssocWrites(init, users);
      SomeRowListsSnoc(rows, users, k);
    }
  }

  /** The table's keys: a key is present exactly when some selected row
      (named user, passing the filter) of its account lists its QoS. */
  lemma AssocKeys(rows: seq<AssocRow>, users: seq<string>, k: Key)
    ensures k in KeysOf(AssocWrites(rows, users)) <==>
      exists j :: 0 <= j < |rows| && Selected(rows[j], users) && ListsKey(rows[j], k)
  {
    KeysOfMeaning(AssocWrites(rows, users));
    WrittenKeys(rows, users, k);
  }

  /** The loop over two batches of rows is the loop over the first, then the second. */
  lemma {:induction false} AssocWritesAppend(rows1: seq<AssocRow>, rows2: seq<AssocRow>, users: seq<string>)
    ensures AssocWrites(rows1 + rows2, users) == AssocWrites(rows1, users) + AssocWrites(rows2, users)
    decreases |rows2|
  {
    if rows2 != [] {
      var all := rows1 + rows2;
      assert all[..|all| - 1] == rows1 + rows2[..|rows2| - 1];
      assert all[|all| - 1] == rows2[|rows2| - 1];
      AssocWritesAppend(rows1, rows2[..|rows2| - 1], users);
    } else {
      assert rows1 + rows2 == rows1;
    }
  }

  /** Later writes never move a key already in the table: the key order
      after `w` is a prefix of the key order after `w + v`. */
  lemma {:induction false} KeysOfKeepsOrder(w: seq<Write>, v: seq<Write>)
    ensures KeysOf(w) <= KeysOf(w + v)
    decreases |v|
  {
    if v != [] {
      var all := w + v;
      assert all[..|all| - 1] == w + v[..|v| - 1];
      KeysOfKeepsOrder(w, v[..|v| - 1]);
    } else {
      assert w + v == w;
    }
  }

  /** The loop never writes an absent `default`. */
  lemma {:induction false} WritesAreSet(rows: seq<AssocRow>, users: seq<string>)
    ensures forall i :: 0 <= i < |AssocWrites(rows, users)| ==> AssocWrites(rows, users)[i].flag != Unset
    decreases |rows|
  {
    if rows != [] {
      WritesAreSet(rows[..|rows| - 1], users);
    }
  }

  /** Once some write has gone to `key` and no write is `Unset`, the key's
      last flag is set. */
  lemma {:induction false} LastKeyFlagSet(w: seq<Write>, key: Key)
    requires forall i :: 0 <= i < |w| ==> w[i].flag != Unset
    requires exists i :: 0 <= i < |w| && w[i].key == key
    ensures LastKeyFlag(w, key, Unset) != Unset
    ensures LastQosFlag(w, key.qos, Unset) != Unset
    decreases |w|
  {
    if w[|w| - 1].key != key {
      var i :| 0 <= i < |w| && w[i].key == key;
      assert w[..|w| - 1][i] == w[i];
      LastKeyFlagSet(w[..|w| - 1], key);
    }
  }

  /** Every key of the table reports a `default` (so the balance report's
      `['default']` lookup never fails after the loader). */
  lemma ReportedFlagSet(rows: seq<AssocRow>, users: seq<string>, catalogued: set<string>, key: Key)
    requires key in KeysOf(AssocWrites(rows, users))
    ensures ReportedFlag(AssocWrites(rows, users), catalogued, key) != Unset
  {
    var w := AssocWrites(rows, users);
    KeysOfMeaning(w);
    WritesAreSet(rows, users);
    LastKeyFlagSet(w, key);
  }

  /** With one record per catalogued name, the writes that went through the
      record of `qos` are exactly the writes to keys of that QoS. */
  lemma {:induction false} SharedIsPerQos(w: seq<Write>, catalog: map<string, QosRecord>, qos: string, otherwise: DefaultFlag)
    requires Qos.DistinctRecords(catalog) && qos in catalog
    ensures LastSharedFlag(w, catalog, catalog[qos], otherwise) == LastQosFlag(w, qos, otherwise)
    decreases |w|
  {
    if w != [] {
      SharedIsPerQos(w[..|w| - 1], catalog, qos, otherwise);
    }
  }

  /** The corrected flag: each `(account, qos)` key keeps the flag its own
      last row wrote. */
  function OwnFlag(w: seq<Write>, key: Key): DefaultFlag
  {
    LastKeyFlag(w, key, Unset)
  }

  /** Writes that never touch `key` leave its own flag alone. */
  lemma {:induction false} LastKeyFlagOtherWrites(w: seq<Write>, v: seq<Write>, key: Key)
    requires forall i :: 0 <= i < |v| ==> v[i].key != key
    ensures LastKeyFlag(w + v, key, Unset) == LastKeyFlag(w, key, Unset)
    decreases |v|
  {
    if v != [] {
      var all := w + v;
      assert all[..|all| - 1] == w + v[..|v| - 1];
      assert all[|all| - 1] == v[|v| - 1];
      LastKeyFlagOtherWrites(w, v[..|v| - 1], key);
    } else {
      assert w + v == w;
    }
  }

  /** Writes of rows whose account differs from `account` carry only keys of other accounts. */
  lemma {:induction false} OtherAccountWrites(rows: seq<AssocRow>, users: seq<string>, account: string)
    requires forall i :: 0 <= i < |rows| ==> rows[i].account != account
    ensures forall i :: 0 <= i < |AssocWrites(rows, users)| ==> AssocWrites(rows, users)[i].key.account != account
    decreases |rows|
  {
    if rows != [] {
      OtherAccountWrites(rows[..|rows| - 1], users, account);
    }
  }

  /** The corrected flag of a key depends only on the rows of its own
      account: rows of other accounts loaded later leave it unchanged. */
  lemma OwnFlagIgnoresOtherAccounts(rows1: seq<AssocRow>, rows2: seq<AssocRow>, users: seq<string>, key: Key)
    requires forall i :: 0 <= i < |rows2| ==> rows2[i].account != key.account
    ensures OwnFlag(AssocWrites(rows1 + rows2, users), key) == OwnFlag(AssocWrites(rows1, users), key)
  {
    AssocWritesAppend(rows1, rows2, users);
    OtherAccountWrites(rows2, users, key.account);
    LastKeyFlagOtherWrites(AssocWrites(rows1, users), AssocWrites(rows2, users), key);
  }

  /** When some write of `v` has QoS `qos` and all of them carry `f`, the
      last flag of that QoS after `w + v` is `f`. */
  lemma {:induction false} LastQosFlagIs(w: seq<Write>, v: seq<Write>, qos: string, f: DefaultFlag)
    requires exists i :: 0 <= i < |v| && v[i].key.qos == qos
    requires forall i :: 0 <= i < |v| && v[i].key.qos == qos ==> v[i].flag == f
    ensures LastQosFlag(w + v, qos, Unset) == f
    decreases |v|
  {
    var all := w + v;
    assert all[|all| - 1] == v[|v| - 1];
    if v[|v| - 1].key.qos != qos {
      assert all[..|all| - 1] == w + v[..|v| - 1];
      var i :| 0 <= i < |v| && v[i].key.qos == qos;
      assert v[..|v| - 1][i] == v[i];
      LastQosFlagIs(w, v[..|v| - 1], qos, f);
    }
  }

  /** When some write of `w` goes to `key` and all of them carry `f`, the
      last flag of that key is `f`. */
  lemma {:induction false} LastKeyFlagIs(w: seq<Write>, key: Key, f: DefaultFlag)
    requires exists i :: 0 <= i < |w| && w[i].key == key
    requires forall i :: 0 <= i < |w| && w[i].key == key ==> w[i].flag == f
    ensures LastKeyFlag(w, key, Unset) == f
    decreases |w|
  {
    if w[|w| - 1].key != key {
      var i :| 0 <= i < |w| && w[i].key == key;
      assert w[..|w| - 1][i] == w[i];
      LastKeyFlagIs(w[..|w| - 1], key, f);
    }
  }

  /** As written, a row of another account changes what account `A`
      reports. Two rows of selected users, in accounts `A` and `B`, both
      list a catalogued QoS `q` among several; `q` is `A`'s default QoS and
      not `B`'s. After `A`'s row, key `(A, q)` reports "default"; once `B`'s
      row is loaded, the shared record of `q` makes `(A, q)` report "not the
      default", while `A`'s own row still says it is. */
  lemma SharedFlagLeaks(rowA: AssocRow, rowB: AssocRow, qsA: seq<string>, qsB: seq<string>, q: string, catalogued: set<string>)
    requires |qsA| > 1 && rowA.qos == Join(qsA, ',') && forall i :: 0 <= i < |qsA| ==> ',' !in qsA[i]
    requires |qsB| > 1 && rowB.qos == Join(qsB, ',') && forall i :: 0 <= i < |qsB| ==> ',' !in qsB[i]
    requires q in qsA && q in qsB && q in catalogued
    requires rowA.user != [] && rowB.user != [] && rowA.account != rowB.account
    requires rowA.defaultqos == q && rowB.defaultqos != q
    ensures ReportedFlag(AssocWrites([rowA], []), catalogued, Key(rowA.account, q)) == Default(true)
    ensures ReportedFlag(AssocWrites([rowA, rowB], []), catalogued, Key(rowA.account, q)) == Default(false)
    ensures OwnFlag(AssocWrites([rowA, rowB], []), Key(rowA.account, q)) == Default(true)
  {
    var wa, wb := RowWrites(rowA), RowWrites(rowB);
    TwoRows(rowA, rowB);
    RowWritesFor(rowA, qsA, q);
    RowWritesFor(rowB, qsB, q);
    LastQosFlagIs([], wa, q, Default(true));
    assert [] + wa == wa;
    LastQosFlagIs(wa, wb, q, Default(false));
    LastKeyFlagIs(wa, Key(rowA.account, q), Default(true));
    LastKeyFlagOtherWrites(wa, wb, Key(rowA.account, q));
  }

  /** The writes of a row that lists `q` among several QoS: one goes to
      `(account, q)`, all of them go to the row's account, and all those of
      QoS `q` carry the same flag. */
  lemma RowWritesFor(row: AssocRow, qs: seq<string>, q: string)
    requires |qs| > 1 && row.qos == Join(qs, ',') && forall i :: 0 <= i < |qs| ==> ',' !in qs[i]
    requires q in qs
    ensures exists i :: 0 <= i < |RowWrites(row)| && RowWrites(row)[i].key == Key(row.account, q)
    ensures forall i :: 0 <= i < |RowWrites(row)| && RowWrites(row)[i].key.qos == q ==>
      RowWrites(row)[i].flag == Default(q == row.defaultqos)
    ensures forall i :: 0 <= i < |RowWrites(row)| ==> RowWrites(row)[i].key.account == row.account
  {
    RowWritesOfList(row, qs);
    var j :| 0 <= j < |qs| && qs[j] == q;
    assert RowWrites(row)[j].key == Key(row.account, q);
  }

  lemma TwoRows(rowA: AssocRow, rowB: AssocRow)
    requires rowA.user != [] && rowB.user != []
    ensures AssocWrites([rowA], []) == RowWrites(rowA)
    ensures AssocWrites([rowA, rowB], []) == RowWrites(rowA) + RowWrites(rowB)
  {
    assert [rowA, rowB][..1] == [rowA];
    assert [rowA][..0] == [];
  }
}
