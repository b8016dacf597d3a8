/**
 * The `k=v,k=v` TRES lists of both listings: `grptresmins` of a QoS
 * (sbalance/sbalance.py:54) and `alloctres` of a job (sbalance/sbalance.py:121).
 */
module Tres {
  import opened Wrappers
  import opened Text
  import opened Records

  /** The text `int()` receives for a value: as is in the QoS listing, with
      every `M` removed in the usage listing. */
  function ValueText(v: string, dropM: bool): string
  {
    if dropM then Remove(v, 'M') else v
  }

  /** The key of a token: the text before its first `=`. */
  function TokenKey(token: string): string
  {
    Split(token, '=')[0]
  }

  /** `k, v = x.split('=')` followed by `int(v)`. */
  function ParseToken(token: string, dropM: bool): (r: Result<(string, int), Error>)
    ensures r.Success? ==> r.value.0 == TokenKey(token)
    ensures '=' !in token ==> r == Failure(MalformedPair(token))
  {
    var kv := Split(token, '=');
    if |kv| != 2 then Failure(MalformedPair(token))
    else
      var text := ValueText(kv[1], dropM);
      match ParseInt(text)
      case None => Failure(NotAnInteger(text))
      case Some(n) => Success((kv[0], n))
  }

  /** A token that parses is `key=value` with a single `=` (so neither
      side holds one), and `int()` accepts its value text. */
  lemma ParseTokenMeaning(token: string, dropM: bool)
    requires ParseToken(token, dropM).Success?
    ensures |Split(token, '=')| == 2
    ensures token == ParseToken(token, dropM).value.0 + "=" + Split(token, '=')[1]
    ensures ParseInt(ValueText(Split(token, '=')[1], dropM)) == Some(ParseToken(token, dropM).value.1)
  {
    JoinSplit(token, '=');
  }

  /** Conversely, `key=value` with a single `=` parses to the key and the
      value `int()` gives. */
  lemma ParseTokenOf(key: string, value: string, dropM: bool)
    requires '=' !in key && '=' !in value
    requires ParseInt(ValueText(value, dropM)).Some?
    ensures ParseToken(key + "=" + value, dropM) == Success((key, ParseInt(ValueText(value, dropM)).value))
  {
    assert Join([key, value], '=') == key + "=" + value;
    SplitJoin([key, value], '=');
  }

  /** Each token's `k, v = x.split('=')` and `int(v)`, in order. */
  function TokenResults(tokens: seq<string>, dropM: bool): (rs: seq<Result<(string, int), Error>>)
    ensures |rs| == |tokens|
    ensures forall i :: 0 <= i < |tokens| ==> rs[i] == ParseToken(tokens[i], dropM)
  {
    seq(|tokens|, i requires 0 <= i < |tokens| => ParseToken(tokens[i], dropM))
  }

  /** The dict comprehension over the token results: each in turn, the first
      bad one aborting, a later pair overwriting an earlier one's key. */
  function Collect(rs: seq<Result<(string, int), Error>>): Result<map<string, int>, Error>
    decreases |rs|
  {
    if rs == [] then Success(map[])
    else
      match rs[0]
      case Failure(e) => Failure(e)
      case Success(kv) =>
        match Collect(rs[1..])
        case Failure(e) => Failure(e)
        case Success(rest) => Success(map[kv.0 := kv.1] + rest)
  }

  /** The dict comprehension over the tokens of a TRES list. */
  function ParsePairs(tokens: seq<string>, dropM: bool): Result<map<string, int>, Error>
  {
    Collect(TokenResults(tokens, dropM))
  }

  /** `{k: int(v) for k, v in (x.split('=') for x in s.strip().split(','))}`:
      it never yields an empty dict, because the split has a first token. */
  function ParseTres(s: string, dropM: bool): (r: Result<map<string, int>, Error>)
    ensures r.Success? ==> r.value != map[]
  {
    var tokens := Split(Strip(s), ',');
    var rs := TokenResults(tokens, dropM);
    assert rs[0].Success? ==> Collect(rs).Success? ==> rs[0].value.0 in Collect(rs).value;
    ParsePairs(tokens, dropM)
  }

  /** One pair as the listings print it, `name=value`. */
  function PairText(p: (string, int)): string
  {
    p.0 + "=" + IntToString(p.1)
  }

  /** The printed pairs, one token each. */
  function PairTexts(pairs: seq<(string, int)>): (tokens: seq<string>)
    ensures |tokens| == |pairs|
    ensures forall i :: 0 <= i < |pairs| ==> tokens[i] == PairText(pairs[i])
    decreases |pairs|
  {
    if pairs == [] then [] else [PairText(pairs[0])] + PairTexts(pairs[1..])
  }

  /** A TRES list as the listings print it: the pairs joined by commas. */
  function Render(pairs: seq<(string, int)>): string
    requires |pairs| >= 1
  {
    Join(PairTexts(pairs), ',')
  }

  /** The dictionary a list of pairs denotes, a later name overriding an earlier one. */
  function PairsMap(pairs: seq<(string, int)>): map<string, int>
    decreases |pairs|
  {
    if pairs == [] then map[] else map[pairs[0].0 := pairs[0].1] + PairsMap(pairs[1..])
  }

  /** A TRES name as the listings print it: non-empty, not starting with
      white space, and free of the two separators. */
  predicate PlainName(name: string)
  {
    name != [] && !IsSpace(name[0]) && ',' !in name && '=' !in name
  }

  /** `int(v)` of a printed integer, with or without the `M` removal. */
  lemma ParseValueText(n: int, dropM: bool)
    ensures ParseInt(ValueText(IntToString(n), dropM)) == Some(n)
  {
    IntToStringChars(n);
    assert 'M' !in IntToString(n);
    ParseIntToString(n);
  }

  /** A printed pair parses back to itself. */
  lemma ParsePairText(p: (string, int), dropM: bool)
    requires '=' !in p.0
    ensures ParseToken(PairText(p), dropM) == Success(p)
  {
    IntToStringChars(p.1);
    ParseValueText(p.1, dropM);
    ParseTokenOf(p.0, IntToString(p.1), dropM);
  }

  /** Results that all succeed collect to the dictionary of their pairs. */
  lemma {:induction false} CollectAllGood(rs: seq<Result<(string, int), Error>>, pairs: seq<(string, int)>)
    requires |rs| == |pairs| && forall i :: 0 <= i < |rs| ==> rs[i] == Success(pairs[i])
    ensures Collect(rs) == Success(PairsMap(pairs))
    decreases |rs|
  {
    if rs != [] {
      assert forall i :: 0 <= i < |rs| - 1 ==> rs[1..][i] == rs[i + 1] && pairs[1..][i] == pairs[i + 1];
      CollectAllGood(rs[1..], pairs[1..]);
    }
  }

  /** The printed pairs parse to the dictionary they denote. */
  lemma ParsePairTexts(pairs: seq<(string, int)>, dropM: bool)
    requires forall i :: 0 <= i < |pairs| ==> '=' !in pairs[i].0
    ensures ParsePairs(PairTexts(pairs), dropM) == Success(PairsMap(pairs))
  {
    var rs := TokenResults(PairTexts(pairs), dropM);
    forall i | 0 <= i < |pairs| ensures rs[i] == Success(pairs[i]) {
      ParsePairText(pairs[i], dropM);
    }
    CollectAllGood(rs, pairs);
  }

  /** A printed pair is a non-empty token without a comma. */
  lemma PairTextPlain(p: (string, int))
    requires PlainName(p.0)
    ensures ',' !in PairText(p) && PairText(p) != []
  {
    IntToStringChars(p.1);
    assert ',' !in IntToString(p.1);
  }

  /** Every printed pair is a non-empty token without a comma. */
  lemma PairTextsPlain(pairs: seq<(string, int)>)
    requires forall i :: 0 <= i < |pairs| ==> PlainName(pairs[i].0)
    ensures forall i :: 0 <= i < |pairs| ==> ',' !in PairTexts(pairs)[i] && PairTexts(pairs)[i] != []
  {
    forall i | 0 <= i < |pairs|
      ensures ',' !in PairTexts(pairs)[i] && PairTexts(pairs)[i] != []
    {
      PairTextPlain(pairs[i]);
    }
  }

  /** The printed list begins with a name and ends with a digit, so strip
      leaves it alone. */
  lemma RenderStripped(pairs: seq<(string, int)>)
    requires |pairs| >= 1
    requires forall i :: 0 <= i < |pairs| ==> PlainName(pairs[i].0)
    ensures Strip(Render(pairs)) == Render(pairs)
  {
    var tokens := PairTexts(pairs);
    PairTextsPlain(pairs);
    var last := pairs[|pairs| - 1];
    var v := IntToString(last.1);
    IntToStringChars(last.1);
    var lastText := tokens[|pairs| - 1];
    assert lastText == last.0 + "=" + v;
    assert lastText[|lastText| - 1] == v[|v| - 1];
    DigitVisible(v[|v| - 1]);
    assert tokens[0][0] == pairs[0].0[0];
    JoinEnds(tokens, ',');
    StripVisible(Render(pairs));
  }

  /** Round trip: parsing a printed TRES list gives back its dictionary, in
      either listing. */
  lemma ParseRender(pairs: seq<(string, int)>, dropM: bool)
    requires |pairs| >= 1
    requires forall i :: 0 <= i < |pairs| ==> PlainName(pairs[i].0)
    ensures ParseTres(Render(pairs), dropM) == Success(PairsMap(pairs))
  {
    RenderStripped(pairs);
    PairTextsPlain(pairs);
    SplitJoin(PairTexts(pairs), ',');
    ParsePairTexts(pairs, dropM);
  }

  lemma RenderSingle(p: (string, int))
    ensures Render([p]) == PairText(p)
    ensures PairsMap([p]) == map[p.0 := p.1]
  {
    assert PairTexts([p]) == [PairText(p)];
    assert [p][1..] == [];
  }

  /** A printed single pair, as a whole list, parses back to it. */
  lemma ParseSinglePair(p: (string, int), dropM: bool)
    requires PlainName(p.0)
    ensures PairText(p) != []
    ensures ParseTres(PairText(p), dropM) == Success(map[p.0 := p.1])
  {
    RenderSingle(p);
    ParseRender([p], dropM);
  }

  /** A memory amount as the usage listing prints it, `<n>M`, reads as
      `n` once the `M` is removed. */
  lemma MemoryValueParses(n: int)
    ensures ParseInt(ValueText(IntToString(n) + "M", true)) == Some(n)
  {
    IntToStringChars(n);
    RemoveAppend(IntToString(n), "M", 'M');
    assert Remove("M", 'M') == "";
    assert IntToString(n) + "" == IntToString(n);
    ParseValueText(n, true);
  }

  /** The QoS listing keeps the text as is, so the same `<n>M` is not an integer there. */
  lemma MemoryValueRejected(n: int)
    ensures ParseInt(ValueText(IntToString(n) + "M", false)) == None
  {
    var s := IntToString(n) + "M";
    IntToStringChars(n);
    assert s[0] == IntToString(n)[0];
    ParseIntRejectsSuffix(s);
  }

  /** No later token carries the same key as token `i`. */
  predicate LastOfKey(tokens: seq<string>, i: int)
    requires 0 <= i < |tokens|
  {
    forall j :: i < j < |tokens| ==> TokenKey(tokens[j]) != TokenKey(tokens[i])
  }

  lemma {:induction false} CollectSucceeds(rs: seq<Result<(string, int), Error>>)
    ensures Collect(rs).Success? <==> forall i :: 0 <= i < |rs| ==> rs[i].Success?
    decreases |rs|
  {
    if rs != [] {
      CollectSucceeds(rs[1..]);
      assert forall i :: 0 < i < |rs| ==> rs[i] == rs[1..][i - 1];
    }
  }

  /** ParsePairs succeeds exactly when every token parses. */
  lemma ParsePairsSucceeds(tokens: seq<string>, dropM: bool)
    ensures ParsePairs(tokens, dropM).Success? <==>
      forall i :: 0 <= i < |tokens| ==> ParseToken(tokens[i], dropM).Success?
  {
    CollectSucceeds(TokenResults(tokens, dropM));
  }

  lemma {:induction false} CollectFirstError(rs: seq<Result<(string, int), Error>>)
    requires Collect(rs).Failure?
    ensures exists i :: (0 <= i < |rs| && rs[i].Failure? && Collect(rs).error == rs[i].error
      && forall j :: 0 <= j < i ==> rs[j].Success?)
    decreases |rs|
  {
    var tail := rs[1..];
    if rs[0].Success? {
      CollectFirstError(tail);
      var i :| 0 <= i < |tail| && tail[i].Failure? && Collect(tail).error == tail[i].error
        && forall j :: 0 <= j < i ==> tail[j].Success?;
      assert rs[i + 1] == tail[i];
      assert forall j :: 0 < j < i + 1 ==> rs[j] == tail[j - 1];
    } else {
      assert Collect(rs).error == rs[0].error;
    }
  }

  /** A failing ParsePairs reports the error of its first bad token. */
  lemma ParsePairsFirstError(tokens: seq<string>, dropM: bool)
    requires ParsePairs(tokens, dropM).Failure?
    ensures exists i :: (0 <= i < |tokens| && ParseToken(tokens[i], dropM).Failure?
      && ParsePairs(tokens, dropM).error == ParseToken(tokens[i], dropM).error
      && forall j :: 0 <= j < i ==> ParseToken(tokens[j], dropM).Success?)
  {
    var rs := TokenResults(tokens, dropM);
    CollectFirstError(rs);
    var i :| 0 <= i < |rs| && rs[i].Failure? && Collect(rs).error == rs[i].error
      && forall j :: 0 <= j < i ==> rs[j].Success?;
    assert rs[i] == ParseToken(tokens[i], dropM);
  }

  lemma {:induction false} CollectKeys(rs: seq<Result<(string, int), Error>>)
    requires Collect(rs).Success?
    ensures forall k :: k in Collect(rs).value ==>
      exists i :: 0 <= i < |rs| && rs[i].Success? && rs[i].value.0 == k
    decreases |rs|
  {
    if rs != [] {
      var tail := rs[1..];
      CollectKeys(tail);
      var rest := Collect(tail).value;
      var m := Collect(rs).value;
      assert m == map[rs[0].value.0 := rs[0].value.1] + rest;
      forall k | k in m
        ensures exists i :: 0 <= i < |rs| && rs[i].Success? && rs[i].value.0 == k
      {
        if k in rest {
          var i :| 0 <= i < |tail| && tail[i].Success? && tail[i].value.0 == k;
          assert rs[i + 1] == tail[i];
        } else {
          assert rs[0].value.0 == k;
        }
      }
    }
  }

  /** Every key of a successful ParsePairs is some token's key. */
  lemma ParsePairsKeys(tokens: seq<string>, dropM: bool)
    requires ParsePairs(tokens, dropM).Success?
    ensures forall k :: k in ParsePairs(tokens, dropM).value ==>
      exists i :: 0 <= i < |tokens| && TokenKey(tokens[i]) == k
  {
    var rs := TokenResults(tokens, dropM);
    CollectKeys(rs);
    forall k | k in ParsePairs(tokens, dropM).value
      ensures exists i :: 0 <= i < |tokens| && TokenKey(tokens[i]) == k
    {
      var i :| 0 <= i < |rs| && rs[i].Success? && rs[i].value.0 == k;
      assert rs[i] == ParseToken(tokens[i], dropM);
    }
  }

  lemma {:induction false} CollectLastWins(rs: seq<Result<(string, int), Error>>, i: int)
    requires Collect(rs).Success?
    requires 0 <= i < |rs|
    requires forall j :: i < j < |rs| && rs[j].Success? && rs[i].Success? ==> rs[j].value.0 != rs[i].value.0
    ensures rs[i].Success?
    ensures rs[i].value.0 in Collect(rs).value && Collect(rs).value[rs[i].value.0] == rs[i].value.1
    decreases |rs|
  {
    CollectSucceeds(rs);
    var tail := rs[1..];
    var rest := Collect(tail).value;
    var m := Collect(rs).value;
    assert m == map[rs[0].value.0 := rs[0].value.1] + rest;
    if i > 0 {
      assert tail[i - 1] == rs[i];
      assert forall j :: i - 1 < j < |tail| ==> tail[j] == rs[j + 1];
      CollectLastWins(tail, i - 1);
    } else if rs[0].value.0 in rest {
      CollectKeys(tail);
      assert false;
    }
  }

  /** Each token's key is in a successful ParsePairs, with the value of the
      last token that carries it. */
  lemma ParsePairsLastWins(tokens: seq<string>, dropM: bool, i: int)
    requires ParsePairs(tokens, dropM).Success?
    requires 0 <= i < |tokens| && LastOfKey(tokens, i)
    ensures ParseToken(tokens[i], dropM).Success?
    ensures TokenKey(tokens[i]) in ParsePairs(tokens, dropM).value
    ensures ParsePairs(tokens, dropM).value[TokenKey(tokens[i])] == ParseToken(tokens[i], dropM).value.1
  {
    var rs := TokenResults(tokens, dropM);
    assert forall j :: 0 <= j < |tokens| ==> rs[j] == ParseToken(tokens[j], dropM);
    CollectLastWins(rs, i);
  }

  /** An empty (or all white space) list is not a list of pairs: its one
      token `''` has no `=`, so the load aborts. */
  lemma ParseTresBlank(s: string, dropM: bool)
    requires Strip(s) == []
    ensures ParseTres(s, dropM) == Failure(MalformedPair(""))
  {
    assert Split("", ',') == [""];
  }
}
