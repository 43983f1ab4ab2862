/**
 * The FU3 download: for every survey the LSRC2 server lists, read its
 * participants to map each access token to a PSC1 code, export its
 * responses, re-key each response by the PSC1 code, serialise with sorted
 * keys and write the file unless an identical one is already there.
 */
module DownloadJson {

  import opened Wrappers
  import opened Text
  import opened Python
  import opened JsonDumps
  import opened Files
  import opened LimeSurvey

  const MasterDir := "/neurospin/imagen/FU3/RAW/PSC1/psytools"

  // ---------------------------------------------------------------------
  // Token to PSC1 map
  // ---------------------------------------------------------------------

  /** One iteration of the participants loop: read "tid", then record "token" -> "attribute_1". */
  function AddParticipant(tokens: Dict, participant: Json): Outcome<Dict>
  {
    var _ :- GetKey(participant, "tid");
    var token :- GetKey(participant, "token");
    var psc1 :- GetKey(participant, "attribute_1");
    DictSet(tokens, token, psc1)
  }

  /** `psc1_from_token` after the loop has gone through `participants`. */
  function TokenMap(participants: seq<Json>): Outcome<Dict>
  {
    if |participants| == 0 then Ok([])
    else
      var tokens :- TokenMap(participants[..|participants| - 1]);
      AddParticipant(tokens, participants[|participants| - 1])
  }

  /** The PSC1 code of the last participant holding `token`, if any. */
  function LastPsc1(participants: seq<Json>, token: Json): Option<Json>
    requires Hashable(token)
  {
    if |participants| == 0 then None
    else
      var p := participants[|participants| - 1];
      if GetKey(p, "token").Ok? && Hashable(GetKey(p, "token").value)
        && PyEq(GetKey(p, "token").value, token) && GetKey(p, "attribute_1").Ok?
      then Some(GetKey(p, "attribute_1").value)
      else LastPsc1(participants[..|participants| - 1], token)
  }

  /**
   * When the loop completes, looking a token up gives the PSC1 code of
   * the last participant holding it, and fails with KeyError for a token
   * no participant holds.
   */
  lemma {:induction false} TokenMapLookup(participants: seq<Json>, token: Json)
    requires Hashable(token) && TokenMap(participants).Ok?
    ensures DictGet(TokenMap(participants).value, token)
      == match LastPsc1(participants, token) case Some(psc1) => Ok(psc1) case None => Raised(KeyError)
  {
    if |participants| > 0 {
      var init := participants[..|participants| - 1];
      var p := participants[|participants| - 1];
      TokenMapLookup(init, token);
      var d := TokenMap(init).value;
      var t := GetKey(p, "token").value;
      var v := GetKey(p, "attribute_1").value;
      assert TokenMap(participants) == DictSet(d, t, v);
      if PyEq(t, token) {
        DictFindEquivalent(DictSet(d, t, v).value, t, token);
      } else {
        PyEqSymmetric(t, token);
        DictGetSetOther(d, t, v, token);
      }
    } else {
      assert DictFind([], token).None?;
    }
  }

  /** `for participant in participants: …` */
  method BuildTokenMap(participants: Json) returns (r: Outcome<Dict>)
    ensures r == TokensOf(participants)
  {
    var it := Iterate(participants);
    if it.Raised? {
      return Raised(it.exc);
    }
    var ps := it.value;
    var tokens: Dict := [];
    var i := 0;
    while i < |ps|
      invariant 0 <= i <= |ps|
      invariant TokenMap(ps[..i]) == Ok(tokens)
    {
      assert ps[..i + 1][..i] == ps[..i];
      var step := AddParticipant(tokens, ps[i]);
      if step.Raised? {
        assert TokenMap(ps[..i + 1]).Raised?;
        TokenMapFailureSticks(ps, i + 1);
        return Raised(step.exc);
      }
      tokens := step.value;
      i := i + 1;
    }
    assert ps[..i] == ps;
    return Ok(tokens);
  }

  /** Once a prefix of the participants fails, the whole loop fails the same way. */
  lemma {:induction false} TokenMapFailureSticks(ps: seq<Json>, n: nat)
    requires n <= |ps| && TokenMap(ps[..n]).Raised?
    ensures TokenMap(ps) == TokenMap(ps[..n])
    decreases |ps| - n
  {
    if n < |ps| {
      assert ps[..n + 1][..n] == ps[..n];
      TokenMapFailureSticks(ps, n + 1);
    } else {
      assert ps[..n] == ps;
    }
  }

  // ---------------------------------------------------------------------
  // Re-keying the responses by PSC1 code
  // ---------------------------------------------------------------------

  /** Python's `<` is defined between two strings or two numbers, not across. */
  predicate Comparable(a: Json, b: Json) { (a.Str? && b.Str?) || (IsNumber(a) && IsNumber(b)) }

  /** The text `json.dumps` writes for a dict key. */
  function KeyText(k: Json): string
    requires Hashable(k)
  {
    match k
    case Str(s) => s
    case Null => "null"
    case Bool(b) => if b then "true" else "false"
    case Int(i) => IntToString(i)
  }

  predicate HashableKeys(d: Dict) { forall i :: 0 <= i < |d| ==> Hashable(d[i].0) }

  /** No two keys of a dict compare equal. */
  predicate DistinctDictKeys(d: Dict)
    requires HashableKeys(d)
  {
    forall i, j :: 0 <= i < j < |d| ==> !PyEq(d[i].0, d[j].0)
  }

  /**
   * The dict as `json.dumps(..., sort_keys=True)` sees it: sorting keys of
   * types Python cannot compare raises TypeError; otherwise every key
   * becomes its text.
   */
  function KeyedObject(d: Dict): (r: Outcome<Json>)
    requires HashableKeys(d)
    ensures r.Raised? <==> exists i, j :: 0 <= i < |d| && 0 <= j < |d| && !Comparable(d[i].0, d[j].0) && |d| >= 2
    ensures r.Raised? ==> r.exc == TypeError
    ensures r.Ok? ==> (r.value.Obj? && |r.value.members| == |d|
      && forall i :: 0 <= i < |d| ==> r.value.members[i] == (KeyText(d[i].0), d[i].1))
  {
    if |d| >= 2 && exists i, j :: 0 <= i < |d| && 0 <= j < |d| && !Comparable(d[i].0, d[j].0) then Raised(TypeError)
    else Ok(Obj(seq(|d|, i requires 0 <= i < |d| => (KeyText(d[i].0), d[i].1))))
  }

  /** Distinct comparable keys have distinct texts, so the serialised object is a proper dict. */
  lemma KeyedObjectDistinct(d: Dict)
    requires HashableKeys(d) && DistinctDictKeys(d) && KeyedObject(d).Ok?
    ensures DistinctKeys(KeyedObject(d).value.members)
  {
    var m := KeyedObject(d).value.members;
    forall i, j | 0 <= i < j < |m| ensures m[i].0 != m[j].0 {
      var a, b := d[i].0, d[j].0;
      assert !PyEq(a, b);
      if |d| >= 2 {
        assert Comparable(a, b);
      }
      if a.Int? && b.Int? && IntToString(a.i) == IntToString(b.i) {
        IntToStringInjective(a.i, b.i);
      }
      if a.Bool? && b.Int? {
        SignShows(b.i);
        assert IsDigit(IntToString(b.i)[|IntToString(b.i)| - 1]);
      }
      if a.Int? && b.Bool? {
        SignShows(a.i);
        assert IsDigit(IntToString(a.i)[|IntToString(a.i)| - 1]);
      }
    }
  }

  /** One item of `r.items()`: its key becomes the PSC1 code of the token its response holds. */
  function RekeyItem(d: Dict, item: (string, Json), tokens: Dict): Outcome<Dict>
  {
    var token :- GetKey(item.1, "token");
    var psc1 :- DictGet(tokens, token);
    DictSet(d, psc1, item.1)
  }

  /** `{psc1_from_token[v['token']]: v for k, v in items}` */
  function RekeyItems(items: seq<(string, Json)>, tokens: Dict): Outcome<Dict>
  {
    if |items| == 0 then Ok([])
    else
      var d :- RekeyItems(items[..|items| - 1], tokens);
      RekeyItem(d, items[|items| - 1], tokens)
  }

  /** Every dict the comprehension builds has hashable, pairwise distinct keys. */
  lemma {:induction false} RekeyItemsKeys(items: seq<(string, Json)>, tokens: Dict)
    requires RekeyItems(items, tokens).Ok?
    ensures HashableKeys(RekeyItems(items, tokens).value) && DistinctDictKeys(RekeyItems(items, tokens).value)
  {
    if |items| > 0 {
      var d := RekeyItems(items[..|items| - 1], tokens).value;
      RekeyItemsKeys(items[..|items| - 1], tokens);
      var item := items[|items| - 1];
      var psc1 := DictGet(tokens, GetKey(item.1, "token").value).value;
      DictSetKeeps(d, psc1, item.1);
    }
  }

  lemma DictSetKeeps(d: Dict, k: Json, v: Json)
    requires HashableKeys(d) && DistinctDictKeys(d) && Hashable(k)
    ensures HashableKeys(DictSet(d, k, v).value) && DistinctDictKeys(DictSet(d, k, v).value)
  {
    var r := DictSet(d, k, v).value;
    match DictFind(d, k)
    case Some(i) =>
      assert forall j :: 0 <= j < |d| ==> r[j].0 == d[j].0;
    case None =>
      assert r == d + [(k, v)];
      forall i, j | 0 <= i < j < |r| ensures !PyEq(r[i].0, r[j].0) {
        if j == |d| {
          PyEqSymmetric(r[i].0, k);
        }
      }
  }

  /** A member of a re-keyed dict made from the response of `item`. */
  predicate KeyedBy(m: (Json, Json), item: (string, Json), tokens: Dict)
  {
    m.1 == item.1 && Hashable(m.0) && GetKey(item.1, "token").Ok?
    && DictGet(tokens, GetKey(item.1, "token").value).Ok?
    && PyEq(DictGet(tokens, GetKey(item.1, "token").value).value, m.0)
  }

  /**
   * Every member of a re-keyed dict is the response of some item, under
   * the PSC1 code its token maps to.
   */
  lemma {:induction false} RekeyItemsMeaning(items: seq<(string, Json)>, tokens: Dict)
    requires RekeyItems(items, tokens).Ok?
    ensures forall m :: m in RekeyItems(items, tokens).value ==>
      exists i :: 0 <= i < |items| && KeyedBy(m, items[i], tokens)
  {
    if |items| > 0 {
      var init := items[..|items| - 1];
      var d := RekeyItems(init, tokens).value;
      RekeyItemsMeaning(init, tokens);
      var item := items[|items| - 1];
      var psc1 := DictGet(tokens, GetKey(item.1, "token").value).value;
      var r := DictSet(d, psc1, item.1).value;
      forall m | m in r
        ensures exists i :: 0 <= i < |items| && KeyedBy(m, items[i], tokens)
      {
        RekeyStep(d, psc1, item, tokens, m);
        if m in d {
          var i :| 0 <= i < |init| && KeyedBy(m, init[i], tokens);
          assert init[i] == items[i];
        } else {
          assert KeyedBy(m, items[|items| - 1], tokens);
        }
      }
    }
  }

  lemma RekeyStep(d: Dict, psc1: Json, item: (string, Json), tokens: Dict, m: (Json, Json))
    requires GetKey(item.1, "token").Ok? && DictGet(tokens, GetKey(item.1, "token").value) == Ok(psc1)
    requires Hashable(psc1) && m in DictSet(d, psc1, item.1).value
    ensures m in d || KeyedBy(m, item, tokens)
  {
    var r := DictSet(d, psc1, item.1).value;
    var k :| 0 <= k < |r| && r[k] == m;
    match DictFind(d, psc1)
    case Some(i) =>
      if k == i {
        PyEqSymmetric(d[i].0, psc1);
      } else {
        assert r[k] == d[k];
      }
    case None =>
      if k == |d| {
        assert PyEq(psc1, psc1);
      } else {
        assert r[k] == d[k];
      }
  }

  /**
   * One response record re-keyed: `{psc1_from_token[v['token']]: v for k, v in r.items()}`.
   * The result is still a Python dict whose keys are PSC1 attributes of
   * any type; they are compared only later, when the document is serialised.
   */
  function RekeyRecord(record: Json, tokens: Dict): (r: Outcome<Dict>)
    ensures !record.Obj? ==> r == Raised(AttributeError)
    ensures r.Ok? ==> record.Obj? && HashableKeys(r.value) && DistinctDictKeys(r.value)
    ensures r.Ok? ==> forall m :: m in r.value ==>
      exists k :: 0 <= k < |record.members| && KeyedBy(m, record.members[k], tokens)
  {
    var items :- Items(record);
    var d :- RekeyItems(items, tokens);
    RekeyItemsKeys(items, tokens);
    RekeyItemsMeaning(items, tokens);
    Ok(d)
  }

  /** The list comprehension over `responses['responses']`, built in full before anything is serialised. */
  function RekeyRecords(records: seq<Json>, tokens: Dict): (r: Outcome<seq<Dict>>)
    ensures r.Ok? ==> (|r.value| == |records|
      && forall i :: 0 <= i < |records| ==> Ok(r.value[i]) == RekeyRecord(records[i], tokens))
  {
    if |records| == 0 then Ok([])
    else
      var first :- RekeyRecord(records[0], tokens);
      var rest :- RekeyRecords(records[1..], tokens);
      Ok([first] + rest)
  }

  /**
   * The comprehension raises exactly when some record raises, and then it
   * raises the exception of the first such record.
   */
  lemma {:induction false} RekeyRecordsRaises(records: seq<Json>, tokens: Dict)
    ensures RekeyRecords(records, tokens).Raised? <==>
      exists i :: 0 <= i < |records| && RekeyRecord(records[i], tokens).Raised?
    ensures RekeyRecords(records, tokens).Raised? ==>
      exists i :: 0 <= i < |records| && RekeyRecord(records[i], tokens) == Raised(RekeyRecords(records, tokens).exc)
        && forall j :: 0 <= j < i ==> RekeyRecord(records[j], tokens).Ok?
  {
    if |records| > 0 && RekeyRecord(records[0], tokens).Ok? {
      RekeyRecordsRaises(records[1..], tokens);
      var r := RekeyRecords(records, tokens);
      if r.Raised? {
        var i :| 0 <= i < |records| - 1 && RekeyRecord(records[1..][i], tokens) == Raised(r.exc)
          && forall j :: 0 <= j < i ==> RekeyRecord(records[1..][j], tokens).Ok?;
        assert RekeyRecord(records[i + 1], tokens) == Raised(r.exc);
        forall j | 0 <= j < i + 1 ensures RekeyRecord(records[j], tokens).Ok? {
          if j > 0 {
            assert records[j] == records[1..][j - 1];
          }
        }
      } else {
        forall i | 0 <= i < |records| ensures RekeyRecord(records[i], tokens).Ok? {
          if i > 0 {
            assert records[i] == records[1..][i - 1];
          }
        }
      }
    }
  }

  /**
   * The re-keyed records as `json.dumps(..., sort_keys=True)` sorts them:
   * TypeError at the first record holding keys Python cannot compare,
   * otherwise every record becomes an object keyed by the texts of its keys.
   */
  function KeyedRecords(ds: seq<Dict>): (r: Outcome<seq<Json>>)
    requires forall i :: 0 <= i < |ds| ==> HashableKeys(ds[i])
    ensures r.Raised? ==> r.exc == TypeError
    ensures r.Ok? ==> (|r.value| == |ds|
      && forall i :: 0 <= i < |ds| ==> KeyedObject(ds[i]) == Ok(r.value[i]))
  {
    if |ds| == 0 then Ok([])
    else
      var first :- KeyedObject(ds[0]);
      var rest :- KeyedRecords(ds[1..]);
      Ok([first] + rest)
  }

  /** Sorting the keys succeeds exactly when it succeeds for every record. */
  lemma {:induction false} KeyedRecordsOk(ds: seq<Dict>)
    requires forall i :: 0 <= i < |ds| ==> HashableKeys(ds[i])
    ensures KeyedRecords(ds).Ok? <==> forall i :: 0 <= i < |ds| ==> KeyedObject(ds[i]).Ok?
  {
    if |ds| > 0 && KeyedObject(ds[0]).Ok? {
      KeyedRecordsOk(ds[1..]);
      forall i | 0 < i < |ds| ensures ds[i] == ds[1..][i - 1] { }
    }
  }

  /**
   * `if 'responses' in responses: responses['responses'] = [...]`, then the
   * key sort of `json.dumps(..., sort_keys=True)` (line 274): only the
   * "responses" member changes, and a document without one is kept. Every
   * record is re-keyed before any key is compared, so a record that raises
   * KeyError or AttributeError does so before a TypeError of the sort.
   */
  function Rekey(responses: Json, tokens: Dict): (r: Outcome<Json>)
    ensures In("responses", responses) == Ok(false) ==> r == Ok(responses)
  {
    var present :- In("responses", responses);
    if !present then Ok(responses)
    else
      var records :- GetKey(responses, "responses");
      var list :- Iterate(records);
      var dicts :- RekeyRecords(list, tokens);
      var rekeyed :- KeyedRecords(dicts);
      SetKey(responses, "responses", Arr(rekeyed))
  }

  /**
   * In a dict with a "responses" list, a record that raises while being
   * re-keyed decides the outcome, whatever the keys of the other records.
   */
  lemma RekeyRaisesFirst(members: seq<(string, Json)>, records: seq<Json>, tokens: Dict, i: nat)
    requires Lookup(members, "responses") == Some(Arr(records))
    requires i < |records| && RekeyRecord(records[i], tokens).Raised?
    requires forall j :: 0 <= j < i ==> RekeyRecord(records[j], tokens).Ok?
    ensures Rekey(Obj(members), tokens) == Raised(RekeyRecord(records[i], tokens).exc)
  {
    LookupFound(members, "responses");
    assert In("responses", Obj(members)) == Ok(true);
    assert GetKey(Obj(members), "responses") == Ok(Arr(records));
    assert Iterate(Arr(records)) == Ok(records);
    RekeyRecordsRaises(records, tokens);
    var k :| 0 <= k < |records| && RekeyRecord(records[k], tokens) == Raised(RekeyRecords(records, tokens).exc)
      && forall j :: 0 <= j < k ==> RekeyRecord(records[j], tokens).Ok?;
    assert k == i;
  }

  /** What `Rekey` computes for a dict with a "responses" list. */
  lemma RekeyUnfolds(members: seq<(string, Json)>, records: seq<Json>, tokens: Dict, after: Json)
    requires Lookup(members, "responses") == Some(Arr(records))
    requires Rekey(Obj(members), tokens) == Ok(after)
    ensures RekeyRecords(records, tokens).Ok? && KeyedRecords(RekeyRecords(records, tokens).value).Ok?
    ensures after == Obj(Update(members, "responses", Arr(KeyedRecords(RekeyRecords(records, tokens).value).value)))
  {
    LookupFound(members, "responses");
    assert In("responses", Obj(members)) == Ok(true);
    assert GetKey(Obj(members), "responses") == Ok(Arr(records));
    assert Iterate(Arr(records)) == Ok(records);
  }

  /** Each record re-keyed into `dicts[i]`, whose keys are sorted into the object `rekeyed[i]`. */
  predicate RekeyedAs(records: seq<Json>, tokens: Dict, dicts: seq<Dict>, rekeyed: seq<Json>)
  {
    |dicts| == |records| && |rekeyed| == |records|
    && forall i :: 0 <= i < |records| ==>
      RekeyRecord(records[i], tokens) == Ok(dicts[i]) && HashableKeys(dicts[i])
      && KeyedObject(dicts[i]) == Ok(rekeyed[i])
  }

  /**
   * In a dict with a "responses" list, that member is replaced by the list
   * of re-keyed records, one for one, and the other members are kept.
   */
  lemma RekeyReplacesRecords(members: seq<(string, Json)>, records: seq<Json>, tokens: Dict, after: Json)
    requires Lookup(members, "responses") == Some(Arr(records))
    requires Rekey(Obj(members), tokens) == Ok(after)
    ensures after.Obj? && Keys(after.members) == Keys(members)
    ensures exists dicts, rekeyed ::
      && RekeyRecords(records, tokens) == Ok(dicts)
      && Lookup(after.members, "responses") == Some(Arr(rekeyed))
      && RekeyedAs(records, tokens, dicts, rekeyed)
    ensures forall k :: k != "responses" ==> Lookup(after.members, k) == Lookup(members, k)
  {
    LookupFound(members, "responses");
    RekeyUnfolds(members, records, tokens, after);
    var dicts := RekeyRecords(records, tokens).value;
    var rekeyed := KeyedRecords(dicts).value;
    assert RekeyedAs(records, tokens, dicts, rekeyed);
    LookupUpdate(members, "responses", Arr(rekeyed), "responses");
    forall k | k != "responses"
      ensures Lookup(Update(members, "responses", Arr(rekeyed)), k) == Lookup(members, k)
    {
      LookupUpdate(members, "responses", Arr(rekeyed), k);
    }
  }

  // ---------------------------------------------------------------------
  // File name
  // ---------------------------------------------------------------------

  /** The file name made from a survey title: " - " becomes "-", then every space "_". */
  function FileName(title: string): (name: string)
    ensures ' ' !in name && EndsWith(name, ".json")
  {
    var once := ReplaceAll(title, " - ", "-");
    ReplaceRemoves(once, ' ', '_');
    ReplaceAll(once, " ", "_") + ".json"
  }

  /** `os.path.join(PSYTOOLS_FU3_MASTER_DIR, title.replace(...).replace(...) + '.json')` */
  function OutputPath(title: Json): (r: Outcome<string>)
    ensures r.Ok? <==> title.Str?
    ensures r.Raised? ==> r.exc == AttributeError
    ensures r.Ok? ==> EndsWith(r.value, ".json")
    ensures r.Ok? && !StartsWith(title.s, "/") ==> r.value == MasterDir + "/" + FileName(title.s)
  {
    if !title.Str? then Raised(AttributeError)
    else
      var name := FileName(title.s);
      if StartsWith(name, "/") then assert StartsWith(title.s, "/") by { FileNameKeepsSlash(title.s); } Ok(name)
      else Ok(PathJoin(MasterDir, name))
  }

  /** The file name starts with '/' only if the title does. */
  lemma FileNameKeepsSlash(title: string)
    requires StartsWith(FileName(title), "/")
    ensures StartsWith(title, "/")
  {
    var once := ReplaceAll(title, " - ", "-");
    var twice := ReplaceAll(once, " ", "_");
    assert FileName(title) == twice + ".json";
    assert FileName(title)[0] == '/';
    assert |twice| > 0 && twice[0] == '/';
    ReplaceFirstChar(once, " ", "_");
    ReplaceFirstChar(title, " - ", "-");
    assert title[..1] == "/";
  }

  /** A replacement whose pattern and text do not start with '/' keeps a leading '/' where it was. */
  lemma ReplaceFirstChar(s: string, pat: string, rep: string)
    requires |pat| > 0 && pat[0] != '/' && |rep| > 0 && rep[0] != '/'
    requires |ReplaceAll(s, pat, rep)| > 0 && ReplaceAll(s, pat, rep)[0] == '/'
    ensures |s| > 0 && s[0] == '/'
  {
  }

  // ---------------------------------------------------------------------
  // One survey
  // ---------------------------------------------------------------------

  /** The file written for a survey once its participants and responses are in. */
  function SurveyFile(title: Json, responses: Json, tokens: Dict): (r: Outcome<(string, string)>)
    ensures r.Ok? ==> (OutputPath(title) == Ok(r.value.0)
      && exists rekeyed :: Rekey(responses, tokens) == Ok(rekeyed) && r.value.1 == Dumps(rekeyed))
  {
    var rekeyed :- Rekey(responses, tokens);
    var path :- OutputPath(title);
    Ok((path, Dumps(rekeyed)))
  }

  /** The `list_participants` request for survey `sid`, numbered after `last`. */
  function ParticipantsRequest(key: Json, sid: Json, last: nat): Request
  {
    Request(last + 1, "list_participants", ParticipantsParams(key, sid, Arr([Str("attribute_1")])))
  }

  /** The `export_responses` request for survey `sid`, numbered after `last` and the participants request. */
  function ResponsesRequest(key: Json, sid: Json, last: nat): Request
  {
    Request(last + 2, "export_responses", [key, sid, Str("json"), Str("fr"), Str("all")])
  }

  /** `psc1_from_token` built from what `participants(...)` returned. */
  function TokensOf(participants: Json): Outcome<Dict>
  {
    var list :- Iterate(participants);
    TokenMap(list)
  }

  /** The participants request and loop, for the reply to request `id`. */
  function TokensFrom(reply: Reply, id: nat): Outcome<Dict>
  {
    var participants :- ParticipantsReply(reply, id);
    TokensOf(participants)
  }

  /** The requests made for survey `sid`: the participants, then, when `n` is 2, the responses. */
  function FetchRequests(key: Json, sid: Json, last: nat, n: nat): (requests: seq<Request>)
    requires 1 <= n <= 2
  {
    if n == 1 then [ParticipantsRequest(key, sid, last)]
    else [ParticipantsRequest(key, sid, last)] + [ResponsesRequest(key, sid, last)]
  }

  /**
   * One survey once its title and id are known, as a function of the
   * replies still to come: the file to write (or the exception) and the
   * requests made.
   */
  function FetchOutcome(title: Json, sid: Json, key: Json, replies: Replies, last: nat, decode: string -> Option<Json>)
    : (r: (Outcome<(string, string)>, seq<Request>))
  {
    var tokens := TokensFrom(Head(replies), last + 1);
    if tokens.Raised? then (Raised(tokens.exc), FetchRequests(key, sid, last, 1))
    else
      var responses := ResponsesReply(Head(Rest(replies)), last + 2, decode);
      if responses.Raised? then (Raised(responses.exc), FetchRequests(key, sid, last, 2))
      else (SurveyFile(title, responses.value, tokens.value), FetchRequests(key, sid, last, 2))
  }

  /** One pass of the survey loop: the file to write (or the exception) and the requests made. */
  function SurveyOutcome(survey: Json, key: Json, replies: Replies, last: nat, decode: string -> Option<Json>)
    : (r: (Outcome<(string, string)>, seq<Request>))
  {
    var title := GetKey(survey, "surveyls_title");
    var sid := GetKey(survey, "sid");
    if title.Raised? then (Raised(title.exc), [])
    else if sid.Raised? then (Raised(sid.exc), [])
    else FetchOutcome(title.value, sid.value, key, replies, last, decode)
  }

  /** One pass of the survey loop, as a function of the survey and of the replies still to come. */
  type SurveyStep = (Json, Replies, nat) -> (Outcome<(string, string)>, seq<Request>)

  /** The pass of the survey loop made with session key `key`. */
  function SurveyStepOf(key: Json, decode: string -> Option<Json>): SurveyStep
  {
    (survey: Json, replies: Replies, last: nat) => SurveyOutcome(survey, key, replies, last, decode)
  }

  /** `step` is the pass of the survey loop made with session key `key`. */
  ghost predicate StepIs(step: SurveyStep, key: Json, decode: string -> Option<Json>)
  {
    forall survey: Json, replies: Replies, last: nat {:trigger SurveyOutcome(survey, key, replies, last, decode)} ::
      Pass(step, survey, replies, last) == SurveyOutcome(survey, key, replies, last, decode)
  }

  /**
   * One pass of the loop `step` stands for. Going through a function keeps
   * every use of `step` independent of the heap of the method using it.
   */
  function Pass(step: SurveyStep, survey: Json, replies: Replies, last: nat): (Outcome<(string, string)>, seq<Request>)
  {
    step(survey, replies, last)
  }

  lemma StepIsOf(key: Json, decode: string -> Option<Json>)
    ensures StepIs(SurveyStepOf(key, decode), key, decode)
  {
  }

  /** The pass of the survey loop for each session key the server may hand out. */
  type SurveySteps = Json -> SurveyStep

  /** The pass `steps` gives for `key` (heap-independent, like `Pass`). */
  function StepFor(steps: SurveySteps, key: Json): SurveyStep
  {
    steps(key)
  }

  /** `steps` gives, for every key, the pass of the survey loop made with that key. */
  ghost predicate StepsAre(steps: SurveySteps, decode: string -> Option<Json>)
  {
    forall key :: StepIs(StepFor(steps, key), key, decode)
  }

  lemma StepsAreOf(decode: string -> Option<Json>)
    ensures StepsAre((key: Json) => SurveyStepOf(key, decode), decode)
  {
    var steps := (key: Json) => SurveyStepOf(key, decode);
    forall key ensures StepIs(StepFor(steps, key), key, decode) {
      StepIsOf(key, decode);
    }
  }

  /**
   * The survey loop over `surveys`: how it ends, the files written (or
   * found unchanged) in order, and the requests made. The first exception
   * ends the loop; the files written before it stay written.
   */
  function SurveyLoop(step: SurveyStep, surveys: seq<Json>, replies: Replies, last: nat)
    : (r: (Outcome<()>, seq<(string, string)>, seq<Request>))
    decreases |surveys|
  {
    if |surveys| == 0 then (Ok(()), [], [])
    else
      var (o, requests) := Pass(step, surveys[0], replies, last);
      if o.Raised? then (Raised(o.exc), [], requests)
      else
        var rest := SurveyLoop(step, surveys[1..], Skip(replies, |requests|), last + |requests|);
        (rest.0, [o.value] + rest.1, requests + rest.2)
  }

  /** The `list_surveys` request, numbered after `last`. */
  function SurveysRequest(key: Json, last: nat): Request
  {
    Request(last + 1, "list_surveys", [key])
  }

  /** The body of the `with` statement: list the surveys, then go through them. */
  function BodyOutcome(step: SurveyStep, key: Json, replies: Replies, last: nat)
    : (r: (Outcome<()>, seq<(string, string)>, seq<Request>))
  {
    var surveys := SurveysReply(Head(replies), last + 1);
    if surveys.Raised? then (Raised(surveys.exc), [], [SurveysRequest(key, last)])
    else
      match Iterate(surveys.value)
      case Raised(e) => (Raised(e), [], [SurveysRequest(key, last)])
      case Ok(list) =>
        var (o, outputs, requests) := SurveyLoop(step, list, Rest(replies), last + 1);
        (o, outputs, [SurveysRequest(key, last)] + requests)
  }

  /** The `get_session_key` request, numbered after `last`. */
  function OpenRequest(auth: (string, string), last: nat): Request
  {
    Request(last + 1, "get_session_key", [Str(auth.0), Str(auth.1)])
  }

  /**
   * The `with` block once the session holds `key`: the body, then the
   * release of the key on the way out. An exception from the release
   * replaces the body's outcome.
   */
  function SessionOutcome(step: SurveyStep, key: Json, replies: Replies, last: nat)
    : (r: (Outcome<()>, seq<(string, string)>, seq<Request>))
  {
    var (body, outputs, requests) := BodyOutcome(step, key, replies, last);
    var id := last + 1 + |requests|;
    var closed := Answer(Head(Skip(replies, |requests|)), id);
    (if closed.Raised? then Raised(closed.exc) else body,
     outputs,
     requests + [Request(id, "release_session_key", [key])])
  }

  /**
   * `download_json` with the credentials `auth`: ask for a session key,
   * then, once the server granted one, run the `with` block with it.
   */
  function DownloadOutcome(auth: (string, string), replies: Replies, last: nat, steps: SurveySteps)
    : (r: (Outcome<()>, seq<(string, string)>, seq<Request>))
  {
    match Answer(Head(replies), last + 1)
    case Raised(e) => (Raised(e), [], [OpenRequest(auth, last)])
    case Ok((response, error)) =>
      var key := SessionKey(response, error);
      var (o, outputs, requests) := SessionOutcome(StepFor(steps, key), key, Rest(replies), last + 1);
      (o, outputs, [OpenRequest(auth, last)] + requests)
  }

  // ---------------------------------------------------------------------
  // What the download promises
  // ---------------------------------------------------------------------

  /** Requests other than `release_session_key`. */
  predicate NoRelease(requests: seq<Request>)
  {
    forall i :: 0 <= i < |requests| ==> requests[i].name != "release_session_key"
  }

  lemma NoReleaseAppend(a: seq<Request>, b: seq<Request>)
    requires NoRelease(a) && NoRelease(b)
    ensures NoRelease(a + b)
  {
    forall i | 0 <= i < |a + b|
      ensures (a + b)[i].name != "release_session_key"
    {
      if i >= |a| {
        assert (a + b)[i] == b[i - |a|];
      }
    }
  }

  /** A survey makes at most two requests, neither of which releases the key. */
  lemma SurveyRequests(survey: Json, key: Json, replies: Replies, last: nat, decode: string -> Option<Json>)
    ensures |SurveyOutcome(survey, key, replies, last, decode).1| <= 2
    ensures NoRelease(SurveyOutcome(survey, key, replies, last, decode).1)
  {
    var title := GetKey(survey, "surveyls_title");
    var sid := GetKey(survey, "sid");
    if title.Ok? && sid.Ok? {
      var n := if TokensFrom(Head(replies), last + 1).Raised? then 1 else 2;
      assert SurveyOutcome(survey, key, replies, last, decode).1 == FetchRequests(key, sid.value, last, n);
      FetchNoRelease(key, sid.value, last, n);
    }
  }

  /** The participants and responses requests do not release the key. */
  lemma FetchNoRelease(key: Json, sid: Json, last: nat, n: nat)
    requires 1 <= n <= 2
    ensures |FetchRequests(key, sid, last, n)| == n && NoRelease(FetchRequests(key, sid, last, n))
  {
  }

  /** A loop whose every pass leaves the key alone leaves it alone. */
  lemma {:induction false} LoopNoRelease(step: SurveyStep, surveys: seq<Json>, replies: Replies, last: nat)
    requires forall survey, replies, last :: NoRelease(Pass(step, survey, replies, last).1)
    ensures NoRelease(SurveyLoop(step, surveys, replies, last).2)
    decreases |surveys|
  {
    if |surveys| > 0 {
      var (o, requests) := Pass(step, surveys[0], replies, last);
      if o.Ok? {
        LoopNoRelease(step, surveys[1..], Skip(replies, |requests|), last + |requests|);
        NoReleaseAppend(requests, SurveyLoop(step, surveys[1..], Skip(replies, |requests|), last + |requests|).2);
      }
    }
  }

  /** The survey loop never releases the key. */
  lemma SurveysNoRelease(step: SurveyStep, key: Json, decode: string -> Option<Json>, surveys: seq<Json>,
                         replies: Replies, last: nat)
    requires StepIs(step, key, decode)
    ensures NoRelease(SurveyLoop(step, surveys, replies, last).2)
  {
    forall survey, replies, last ensures NoRelease(Pass(step, survey, replies, last).1) {
      SurveyRequests(survey, key, replies, last, decode);
    }
    LoopNoRelease(step, surveys, replies, last);
  }

  /** A survey's requests take the identifiers that follow `last`. */
  lemma SurveyNumbered(survey: Json, key: Json, replies: Replies, last: nat, decode: string -> Option<Json>)
    ensures Numbered(SurveyOutcome(survey, key, replies, last, decode).1, last)
  {
  }

  /** A loop whose every pass numbers its requests in turn numbers all of them in turn. */
  lemma {:induction false} LoopNumbered(step: SurveyStep, surveys: seq<Json>, replies: Replies, last: nat)
    requires forall survey, replies, last :: Numbered(Pass(step, survey, replies, last).1, last)
    ensures Numbered(SurveyLoop(step, surveys, replies, last).2, last)
    decreases |surveys|
  {
    if |surveys| > 0 {
      var (o, requests) := Pass(step, surveys[0], replies, last);
      if o.Ok? {
        LoopNumbered(step, surveys[1..], Skip(replies, |requests|), last + |requests|);
        NumberedAppend(requests, SurveyLoop(step, surveys[1..], Skip(replies, |requests|), last + |requests|).2, last);
      }
    }
  }

  /** The body's requests take the identifiers that follow `last`. */
  lemma BodyNumbered(step: SurveyStep, key: Json, replies: Replies, last: nat, decode: string -> Option<Json>)
    requires StepIs(step, key, decode)
    ensures Numbered(BodyOutcome(step, key, replies, last).2, last)
  {
    var surveys := SurveysReply(Head(replies), last + 1);
    if surveys.Ok? && Iterate(surveys.value).Ok? {
      forall survey, replies, last ensures Numbered(Pass(step, survey, replies, last).1, last) {
        SurveyNumbered(survey, key, replies, last, decode);
      }
      LoopNumbered(step, Iterate(surveys.value).value, Rest(replies), last + 1);
      NumberedAppend([SurveysRequest(key, last)], SurveyLoop(step, Iterate(surveys.value).value, Rest(replies), last + 1).2, last);
    }
  }

  /**
   * Every request of a run carries the identifier that follows the one
   * before it: the counter is shared and moves on by one per request.
   */
  lemma DownloadNumbered(auth: (string, string), replies: Replies, last: nat, decode: string -> Option<Json>,
                         steps: SurveySteps)
    requires StepsAre(steps, decode)
    ensures Numbered(DownloadOutcome(auth, replies, last, steps).2, last)
  {
    if Answer(Head(replies), last + 1).Ok? {
      var (response, error) := Answer(Head(replies), last + 1).value;
      var key := SessionKey(response, error);
      var step := StepFor(steps, key);
      var body := BodyOutcome(step, key, Rest(replies), last + 1).2;
      BodyNumbered(step, key, Rest(replies), last + 1, decode);
      NumberedAppend(body, [Request(last + 2 + |body|, "release_session_key", [key])], last + 1);
      NumberedAppend([OpenRequest(auth, last)], SessionOutcome(step, key, Rest(replies), last + 1).2, last);
    }
  }

  /** A run only ever sends identifiers above those already issued, in increasing order. */
  lemma DownloadIssued(auth: (string, string), replies: Replies, sent: seq<Request>, last: nat,
                       decode: string -> Option<Json>, steps: SurveySteps)
    requires Issued(sent, last) && StepsAre(steps, decode)
    ensures var requests := DownloadOutcome(auth, replies, last, steps).2;
      Issued(sent + requests, last + |requests|)
  {
    DownloadNumbered(auth, replies, last, decode, steps);
    IssuedNumbered(sent, last, DownloadOutcome(auth, replies, last, steps).2);
  }

  /** The body never releases the key. */
  lemma BodyNoRelease(step: SurveyStep, key: Json, replies: Replies, last: nat, decode: string -> Option<Json>)
    requires StepIs(step, key, decode)
    ensures NoRelease(BodyOutcome(step, key, replies, last).2)
  {
    var surveys := SurveysReply(Head(replies), last + 1);
    if surveys.Ok? && Iterate(surveys.value).Ok? {
      var loop := SurveyLoop(step, Iterate(surveys.value).value, Rest(replies), last + 1).2;
      SurveysNoRelease(step, key, decode, Iterate(surveys.value).value, Rest(replies), last + 1);
      NoReleaseAppend([SurveysRequest(key, last)], loop);
    }
  }

  /**
   * Once the key was obtained, the session key is released exactly once,
   * by the very last request, and the first request asked for the key.
   */
  lemma ReleasedOnceAtEnd(auth: (string, string), replies: Replies, last: nat, decode: string -> Option<Json>,
                          steps: SurveySteps)
    requires StepsAre(steps, decode) && Answer(Head(replies), last + 1).Ok?
    ensures var requests := DownloadOutcome(auth, replies, last, steps).2;
      |requests| >= 3 && requests[0] == OpenRequest(auth, last)
      && requests[|requests| - 1].name == "release_session_key"
      && NoRelease(requests[..|requests| - 1])
  {
    var (response, error) := Answer(Head(replies), last + 1).value;
    var key := SessionKey(response, error);
    var step := StepFor(steps, key);
    SessionReleasesLast(step, key, Rest(replies), last + 1, decode);
    var block := SessionOutcome(step, key, Rest(replies), last + 1).2;
    var requests := DownloadOutcome(auth, replies, last, steps).2;
    assert requests == [OpenRequest(auth, last)] + block;
    assert requests[..|requests| - 1] == [OpenRequest(auth, last)] + block[..|block| - 1];
    NoReleaseAppend([OpenRequest(auth, last)], block[..|block| - 1]);
  }

  /** The `with` block sends the body's requests, none a release, then releases the key. */
  lemma SessionReleasesLast(step: SurveyStep, key: Json, replies: Replies, last: nat, decode: string -> Option<Json>)
    requires StepIs(step, key, decode)
    ensures var requests := SessionOutcome(step, key, replies, last).2;
      |requests| >= 2 && requests[|requests| - 1].name == "release_session_key"
      && NoRelease(requests[..|requests| - 1])
  {
    var body := BodyOutcome(step, key, replies, last).2;
    assert |body| >= 1;
    BodyNoRelease(step, key, replies, last, decode);
    var requests := SessionOutcome(step, key, replies, last).2;
    assert requests == body + [Request(last + 1 + |body|, "release_session_key", [key])];
    assert requests[..|requests| - 1] == body;
  }

  /** Without a key, the only request is the one asking for it. */
  lemma NoKeyNoRelease(auth: (string, string), replies: Replies, last: nat, steps: SurveySteps)
    requires Answer(Head(replies), last + 1).Raised?
    ensures DownloadOutcome(auth, replies, last, steps)
      == (Raised(Answer(Head(replies), last + 1).exc), [], [OpenRequest(auth, last)])
  {
  }

  /** The first three statements of the survey loop need nothing but the survey itself. */
  lemma SurveyOutcomeLookups(survey: Json, key: Json, replies: Replies, last: nat, decode: string -> Option<Json>)
    requires !survey.Obj?
    ensures SurveyOutcome(survey, key, replies, last, decode) == (Raised(TypeError), [])
  {
  }

  /** `path` is the file named after the title of `survey`. */
  predicate Titled(survey: Json, path: string)
  {
    GetKey(survey, "surveyls_title").Ok? && OutputPath(GetKey(survey, "surveyls_title").value) == Ok(path)
  }

  /**
   * A file is written only when both requests of its survey succeeded,
   * under the path named after the survey's title.
   */
  lemma SurveyOutcomeWrites(survey: Json, key: Json, replies: Replies, last: nat, decode: string -> Option<Json>)
    requires SurveyOutcome(survey, key, replies, last, decode).0.Ok?
    ensures |SurveyOutcome(survey, key, replies, last, decode).1| == 2
    ensures Answer(Head(replies), last + 1).Ok? && Answer(Head(Rest(replies)), last + 2).Ok?
    ensures Titled(survey, SurveyOutcome(survey, key, replies, last, decode).0.value.0)
  {
  }

  /** Each file of the loop is the file of one pass, over one of the surveys. */
  lemma {:induction false} LoopOutputsFromPasses(step: SurveyStep, surveys: seq<Json>, replies: Replies, last: nat, k: nat)
    requires k < |SurveyLoop(step, surveys, replies, last).1|
    ensures exists i, later: Replies, next: nat ::
      (0 <= i < |surveys| && Pass(step, surveys[i], later, next).0 == Ok(SurveyLoop(step, surveys, replies, last).1[k]))
    decreases |surveys|
  {
    var (o, requests) := Pass(step, surveys[0], replies, last);
    var outputs := SurveyLoop(step, surveys, replies, last).1;
    if k == 0 {
      assert Pass(step, surveys[0], replies, last).0 == Ok(outputs[k]);
    } else {
      var replies', last' := Skip(replies, |requests|), last + |requests|;
      LoopOutputsFromPasses(step, surveys[1..], replies', last', k - 1);
      var i, later, next :| 0 <= i < |surveys[1..]|
        && Pass(step, surveys[1..][i], later, next).0 == Ok(SurveyLoop(step, surveys[1..], replies', last').1[k - 1]);
      assert surveys[1..][i] == surveys[i + 1];
      assert Pass(step, surveys[i + 1], later, next).0 == Ok(outputs[k]);
    }
  }

  /** Each file the survey loop writes is named after the title of one of the surveys listed. */
  lemma SurveysWriteTitled(step: SurveyStep, key: Json, decode: string -> Option<Json>, surveys: seq<Json>,
                           replies: Replies, last: nat, k: nat)
    requires StepIs(step, key, decode) && k < |SurveyLoop(step, surveys, replies, last).1|
    ensures exists i :: 0 <= i < |surveys| && Titled(surveys[i], SurveyLoop(step, surveys, replies, last).1[k].0)
  {
    LoopOutputsFromPasses(step, surveys, replies, last, k);
    var i, later, next :| 0 <= i < |surveys|
      && Pass(step, surveys[i], later, next).0 == Ok(SurveyLoop(step, surveys, replies, last).1[k]);
    SurveyOutcomeWrites(surveys[i], key, later, next, decode);
  }

  // ---------------------------------------------------------------------
  // The download loop
  // ---------------------------------------------------------------------

  /** Concatenation is associative (stated once, to keep the loops' contexts small). */
  lemma AppendAssoc<T>(a: seq<T>, b: seq<T>, c: seq<T>)
    ensures a + b + c == a + (b + c)
  {
  }

  /**
   * The two requests of the survey loop: the participants (and the token
   * map built from them), then, if that succeeded, the responses.
   */
  method FetchSurvey(session: Session, sid: Json, decode: string -> Option<Json>)
    returns (tokens: Outcome<Dict>, responses: Outcome<Json>)
    modifies session.counter, session.server
    ensures tokens == TokensFrom(Head(old(session.server.replies)), old(session.counter.last) + 1)
    ensures tokens.Ok? ==> responses == ResponsesReply(Head(Rest(old(session.server.replies))), old(session.counter.last) + 2, decode)
    ensures var n := if tokens.Raised? then 1 else 2;
      session.counter.last == old(session.counter.last) + n
      && session.server.replies == Skip(old(session.server.replies), n)
      && session.server.sent == old(session.server.sent) + FetchRequests(session.key, sid, old(session.counter.last), n)
  {
    ghost var replies0, sent0 := session.server.replies, session.server.sent;
    responses := Raised(ValueError);
    var participants := session.Participants(sid, Arr([Str("attribute_1")]));
    RestSkip(replies0, 0);
    if participants.Raised? {
      return Raised(participants.exc), responses;
    }
    tokens := BuildTokenMap(participants.value);
    if tokens.Raised? {
      return;
    }
    responses := session.Responses(sid, Str("all"), decode);
    RestSkip(replies0, 1);
    AppendAssoc(sent0, [ParticipantsRequest(session.key, sid, session.counter.last - 2)],
                [ResponsesRequest(session.key, sid, session.counter.last - 2)]);
  }

  /** The end of the survey loop: re-key, serialise, name the file and write it if it changed. */
  method WriteSurvey(title: Json, responses: Json, tokens: Dict, fs: FileSystem)
    returns (r: Outcome<(string, string)>)
    modifies fs
    ensures r == SurveyFile(title, responses, tokens)
    ensures r.Ok? ==> (fs.files == old(fs.files)[r.value.0 := r.value.1]
      && fs.writes == old(fs.writes) + Changed(old(fs.files), r.value))
    ensures r.Raised? ==> fs.files == old(fs.files) && fs.writes == old(fs.writes)
  {
    var rekeyed := Rekey(responses, tokens);
    if rekeyed.Raised? {
      return Raised(rekeyed.exc);
    }
    var data := Dumps(rekeyed.value);
    var path := OutputPath(title);
    if path.Raised? {
      return Raised(path.exc);
    }
    var _ := fs.WriteIfChanged(path.value, data);
    r := Ok((path.value, data));
  }

  /** One pass of the survey loop once the title and the id are known. */
  method FetchAndWrite(session: Session, title: Json, sid: Json, fs: FileSystem, decode: string -> Option<Json>)
    returns (r: Outcome<(string, string)>)
    modifies session.counter, session.server, fs
    ensures var (o, requests) := FetchOutcome(title, sid, session.key, old(session.server.replies), old(session.counter.last), decode);
      r == o && session.server.sent == old(session.server.sent) + requests
      && session.counter.last == old(session.counter.last) + |requests|
      && session.server.replies == Skip(old(session.server.replies), |requests|)
    ensures r.Ok? ==> (fs.files == old(fs.files)[r.value.0 := r.value.1]
      && fs.writes == old(fs.writes) + Changed(old(fs.files), r.value))
    ensures r.Raised? ==> fs.files == old(fs.files) && fs.writes == old(fs.writes)
  {
    var tokens, responses := FetchSurvey(session, sid, decode);
    if tokens.Raised? {
      return Raised(tokens.exc);
    }
    if responses.Raised? {
      return Raised(responses.exc);
    }
    r := WriteSurvey(title, responses.value, tokens.value, fs);
  }

  /** The body of the survey loop for one survey: the pass `step` stands for. */
  method DownloadSurvey(session: Session, survey: Json, fs: FileSystem, decode: string -> Option<Json>,
                        ghost step: SurveyStep)
    returns (r: Outcome<(string, string)>)
    requires StepIs(step, session.key, decode)
    modifies session.counter, session.server, fs
    ensures var (o, requests) := Pass(step, survey, old(session.server.replies), old(session.counter.last));
      r == o && session.server.sent == old(session.server.sent) + requests
      && session.counter.last == old(session.counter.last) + |requests|
      && session.server.replies == Skip(old(session.server.replies), |requests|)
    ensures r.Ok? ==> (fs.files == old(fs.files)[r.value.0 := r.value.1]
      && fs.writes == old(fs.writes) + Changed(old(fs.files), r.value))
    ensures r.Raised? ==> fs.files == old(fs.files) && fs.writes == old(fs.writes)
  {
    ghost var expected := SurveyOutcome(survey, session.key, session.server.replies, session.counter.last, decode);
    var title := GetKey(survey, "surveyls_title");
    if title.Raised? {
      assert session.server.sent + [] == session.server.sent;
      return Raised(title.exc);
    }
    var sid := GetKey(survey, "sid");
    if sid.Raised? {
      assert session.server.sent + [] == session.server.sent;
      return Raised(sid.exc);
    }
    r := FetchAndWrite(session, title.value, sid.value, fs, decode);
  }

  /** One more pass of the loop, seen from the surveys still to go. */
  lemma LoopStep(step: SurveyStep, surveys: seq<Json>, i: nat, replies: Replies, last: nat)
    requires i < |surveys|
    ensures var (o, requests) := Pass(step, surveys[i], replies, last);
      SurveyLoop(step, surveys[i..], replies, last)
      == if o.Raised? then (Raised(o.exc), [], requests)
         else
           var rest := SurveyLoop(step, surveys[i + 1..], Skip(replies, |requests|), last + |requests|);
           (rest.0, [o.value] + rest.1, requests + rest.2)
  {
    assert surveys[i..][0] == surveys[i];
    assert surveys[i..][1..] == surveys[i + 1..];
  }

  /**
   * The loop's account of what is still to come, carried over one pass:
   * either the pass raised and the loop ends there, or its file joins the
   * outputs and its requests join those sent.
   */
  lemma EachStep(step: SurveyStep, surveys: seq<Json>, i: nat, replies: Replies, last: nat,
                 outputs: seq<(string, string)>, done: seq<Request>,
                 total: (Outcome<()>, seq<(string, string)>, seq<Request>))
    requires i < |surveys|
    requires var rest := SurveyLoop(step, surveys[i..], replies, last);
      total.0 == rest.0 && total.1 == outputs + rest.1 && total.2 == done + rest.2
    ensures var (o, requests) := Pass(step, surveys[i], replies, last);
      (o.Raised? ==> total == (Raised(o.exc), outputs, done + requests))
      && (o.Ok? ==>
        var rest := SurveyLoop(step, surveys[i + 1..], Skip(replies, |requests|), last + |requests|);
        total.0 == rest.0 && total.1 == (outputs + [o.value]) + rest.1 && total.2 == (done + requests) + rest.2)
  {
    var (o, requests) := Pass(step, surveys[i], replies, last);
    LoopStep(step, surveys, i, replies, last);
    if o.Raised? {
      assert outputs + [] == outputs;
    } else {
      var rest := SurveyLoop(step, surveys[i + 1..], Skip(replies, |requests|), last + |requests|);
      AppendAssoc(done, requests, rest.2);
      AppendAssoc(outputs, [o.value], rest.1);
    }
  }

  /**
   * The state the survey loop has brought about once it has sent `done`
   * and written (or found unchanged) `outputs`, from the state it started in.
   */
  ghost predicate Settled(session: Session, fs: FileSystem, replies0: Replies, last0: nat, sent0: seq<Request>,
                          files0: map<string, string>, writes0: seq<string>,
                          done: seq<Request>, outputs: seq<(string, string)>)
    reads session.server, session.counter, fs
  {
    session.server.sent == sent0 + done && session.counter.last == last0 + |done|
    && session.server.replies == Skip(replies0, |done|)
    && fs.files == ApplyWrites(files0, outputs)
    && fs.writes == writes0 + ChangedPaths(files0, outputs)
  }

  /** `Settled`, and what is left of the loop over `rest` completes the loop's whole outcome `total`. */
  ghost predicate Progress(session: Session, fs: FileSystem, step: SurveyStep, rest: seq<Json>,
                           replies0: Replies, last0: nat, sent0: seq<Request>,
                           files0: map<string, string>, writes0: seq<string>,
                           total: (Outcome<()>, seq<(string, string)>, seq<Request>),
                           done: seq<Request>, outputs: seq<(string, string)>)
    reads session.server, session.counter, fs
  {
    Settled(session, fs, replies0, last0, sent0, files0, writes0, done, outputs)
    && var r := SurveyLoop(step, rest, session.server.replies, session.counter.last);
    total.0 == r.0 && total.1 == outputs + r.1 && total.2 == done + r.2
  }

  /**
   * One turn of the survey loop: survey `i` is downloaded; the loop ends
   * if it raised, and goes on to survey `i + 1` otherwise.
   */
  method DownloadNext(session: Session, surveys: seq<Json>, i: nat, fs: FileSystem, decode: string -> Option<Json>,
                      ghost step: SurveyStep, ghost replies0: Replies, ghost last0: nat, ghost sent0: seq<Request>,
                      ghost files0: map<string, string>, ghost writes0: seq<string>,
                      ghost total: (Outcome<()>, seq<(string, string)>, seq<Request>),
                      ghost done: seq<Request>, ghost outputs: seq<(string, string)>)
    returns (result: Outcome<(string, string)>, ghost done': seq<Request>)
    requires i < |surveys| && StepIs(step, session.key, decode)
    requires Progress(session, fs, step, surveys[i..], replies0, last0, sent0, files0, writes0, total, done, outputs)
    modifies session.counter, session.server, fs
    ensures result.Raised? ==> (total == (Raised(result.exc), outputs, done')
      && Settled(session, fs, replies0, last0, sent0, files0, writes0, done', outputs))
    ensures result.Ok? ==>
      Progress(session, fs, step, surveys[i + 1..], replies0, last0, sent0, files0, writes0, total, done', outputs + [result.value])
  {
    ghost var replies, last := session.server.replies, session.counter.last;
    ghost var pass := Pass(step, surveys[i], replies, last);
    ghost var requests := pass.1;
    EachStep(step, surveys, i, replies, last, outputs, done, total);
    result := DownloadSurvey(session, surveys[i], fs, decode, step);
    assert result == pass.0;
    SkipSkip(replies0, |done|, |requests|);
    AppendAssoc(sent0, done, requests);
    done' := done + requests;
    assert session.server.replies == Skip(replies0, |done'|);
    assert session.counter.last == last0 + |done'|;
    if result.Ok? {
      ApplyWritesSnoc(files0, outputs, result.value);
    }
  }

  /**
   * The survey loop: download each survey in turn; the first exception
   * ends the loop. `outputs` are the files written or found unchanged.
   */
  method DownloadEach(session: Session, surveys: seq<Json>, fs: FileSystem, decode: string -> Option<Json>,
                      ghost step: SurveyStep)
    returns (r: Outcome<()>, ghost outputs: seq<(string, string)>)
    requires StepIs(step, session.key, decode)
    modifies session.counter, session.server, fs
    ensures var (o, outs, requests) := SurveyLoop(step, surveys, old(session.server.replies), old(session.counter.last));
      r == o && outputs == outs && session.server.sent == old(session.server.sent) + requests
      && session.counter.last == old(session.counter.last) + |requests|
      && session.server.replies == Skip(old(session.server.replies), |requests|)
    ensures fs.files == ApplyWrites(old(fs.files), outputs)
    ensures fs.writes == old(fs.writes) + ChangedPaths(old(fs.files), outputs)
  {
    ghost var replies0, last0, sent0 := session.server.replies, session.counter.last, session.server.sent;
    ghost var files0, writes0 := fs.files, fs.writes;
    ghost var total := SurveyLoop(step, surveys, replies0, last0);
    ghost var done: seq<Request> := [];
    outputs := [];
    assert surveys[0..] == surveys;
    assert outputs + total.1 == total.1 && done + total.2 == total.2;
    assert sent0 + done == sent0 && Skip(replies0, |done|) == replies0 && writes0 + [] == writes0;
    var i := 0;
    while i < |surveys|
      invariant 0 <= i <= |surveys|
      invariant Progress(session, fs, step, surveys[i..], replies0, last0, sent0, files0, writes0, total, done, outputs)
    {
      var result;
      result, done := DownloadNext(session, surveys, i, fs, decode, step, replies0, last0, sent0, files0, writes0,
                                   total, done, outputs);
      if result.Raised? {
        return Raised(result.exc), outputs;
      }
      outputs := outputs + [result.value];
      i := i + 1;
    }
    assert surveys[i..] == [];
    r := Ok(());
  }

  /**
   * The body of the `with` statement: list the surveys, then download each
   * in turn.
   */
  method DownloadSurveys(session: Session, fs: FileSystem, decode: string -> Option<Json>, ghost step: SurveyStep)
    returns (r: Outcome<()>, ghost outputs: seq<(string, string)>)
    requires StepIs(step, session.key, decode)
    modifies session.counter, session.server, fs
    ensures var (o, outs, requests) := BodyOutcome(step, session.key, old(session.server.replies), old(session.counter.last));
      r == o && outputs == outs && session.server.sent == old(session.server.sent) + requests
      && session.counter.last == old(session.counter.last) + |requests|
      && session.server.replies == Skip(old(session.server.replies), |requests|)
    ensures fs.files == ApplyWrites(old(fs.files), outputs)
    ensures fs.writes == old(fs.writes) + ChangedPaths(old(fs.files), outputs)
  {
    ghost var replies0, last0, sent0 := session.server.replies, session.counter.last, session.server.sent;
    ghost var expected := BodyOutcome(step, session.key, replies0, last0);
    ghost var listed := SurveysRequest(session.key, last0);
    outputs := [];
    var surveys := session.Surveys();
    RestSkip(replies0, 0);
    assert session.server.sent == sent0 + [listed];
    if surveys.Raised? {
      assert expected == (Raised(surveys.exc), [], [listed]);
      return Raised(surveys.exc), outputs;
    }
    var it := Iterate(surveys.value);
    if it.Raised? {
      assert expected == (Raised(it.exc), [], [listed]);
      return Raised(it.exc), outputs;
    }
    ghost var loop := SurveyLoop(step, it.value, Rest(replies0), last0 + 1);
    assert expected == (loop.0, loop.1, [listed] + loop.2);
    r, outputs := DownloadEach(session, it.value, fs, decode, step);
    AppendAssoc(sent0, [SurveysRequest(session.key, last0)], loop.2);
    SkipSkip(replies0, 1, |loop.2|);
  }

  /**
   * The `with` statement once the session is open: the body, then
   * `__exit__`, which releases the key whether or not the body raised.
   */
  method DownloadOpened(session: Session, fs: FileSystem, decode: string -> Option<Json>, ghost step: SurveyStep)
    returns (r: Outcome<()>, ghost outputs: seq<(string, string)>)
    requires StepIs(step, session.key, decode)
    modifies session, session.counter, session.server, fs
    ensures var (o, outs, requests) := SessionOutcome(step, old(session.key), old(session.server.replies), old(session.counter.last));
      r == o && outputs == outs && session.server.sent == old(session.server.sent) + requests
      && session.counter.last == old(session.counter.last) + |requests|
      && session.server.replies == Skip(old(session.server.replies), |requests|)
    ensures r.Ok? ==> session.key == Null && !session.httpOpen
    ensures fs.files == ApplyWrites(old(fs.files), outputs)
    ensures fs.writes == old(fs.writes) + ChangedPaths(old(fs.files), outputs)
  {
    ghost var replies0, last0, sent0 := session.server.replies, session.counter.last, session.server.sent;
    ghost var expected := BodyOutcome(step, session.key, replies0, last0);
    var body;
    body, outputs := DownloadSurveys(session, fs, decode, step);
    var closed := session.Close();
    RestSkip(replies0, |expected.2|);
    if closed.Raised? {
      r := closed;
    } else {
      r := body;
    }
  }

  /**
   * `download_json(base_url)` with the credentials `auth` found in the
   * netrc file. The session is released whenever it was opened, even when
   * downloading raised; an exception from the release takes precedence.
   */
  method DownloadAs(auth: (string, string), url: string, counter: RequestCounter, server: Server,
                    fs: FileSystem, decode: string -> Option<Json>, ghost steps: SurveySteps)
    returns (r: Outcome<()>, ghost outputs: seq<(string, string)>)
    requires StepsAre(steps, decode)
    modifies counter, server, fs
    ensures var (o, outs, requests) := DownloadOutcome(auth, old(server.replies), old(counter.last), steps);
      r == o && outputs == outs && server.sent == old(server.sent) + requests
      && counter.last == old(counter.last) + |requests|
    ensures fs.files == ApplyWrites(old(fs.files), outputs)
    ensures fs.writes == old(fs.writes) + ChangedPaths(old(fs.files), outputs)
  {
    ghost var sent0, last0, replies0 := server.sent, counter.last, server.replies;
    var (username, password) := auth;
    var started := Session.Open(url, username, password, counter, server);
    ghost var answer := Answer(Head(replies0), last0 + 1);
    assert server.sent == sent0 + [OpenRequest(auth, last0)];
    if started.Raised? {
      assert answer.Raised?;
      return Raised(started.exc), [];
    }
    var session := started.value;
    assert answer.Ok? && session.key == SessionKey(answer.value.0, answer.value.1);
    ghost var step := StepFor(steps, session.key);
    ghost var block := SessionOutcome(step, session.key, Rest(replies0), last0 + 1);
    assert DownloadOutcome(auth, replies0, last0, steps) == (block.0, block.1, [OpenRequest(auth, last0)] + block.2);
    r, outputs := DownloadOpened(session, fs, decode, step);
    AppendAssoc(sent0, [OpenRequest(auth, last0)], block.2);
  }

  /**
   * `download_json(base_url)`: `auth` stands for the credentials found in
   * the netrc file, if any; without them `netrc.authenticators` returns
   * None and unpacking it raises TypeError before anything is sent.
   * Identifiers stay increasing across runs that share the counter.
   */
  method DownloadJson(auth: Option<(string, string)>, url: string, counter: RequestCounter, server: Server,
                      fs: FileSystem, decode: string -> Option<Json>, ghost steps: SurveySteps)
    returns (r: Outcome<()>, ghost outputs: seq<(string, string)>)
    requires IdsIssued(counter, server) && StepsAre(steps, decode)
    modifies counter, server, fs
    ensures IdsIssued(counter, server)
    ensures auth.None? ==> r == Raised(TypeError) && server.sent == old(server.sent) && outputs == []
    ensures auth.Some? ==> var (o, outs, requests) := DownloadOutcome(auth.value, old(server.replies), old(counter.last), steps);
      r == o && outputs == outs && server.sent == old(server.sent) + requests
      && counter.last == old(counter.last) + |requests|
    ensures fs.files == ApplyWrites(old(fs.files), outputs)
    ensures fs.writes == old(fs.writes) + ChangedPaths(old(fs.files), outputs)
  {
    if auth.None? {
      return Raised(TypeError), [];
    }
    DownloadIssued(auth.value, server.replies, server.sent, counter.last, decode, steps);
    r, outputs := DownloadAs(auth.value, url, counter, server, fs, decode, steps);
  }
}
