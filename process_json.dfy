/**
 * `imagen_psytools_process_json.py`: the pass that turns the FU3
 * Psytools JSON files keyed by PSC1 codes into files keyed by PSC2
 * codes. Each response of the top-level 'responses' list is a dict from
 * subject code to answers; test subjects and unknown codes are dropped,
 * a trailing 'FU3' or 'FU2' is removed from the code, and the answers
 * lose their `id`, `token` and `ipaddr` keys while their dates become
 * ages in days.
 */
module ProcessJson {

  import opened Wrappers
  import opened Text
  import opened Python
  import opened Dates
  import opened Strptime
  import opened Files
  import opened Rows
  import opened Passes
  import opened JsonDumps

  /** The module-level tables the pass reads: `PSC2_FROM_PSC1` and `DOB_FROM_PSC2`. */
  datatype Tables = Tables(psc2FromPsc1: map<string, string>, dob: map<string, Date>)

  predicate ValidTables(t: Tables) { ValidDob(t.dob) }

  /** The keys `_anonymize` deletes. */
  const RemovedKeys: seq<string> := ["id", "token", "ipaddr"]

  /** The keys `_anonymize` turns into ages. */
  const DateKeys: seq<string> := ["startdate", "datestamp", "submitdate"]

  // ---------------------------------------------------------------------
  // `_anonymize`
  // ---------------------------------------------------------------------

  /** `if k in response: del response[k]` */
  function RemoveKey(x: Json, k: string): Outcome<Json>
  {
    var present :- In(k, x);
    if present then DelKey(x, k) else Ok(x)
  }

  /** The first loop of `_anonymize`, over `keys`. */
  function RemoveKeys(x: Json, keys: seq<string>): Outcome<Json>
    decreases |keys|
  {
    if |keys| == 0 then Ok(x)
    else
      var y :- RemoveKey(x, keys[0]);
      RemoveKeys(y, keys[1..])
  }

  /**
   * `(strptime(v, '%Y-%m-%d %H:%M:%S').date() - DOB_FROM_PSC2[PSC2_FROM_PSC1[psc1]]).days`:
   * the timestamp is read before the birth date is looked up.
   */
  function DaysSinceBirth(t: Tables, psc1: string, v: Json): Outcome<Json>
    requires ValidTables(t)
  {
    if !v.Str? then Raised(TypeError)
    else
      var date :- ParseDate(Timestamp, v.s);
      if psc1 !in t.psc2FromPsc1 || t.psc2FromPsc1[psc1] !in t.dob then Raised(KeyError)
      else Ok(Int(DaysBetween(date, t.dob[t.psc2FromPsc1[psc1]])))
  }

  /** `if k in response and response[k]: response[k] = age.days` */
  function AgeKey(t: Tables, psc1: string, x: Json, k: string): Outcome<Json>
    requires ValidTables(t)
  {
    var present :- In(k, x);
    if !present then Ok(x)
    else
      var v :- GetKey(x, k);
      if !Truthy(v) then Ok(x)
      else
        var age :- DaysSinceBirth(t, psc1, v);
        SetKey(x, k, age)
  }

  /** The second loop of `_anonymize`, over `keys`. */
  function AgeKeys(t: Tables, psc1: string, x: Json, keys: seq<string>): Outcome<Json>
    requires ValidTables(t)
    decreases |keys|
  {
    if |keys| == 0 then Ok(x)
    else
      var y :- AgeKey(t, psc1, x, keys[0]);
      AgeKeys(t, psc1, y, keys[1..])
  }

  /** `_anonymize(response, psc1)`: the response it returns, or the exception it raises. */
  function Anonymize(t: Tables, x: Json, psc1: string): Outcome<Json>
    requires ValidTables(t)
  {
    var y :- RemoveKeys(x, RemovedKeys);
    AgeKeys(t, psc1, y, DateKeys)
  }

  /**
   * What the value under a date key becomes: a missing key and a false
   * value stay as they are, anything else is read as a timestamp and
   * becomes the age in days.
   */
  function DateMember(t: Tables, psc1: string, v: Option<Json>): Outcome<Option<Json>>
    requires ValidTables(t)
  {
    if v.None? || !Truthy(v.value) then Ok(v)
    else
      var age :- DaysSinceBirth(t, psc1, v.value);
      Ok(Some(age))
  }

  /** On a dict, removing a key leaves a dict without it and every other key as it was. */
  lemma RemoveKeyObject(x: Json, k: string)
    requires x.Obj?
    ensures RemoveKey(x, k).Ok? && RemoveKey(x, k).value.Obj?
    ensures forall k' :: Lookup(RemoveKey(x, k).value.members, k') == if k' == k then None else Lookup(x.members, k')
  {
    LookupFound(x.members, k);
    forall k' ensures Lookup(RemoveKey(x, k).value.members, k') == if k' == k then None else Lookup(x.members, k') {
      LookupWithoutKey(x.members, k, k');
    }
  }

  /** On a dict, the first loop leaves a dict without the keys and every other key as it was. */
  lemma {:induction false} RemoveKeysObject(x: Json, keys: seq<string>)
    requires x.Obj?
    ensures RemoveKeys(x, keys).Ok? && RemoveKeys(x, keys).value.Obj?
    ensures forall k' :: Lookup(RemoveKeys(x, keys).value.members, k') == if k' in keys then None else Lookup(x.members, k')
    decreases |keys|
  {
    if |keys| > 0 {
      RemoveKeyObject(x, keys[0]);
      var y := RemoveKey(x, keys[0]).value;
      RemoveKeysObject(y, keys[1..]);
      assert forall k' :: k' in keys <==> k' == keys[0] || k' in keys[1..];
    }
  }

  /** On a dict, one date key is converted as `DateMember` says, and every other key is kept. */
  lemma AgeKeyObject(t: Tables, psc1: string, x: Json, k: string)
    requires ValidTables(t) && x.Obj?
    ensures AgeKey(t, psc1, x, k).Ok? <==> DateMember(t, psc1, Lookup(x.members, k)).Ok?
    ensures AgeKey(t, psc1, x, k).Ok? ==> AgeKey(t, psc1, x, k).value.Obj?
    ensures AgeKey(t, psc1, x, k).Ok? ==> forall k' :: (Lookup(AgeKey(t, psc1, x, k).value.members, k') ==
      if k' == k then DateMember(t, psc1, Lookup(x.members, k)).value else Lookup(x.members, k'))
  {
    LookupFound(x.members, k);
    var v := Lookup(x.members, k);
    if v.Some? && Truthy(v.value) && DaysSinceBirth(t, psc1, v.value).Ok? {
      var age := DaysSinceBirth(t, psc1, v.value).value;
      forall k' ensures Lookup(Update(x.members, k, age), k') == if k' == k then Some(age) else Lookup(x.members, k') {
        LookupUpdate(x.members, k, age, k');
      }
    }
  }

  /** On a dict and distinct keys, the second loop converts each of them and keeps every other key. */
  lemma {:induction false} AgeKeysObject(t: Tables, psc1: string, x: Json, keys: seq<string>)
    requires ValidTables(t) && x.Obj?
    requires forall a, b :: 0 <= a < b < |keys| ==> keys[a] != keys[b]
    ensures AgeKeys(t, psc1, x, keys).Ok? <==> forall k :: k in keys ==> DateMember(t, psc1, Lookup(x.members, k)).Ok?
    ensures AgeKeys(t, psc1, x, keys).Ok? ==> AgeKeys(t, psc1, x, keys).value.Obj?
    ensures AgeKeys(t, psc1, x, keys).Ok? ==> forall k' :: (Lookup(AgeKeys(t, psc1, x, keys).value.members, k') ==
      if k' in keys then DateMember(t, psc1, Lookup(x.members, k')).value else Lookup(x.members, k'))
    decreases |keys|
  {
    if |keys| > 0 {
      var tail := keys[1..];
      assert forall k' :: k' in keys <==> k' == keys[0] || k' in tail;
      assert keys[0] !in tail by {
        forall b | 0 <= b < |tail| ensures tail[b] != keys[0] {
          assert tail[b] == keys[b + 1];
        }
      }
      forall a, b | 0 <= a < b < |tail| ensures tail[a] != tail[b] {
        assert tail[a] == keys[a + 1] && tail[b] == keys[b + 1];
      }
      AgeKeyObject(t, psc1, x, keys[0]);
      if AgeKey(t, psc1, x, keys[0]).Ok? {
        AgeKeysObject(t, psc1, AgeKey(t, psc1, x, keys[0]).value, tail);
      }
    }
  }

  /**
   * On a dict, `_anonymize` succeeds exactly when each date key converts;
   * then `id`, `token` and `ipaddr` are gone, each date key holds what
   * `DateMember` makes of it, and every other key keeps its value.
   */
  lemma AnonymizeObject(t: Tables, x: Json, psc1: string)
    requires ValidTables(t) && x.Obj?
    ensures Anonymize(t, x, psc1).Ok? <==> forall k :: k in DateKeys ==> DateMember(t, psc1, Lookup(x.members, k)).Ok?
    ensures Anonymize(t, x, psc1).Ok? ==> Anonymize(t, x, psc1).value.Obj?
    ensures Anonymize(t, x, psc1).Ok? ==> forall k :: (Lookup(Anonymize(t, x, psc1).value.members, k) ==
      if k in RemovedKeys then None
      else if k in DateKeys then DateMember(t, psc1, Lookup(x.members, k)).value
      else Lookup(x.members, k))
  {
    RemoveKeysObject(x, RemovedKeys);
    var y := RemoveKeys(x, RemovedKeys).value;
    AgeKeysObject(t, psc1, y, DateKeys);
  }

  /** `_anonymize(response, psc1)`: deletes the identifying keys, then converts the dates, in place. */
  method AnonymizeStep(t: Tables, response0: Json, psc1: string) returns (r: Outcome<Json>)
    requires ValidTables(t)
    ensures r == Anonymize(t, response0, psc1)
  {
    var response := response0;
    for j := 0 to |RemovedKeys|
      invariant RemoveKeys(response0, RemovedKeys) == RemoveKeys(response, RemovedKeys[j..])
    {
      assert RemovedKeys[j..][0] == RemovedKeys[j] && RemovedKeys[j..][1..] == RemovedKeys[j + 1..];
      var k := RemovedKeys[j];
      var present := In(k, response);
      if present.Raised? {
        return Raised(present.exc);
      }
      if present.value {
        var deleted := DelKey(response, k);
        if deleted.Raised? {
          return Raised(deleted.exc);
        }
        response := deleted.value;
      }
    }
    assert RemovedKeys[|RemovedKeys|..] == [];
    for j := 0 to |DateKeys|
      invariant Anonymize(t, response0, psc1) == AgeKeys(t, psc1, response, DateKeys[j..])
    {
      assert DateKeys[j..][0] == DateKeys[j] && DateKeys[j..][1..] == DateKeys[j + 1..];
      var k := DateKeys[j];
      var present := In(k, response);
      if present.Raised? {
        return Raised(present.exc);
      }
      if present.value {
        var v := GetKey(response, k);
        if v.Raised? {
          return Raised(v.exc);
        }
        if Truthy(v.value) {
          var age := DaysSinceBirth(t, psc1, v.value);
          if age.Raised? {
            return Raised(age.exc);
          }
          response := SetKey(response, k, age.value).value;
        }
      }
    }
    assert DateKeys[|DateKeys|..] == [];
    return Ok(response);
  }

  // ---------------------------------------------------------------------
  // `_psc2_response_from_psc1_reponse`
  // ---------------------------------------------------------------------

  /** `'TEST' in k.upper()` */
  predicate IsTestKey(k: string) { Contains(Upper(k), "TEST") }

  /**
   * The PSC1 code of a key: `k[:-3]` when `k[-3:]` is 'FU3' or 'FU2'
   * (a key shorter than three characters never ends so).
   */
  function Psc1Of(k: string): string
  {
    if EndsWith(k, "FU3") || EndsWith(k, "FU2") then k[..|k| - 3] else k
  }

  /** The member under `k` is re-keyed to `psc2`. */
  predicate MapsTo(t: Tables, k: string, psc2: string)
  {
    !IsTestKey(k) && Psc1Of(k) in t.psc2FromPsc1 && t.psc2FromPsc1[Psc1Of(k)] == psc2
  }

  /** The member under `k` is kept. */
  predicate Kept(t: Tables, k: string)
  {
    !IsTestKey(k) && Psc1Of(k) in t.psc2FromPsc1
  }

  /** What one member adds to the new dict: nothing, or a key and the value stored under it. */
  type Contribution = Option<(string, Json)>

  /**
   * What one member of `psc1_response` adds to the new dict: nothing for
   * a test subject or an unknown code, otherwise its PSC2 code and its
   * anonymized answers.
   */
  function Entry(t: Tables, member: (string, Json)): Outcome<Contribution>
    requires ValidTables(t)
  {
    if !Kept(t, member.0) then Ok(None)
    else
      var answers :- Anonymize(t, member.1, Psc1Of(member.0));
      Ok(Some((t.psc2FromPsc1[Psc1Of(member.0)], answers)))
  }

  /** The contributions of the members, in order. */
  function Entries(t: Tables, members: seq<(string, Json)>): (es: seq<Outcome<Contribution>>)
    requires ValidTables(t)
    ensures |es| == |members| && forall i :: 0 <= i < |members| ==> es[i] == Entry(t, members[i])
  {
    seq(|members|, i requires 0 <= i < |members| => Entry(t, members[i]))
  }

  /** `e` stores something under the key `p`. */
  predicate Adds(e: Outcome<Contribution>, p: string)
  {
    e.Ok? && e.value.Some? && e.value.value.0 == p
  }

  /** `d[key] = value` for the contributions of the first `n`, in order; the first exception ends it. */
  function Collect(entries: seq<Outcome<Contribution>>, n: nat): Outcome<seq<(string, Json)>>
    requires n <= |entries|
    decreases n
  {
    if n == 0 then Ok([])
    else
      var acc :- Collect(entries, n - 1);
      var e :- entries[n - 1];
      Ok(if e.None? then acc else Update(acc, e.value.0, e.value.1))
  }

  /** `_psc2_response_from_psc1_reponse(psc1_response)` */
  function Rekey(t: Tables, x: Json): Outcome<Json>
    requires ValidTables(t)
  {
    var members :- Items(x);
    var m :- Collect(Entries(t, members), |members|);
    Ok(Obj(m))
  }

  /** Once a prefix raises, every longer prefix raises the same exception. */
  lemma {:induction false} CollectRaised(entries: seq<Outcome<Contribution>>, i: nat, n: nat)
    requires i <= n <= |entries| && Collect(entries, i).Raised?
    ensures Collect(entries, n) == Collect(entries, i)
    decreases n
  {
    if n > i {
      CollectRaised(entries, i, n - 1);
    }
  }

  /** The dict is built exactly when no contribution raises. */
  lemma {:induction false} CollectOk(entries: seq<Outcome<Contribution>>, n: nat)
    requires n <= |entries|
    ensures Collect(entries, n).Ok? <==> forall i :: 0 <= i < n ==> entries[i].Ok?
    decreases n
  {
    if n > 0 {
      CollectOk(entries, n - 1);
    }
  }

  /** The keys of the dict built are distinct and are those the contributions name. */
  lemma {:induction false} CollectKeys(entries: seq<Outcome<Contribution>>, n: nat)
    requires n <= |entries| && Collect(entries, n).Ok?
    ensures DistinctKeys(Collect(entries, n).value)
    ensures forall p :: p in Keys(Collect(entries, n).value) <==> exists i :: 0 <= i < n && Adds(entries[i], p)
    decreases n
  {
    if n > 0 {
      CollectKeys(entries, n - 1);
      var acc := Collect(entries, n - 1).value;
      var e := entries[n - 1].value;
      if e.Some? {
        UpdateDistinct(acc, e.value.0, e.value.1);
        assert Adds(entries[n - 1], e.value.0);
      }
    }
  }

  /** Each key of the dict built holds the value of the last contribution naming it. */
  lemma {:induction false} CollectValues(entries: seq<Outcome<Contribution>>, n: nat, p: string)
    requires n <= |entries| && Collect(entries, n).Ok? && Lookup(Collect(entries, n).value, p).Some?
    ensures exists i :: (0 <= i < n && entries[i] == Ok(Some((p, Lookup(Collect(entries, n).value, p).value))) &&
      forall j :: i < j < n ==> !Adds(entries[j], p))
    decreases n
  {
    var acc := Collect(entries, n - 1).value;
    var e := entries[n - 1].value;
    if e.Some? && e.value.0 == p {
      LookupUpdate(acc, p, e.value.1, p);
      assert entries[n - 1] == Ok(Some((p, Lookup(Collect(entries, n).value, p).value)));
    } else {
      assert Lookup(Collect(entries, n).value, p) == Lookup(acc, p) by {
        if e.Some? {
          LookupUpdate(acc, e.value.0, e.value.1, p);
        }
      }
      CollectValues(entries, n - 1, p);
      var i :| 0 <= i < n - 1 && entries[i] == Ok(Some((p, Lookup(acc, p).value))) &&
        forall j :: i < j < n - 1 ==> !Adds(entries[j], p);
      assert forall j :: i < j < n ==> !Adds(entries[j], p);
    }
  }

  /**
   * On a dict, the new dict is built exactly when every kept member
   * anonymizes; its keys are distinct and are the PSC2 codes of the kept
   * members.
   */
  lemma RekeyKeys(t: Tables, x: Json)
    requires ValidTables(t) && x.Obj?
    ensures Rekey(t, x).Ok? <==>
      forall i :: 0 <= i < |x.members| && Kept(t, x.members[i].0) ==> Anonymize(t, x.members[i].1, Psc1Of(x.members[i].0)).Ok?
    ensures Rekey(t, x).Ok? ==> Rekey(t, x).value.Obj? && DistinctKeys(Rekey(t, x).value.members)
    ensures Rekey(t, x).Ok? ==> forall p :: (p in Keys(Rekey(t, x).value.members) <==>
      exists i :: 0 <= i < |x.members| && MapsTo(t, x.members[i].0, p))
  {
    var entries := Entries(t, x.members);
    CollectOk(entries, |x.members|);
    if Collect(entries, |x.members|).Ok? {
      CollectKeys(entries, |x.members|);
      assert forall i, p :: 0 <= i < |x.members| ==> (Adds(entries[i], p) <==> MapsTo(t, x.members[i].0, p));
    }
  }

  /**
   * On a dict, each key of the new dict holds the anonymized answers of
   * the last member re-keyed to it.
   */
  lemma RekeyValues(t: Tables, x: Json, p: string)
    requires ValidTables(t) && x.Obj? && Rekey(t, x).Ok? && Lookup(Rekey(t, x).value.members, p).Some?
    ensures exists i :: (0 <= i < |x.members| && MapsTo(t, x.members[i].0, p) &&
      Anonymize(t, x.members[i].1, Psc1Of(x.members[i].0)) == Ok(Lookup(Rekey(t, x).value.members, p).value) &&
      forall j :: i < j < |x.members| ==> !MapsTo(t, x.members[j].0, p))
  {
    var entries := Entries(t, x.members);
    var v := Lookup(Rekey(t, x).value.members, p).value;
    CollectValues(entries, |x.members|, p);
    var i :| 0 <= i < |x.members| && entries[i] == Ok(Some((p, v))) && forall j :: i < j < |x.members| ==> !Adds(entries[j], p);
    assert MapsTo(t, x.members[i].0, p);
    forall j | i < j < |x.members| ensures !MapsTo(t, x.members[j].0, p) {
      assert entries[j].Ok? by { CollectOk(entries, |x.members|); }
    }
  }

  /**
   * One turn of the loop of `_psc2_response_from_psc1_reponse`: the
   * member at `i` is skipped (`continue`), stored in the new dict, or
   * raises.
   */
  method RekeyMember(t: Tables, members: seq<(string, Json)>, i: nat, psc2Response: seq<(string, Json)>)
    returns (r: Outcome<seq<(string, Json)>>)
    requires ValidTables(t) && i < |members| && Collect(Entries(t, members), i) == Ok(psc2Response)
    ensures r == Collect(Entries(t, members), i + 1)
  {
    var (k, v) := members[i];
    if IsTestKey(k) {
      return Ok(psc2Response);
    }
    var code := k;
    if EndsWith(code, "FU3") || EndsWith(code, "FU2") {
      code := code[..|code| - 3];
    }
    if code !in t.psc2FromPsc1 {
      return Ok(psc2Response);
    }
    var answers := AnonymizeStep(t, v, code);
    if answers.Raised? {
      return Raised(answers.exc);
    }
    return Ok(Update(psc2Response, t.psc2FromPsc1[code], answers.value));
  }

  /** `_psc2_response_from_psc1_reponse(psc1_response)`: a new dict filled in a loop over the items. */
  method RekeyStep(t: Tables, response: Json) returns (r: Outcome<Json>)
    requires ValidTables(t)
    ensures r == Rekey(t, response)
  {
    var items := Items(response);
    if items.Raised? {
      return Raised(items.exc);
    }
    var members := items.value;
    var psc2Response: seq<(string, Json)> := [];
    for i := 0 to |members|
      invariant Collect(Entries(t, members), i) == Ok(psc2Response)
    {
      var next := RekeyMember(t, members, i, psc2Response);
      if next.Raised? {
        CollectRaised(Entries(t, members), i + 1, |members|);
        return Raised(next.exc);
      }
      psc2Response := next.value;
    }
    return Ok(Obj(psc2Response));
  }

  // ---------------------------------------------------------------------
  // `_create_psc2_file`
  // ---------------------------------------------------------------------

  /** `_psc2_response_from_psc1_reponse(r)` for each element `r` of the list. */
  function Rekeyed(t: Tables, elems: seq<Json>): (rs: seq<Outcome<Json>>)
    requires ValidTables(t)
    ensures |rs| == |elems| && forall i :: 0 <= i < |elems| ==> rs[i] == Rekey(t, elems[i])
  {
    seq(|elems|, i requires 0 <= i < |elems| => Rekey(t, elems[i]))
  }

  /** A list comprehension over the first `n` results, in order: the first exception ends it. */
  function Gather(rs: seq<Outcome<Json>>, n: nat): Outcome<seq<Json>>
    requires n <= |rs|
    decreases n
  {
    if n == 0 then Ok([])
    else
      var acc :- Gather(rs, n - 1);
      var r :- rs[n - 1];
      Ok(acc + [r])
  }

  /** The list is built exactly when no element raises, and then holds the results in order. */
  lemma {:induction false} GatherMeaning(rs: seq<Outcome<Json>>, n: nat)
    requires n <= |rs|
    ensures Gather(rs, n).Ok? <==> forall i :: 0 <= i < n ==> rs[i].Ok?
    ensures Gather(rs, n).Ok? ==> (|Gather(rs, n).value| == n && forall i :: 0 <= i < n ==> rs[i] == Ok(Gather(rs, n).value[i]))
    decreases n
  {
    if n > 0 {
      GatherMeaning(rs, n - 1);
    }
  }

  /** Once a prefix raises, every longer prefix raises the same exception. */
  lemma {:induction false} GatherRaised(rs: seq<Outcome<Json>>, i: nat, n: nat)
    requires i <= n <= |rs| && Gather(rs, i).Raised?
    ensures Gather(rs, n) == Gather(rs, i)
    decreases n
  {
    if n > i {
      GatherRaised(rs, i, n - 1);
    }
  }

  /**
   * `if 'responses' in responses: responses['responses'] = [...]` on the
   * decoded file.
   */
  function ProcessResponses(t: Tables, top: Json): Outcome<Json>
    requires ValidTables(t)
  {
    var has :- In("responses", top);
    if !has then Ok(top)
    else
      var list :- GetKey(top, "responses");
      var elems :- Iterate(list);
      var rekeyed :- Gather(Rekeyed(t, elems), |elems|);
      SetKey(top, "responses", Arr(rekeyed))
  }

  /**
   * On a dict: without 'responses' the file is left as it is; with a
   * list under 'responses', each response is re-keyed in place in the
   * list, the i-th element of the new list being what `Rekey` makes of
   * the i-th response, and every other key keeps its value and position.
   */
  lemma ProcessResponsesObject(t: Tables, top: Json)
    requires ValidTables(t) && top.Obj?
    ensures "responses" !in Keys(top.members) ==> ProcessResponses(t, top) == Ok(top)
    ensures Lookup(top.members, "responses").Some? && Lookup(top.members, "responses").value.Arr? ==>
      var elems := Lookup(top.members, "responses").value.items;
      (ProcessResponses(t, top).Ok? <==> forall i :: 0 <= i < |elems| ==> Rekey(t, elems[i]).Ok?)
    ensures ProcessResponses(t, top).Ok? && Lookup(top.members, "responses").Some? ==>
      var out := ProcessResponses(t, top).value;
      out.Obj? && Keys(out.members) == Keys(top.members) &&
      (forall k :: k != "responses" ==> Lookup(out.members, k) == Lookup(top.members, k)) &&
      Lookup(out.members, "responses").Some? && Lookup(out.members, "responses").value.Arr? &&
      |Lookup(out.members, "responses").value.items| == |Iterate(Lookup(top.members, "responses").value).value| &&
      var elems := Iterate(Lookup(top.members, "responses").value).value;
      forall i :: 0 <= i < |elems| ==> Rekey(t, elems[i]) == Ok(Lookup(out.members, "responses").value.items[i])
  {
    LookupFound(top.members, "responses");
    if "responses" in Keys(top.members) {
      var list := Lookup(top.members, "responses").value;
      if Iterate(list).Ok? {
        var elems := Iterate(list).value;
        GatherMeaning(Rekeyed(t, elems), |elems|);
        if Gather(Rekeyed(t, elems), |elems|).Ok? {
          var rekeyed := Gather(Rekeyed(t, elems), |elems|).value;
          forall k ensures Lookup(Update(top.members, "responses", Arr(rekeyed)), k) ==
            if k == "responses" then Some(Arr(rekeyed)) else Lookup(top.members, k)
          {
            LookupUpdate(top.members, "responses", Arr(rekeyed), k);
          }
        }
      }
    }
  }

  /**
   * `_create_psc2_file` on the text of a file: `json.load` (`decode`,
   * ValueError when the text is not JSON), the rewrite, then
   * `json.dump(..., indent=4, separators=(',', ': '), sort_keys=True)`.
   */
  function JsonText(t: Tables, decode: string -> Option<Json>, text: string): Outcome<string>
    requires ValidTables(t)
  {
    match decode(text)
    case None => Raised(ValueError)
    case Some(top) =>
      var out :- ProcessResponses(t, top);
      Ok(Dumps(out))
  }

  /** The list comprehension `[_psc2_response_from_psc1_reponse(r) for r in responses['responses']]`. */
  method RekeyResponses(t: Tables, elems: seq<Json>) returns (r: Outcome<seq<Json>>)
    requires ValidTables(t)
    ensures r == Gather(Rekeyed(t, elems), |elems|)
  {
    var rekeyed: seq<Json> := [];
    for i := 0 to |elems|
      invariant Gather(Rekeyed(t, elems), i) == Ok(rekeyed)
    {
      var response := RekeyStep(t, elems[i]);
      if response.Raised? {
        GatherRaised(Rekeyed(t, elems), i + 1, |elems|);
        return Raised(response.exc);
      }
      rekeyed := rekeyed + [response.value];
    }
    return Ok(rekeyed);
  }

  /** `_create_psc2_file`: decode, rewrite each response with the list comprehension, encode. */
  method JsonFile(t: Tables, decode: string -> Option<Json>, text: string) returns (r: Outcome<string>)
    requires ValidTables(t)
    ensures r == JsonText(t, decode, text)
  {
    var decoded := decode(text);
    if decoded.None? {
      return Raised(ValueError);
    }
    var top := decoded.value;
    var has := In("responses", top);
    if has.Raised? {
      return Raised(has.exc);
    }
    if has.value {
      var list := GetKey(top, "responses");
      if list.Raised? {
        return Raised(list.exc);
      }
      var elems := Iterate(list.value);
      if elems.Raised? {
        return Raised(elems.exc);
      }
      var rekeyed := RekeyResponses(t, elems.value);
      if rekeyed.Raised? {
        return Raised(rekeyed.exc);
      }
      top := SetKey(top, "responses", Arr(rekeyed.value)).value;
    }
    return Ok(Dumps(top));
  }

  // ---------------------------------------------------------------------
  // The directory
  // ---------------------------------------------------------------------

  /**
   * What `create_psc2_files` does with one name `os.listdir` lists:
   * IOError when it cannot be read; the output is written only once the
   * whole file has been rewritten, so an exception leaves no file.
   */
  function JsonRun(t: Tables, decode: string -> Option<Json>, masterDir: string, psc2Dir: string,
                   files: map<string, string>, name: string): FileRun
    requires ValidTables(t)
  {
    var masterPath := PathJoin(masterDir, name);
    if masterPath !in files then (None, Some(IOError))
    else match JsonText(t, decode, files[masterPath])
      case Raised(e) => (None, Some(e))
      case Ok(out) => (Some((PathJoin(psc2Dir, name), out)), None)
  }

  function JsonStep(t: Tables, decode: string -> Option<Json>, masterDir: string, psc2Dir: string)
    : (map<string, string>, string) --> FileRun
    requires ValidTables(t)
  {
    (files, name) requires ValidTables(t) => JsonRun(t, decode, masterDir, psc2Dir, files, name)
  }

  /** `_create_psc2_file(master_path, psc2_path)` for one name. */
  method JsonDirectoryFile(fs: FileSystem, t: Tables, decode: string -> Option<Json>, masterDir: string, psc2Dir: string,
                           name: string)
    returns (exc: Option<Exc>)
    requires ValidTables(t)
    modifies fs
    ensures var run := JsonStep(t, decode, masterDir, psc2Dir)(old(fs.files), name);
      fs.files == ApplyWrites(old(fs.files), WriteOf(run)) && fs.writes == old(fs.writes) + Paths(WriteOf(run)) && exc == run.1
  {
    RunWrites(fs.files, JsonRun(t, decode, masterDir, psc2Dir, fs.files, name));
    var masterPath := PathJoin(masterDir, name);
    if masterPath !in fs.files {
      return Some(IOError);
    }
    var out := JsonFile(t, decode, fs.files[masterPath]);
    if out.Raised? {
      return Some(out.exc);
    }
    fs.Write(PathJoin(psc2Dir, name), out.value);
    exc := None;
  }

  /**
   * One turn of the `for master_file in os.listdir(master_dir)` loop of
   * `create_psc2_files`: when the walk so far made the writes `outs`,
   * the pass over `names[i]` either ends the walk or leaves the rest of
   * it to start at `i + 1`.
   */
  method JsonNext(fs: FileSystem, t: Tables, decode: string -> Option<Json>, masterDir: string, psc2Dir: string,
                  names: seq<string>, i: nat,
                  ghost files0: map<string, string>, ghost writes0: seq<string>, ghost outs: seq<(string, string)>)
    returns (exc: Option<Exc>, ghost outs': seq<(string, string)>)
    requires ValidTables(t) && i < |names|
    requires fs.files == ApplyWrites(files0, outs) && fs.writes == writes0 + Paths(outs)
    requires Walk(files0, names, JsonStep(t, decode, masterDir, psc2Dir)) ==
             Continued(outs, Walk(fs.files, names[i..], JsonStep(t, decode, masterDir, psc2Dir)))
    modifies fs
    ensures fs.files == ApplyWrites(files0, outs') && fs.writes == writes0 + Paths(outs')
    ensures exc.Some? ==> Walk(files0, names, JsonStep(t, decode, masterDir, psc2Dir)) == (outs', exc)
    ensures exc.None? ==> Walk(files0, names, JsonStep(t, decode, masterDir, psc2Dir)) ==
                          Continued(outs', Walk(fs.files, names[i + 1..], JsonStep(t, decode, masterDir, psc2Dir)))
  {
    var step := JsonStep(t, decode, masterDir, psc2Dir);
    ghost var run := step(fs.files, names[i]);
    WalkAdvance(files0, outs, fs.files, names, i, step);
    exc := JsonDirectoryFile(fs, t, decode, masterDir, psc2Dir, names[i]);
    outs' := outs + WriteOf(run);
  }

  /** `create_psc2_files(master_dir, psc2_dir)` over the names `os.listdir(master_dir)` lists. */
  method CreatePsc2Files(fs: FileSystem, t: Tables, decode: string -> Option<Json>, masterDir: string, psc2Dir: string,
                         names: seq<string>)
    returns (exc: Option<Exc>)
    requires ValidTables(t)
    modifies fs
    ensures var w := Walk(old(fs.files), names, JsonStep(t, decode, masterDir, psc2Dir));
      fs.files == ApplyWrites(old(fs.files), w.0) && fs.writes == old(fs.writes) + Paths(w.0) && exc == w.1
  {
    var step := JsonStep(t, decode, masterDir, psc2Dir);
    ghost var outs: seq<(string, string)> := [];
    WalkStart(fs.files, names, step);
    exc := None;
    var i := 0;
    while i < |names|
      invariant 0 <= i <= |names| && exc == None
      invariant fs.files == ApplyWrites(old(fs.files), outs) && fs.writes == old(fs.writes) + Paths(outs)
      invariant Walk(old(fs.files), names, step) == Continued(outs, Walk(fs.files, names[i..], step))
    {
      exc, outs := JsonNext(fs, t, decode, masterDir, psc2Dir, names, i, old(fs.files), old(fs.writes), outs);
      if exc.Some? {
        break;
      }
      i := i + 1;
    }
    if exc.None? {
      WalkDone(old(fs.files), outs, fs.files, names, step);
    }
  }
}
