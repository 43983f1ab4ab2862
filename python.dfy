/**
 * Python values as produced by `json.loads`, Python exceptions, and the
 * built-in operators the scripts apply to such values (`x[k]`, `k in x`,
 * `x[k] = v`, iteration, truth value, `==`, dictionaries keyed by
 * hashable values).
 */
module Python {

  import opened Wrappers
  import opened Text

  /**
   * A decoded JSON value. An object keeps the insertion order of its
   * members, like a Python dict; its keys are strings. Floating point
   * numbers are not modelled.
   */
  datatype Json =
    | Null
    | Bool(b: bool)
    | Int(i: int)
    | Str(s: string)
    | Arr(items: seq<Json>)
    | Obj(members: seq<(string, Json)>)

  /** The Python exceptions the modelled code raises or lets through. */
  datatype Exc =
    | KeyError
    | TypeError
    | AttributeError
    | ValueError
    | IndexError
    | AssertionError
    | UnboundLocalError
    | ConnectionError
    | IOError
    | NameError
    /** `dicom.filereader.InvalidDicomError`, raised by the DICOM reader. */
    | InvalidDicomError
    /** `LimeSurveyError(message, code)` raised by the JSON-RPC client. */
    | LimeSurveyError(message: Json, code: Json)
    /** A plain `Exception(message)` raised by the scripts themselves. */
    | Failure(text: string)

  /** The result of Python code: a value, or the exception it raised. */
  datatype Outcome<+T> = Ok(value: T) | Raised(exc: Exc) {
    predicate IsFailure() { Raised? }
    function PropagateFailure<U>(): Outcome<U>
      requires Raised?
    {
      Raised(exc)
    }
    function Extract(): T
      requires Ok?
    {
      value
    }
  }

  /** `bool(j)` */
  predicate Truthy(j: Json) {
    match j
    case Null => false
    case Bool(b) => b
    case Int(i) => i != 0
    case Str(s) => |s| > 0
    case Arr(items) => |items| > 0
    case Obj(members) => |members| > 0
  }

  /** Values a Python dict accepts as keys. */
  predicate Hashable(j: Json) { !j.Arr? && !j.Obj? }

  predicate IsNumber(j: Json) { j.Int? || j.Bool? }

  function NumberValue(j: Json): int
    requires IsNumber(j)
  {
    if j.Int? then j.i else if j.b then 1 else 0
  }

  /**
   * `a == b` when `b` is hashable: booleans compare equal to the integers
   * 0 and 1, everything else compares structurally.
   */
  predicate PyEq(a: Json, b: Json)
    requires Hashable(b)
  {
    if IsNumber(a) && IsNumber(b) then NumberValue(a) == NumberValue(b) else a == b
  }

  /** The keys of an object's members, in order. */
  function Keys(members: seq<(string, Json)>): (ks: seq<string>)
    ensures |ks| == |members| && forall i :: 0 <= i < |members| ==> ks[i] == members[i].0
  {
    seq(|members|, i requires 0 <= i < |members| => members[i].0)
  }

  /** No key occurs twice (always true of a Python dict). */
  predicate DistinctKeys(members: seq<(string, Json)>) {
    forall i, j :: 0 <= i < j < |members| ==> members[i].0 != members[j].0
  }

  /** The value under key `k`, if there is one. */
  function Lookup(members: seq<(string, Json)>, k: string): Option<Json>
  {
    if |members| == 0 then None
    else if members[0].0 == k then Some(members[0].1)
    else Lookup(members[1..], k)
  }

  /** A key is found exactly when it is one of the keys, and then with a value stored under it. */
  lemma {:induction false} LookupFound(members: seq<(string, Json)>, k: string)
    ensures Lookup(members, k).None? <==> k !in Keys(members)
    ensures Lookup(members, k).Some? ==> exists i :: 0 <= i < |members| && members[i] == (k, Lookup(members, k).value)
  {
    if |members| > 0 {
      assert Keys(members) == [members[0].0] + Keys(members[1..]);
      if members[0].0 != k {
        LookupFound(members[1..], k);
        if Lookup(members, k).Some? {
          var i :| 0 <= i < |members[1..]| && members[1..][i] == (k, Lookup(members, k).value);
          assert members[i + 1] == (k, Lookup(members, k).value);
        }
      }
    }
  }

  /** The value under a key is the one of its first member. */
  lemma {:induction false} LookupIndex(members: seq<(string, Json)>, i: nat)
    requires i < |members| && forall j :: 0 <= j < i ==> members[j].0 != members[i].0
    ensures Lookup(members, members[i].0) == Some(members[i].1)
  {
    if i > 0 {
      LookupIndex(members[1..], i - 1);
    }
  }

  /** `d[k] = v` on a dict: an existing key keeps its position. */
  function Update(members: seq<(string, Json)>, k: string, v: Json): (r: seq<(string, Json)>)
    ensures Keys(r) == if k in Keys(members) then Keys(members) else Keys(members) + [k]
  {
    if |members| == 0 then [(k, v)]
    else if members[0].0 == k then [(k, v)] + members[1..]
    else
      assert Keys(members) == [members[0].0] + Keys(members[1..]);
      var r := [members[0]] + Update(members[1..], k, v);
      assert Keys(r) == [members[0].0] + Keys(Update(members[1..], k, v));
      r
  }

  /** After `d[k] = v`, `d[k]` is `v` and every other key keeps its value. */
  lemma {:induction false} LookupUpdate(members: seq<(string, Json)>, k: string, v: Json, k': string)
    ensures Lookup(Update(members, k, v), k') == if k' == k then Some(v) else Lookup(members, k')
  {
    if |members| > 0 && members[0].0 != k {
      LookupUpdate(members[1..], k, v, k');
    }
  }

  /** `d[k] = v` keeps the keys of a dict distinct. */
  lemma UpdateDistinct(members: seq<(string, Json)>, k: string, v: Json)
    requires DistinctKeys(members)
    ensures DistinctKeys(Update(members, k, v))
  {
    var r := Update(members, k, v);
    var ks := Keys(r);
    forall i, j | 0 <= i < j < |r| ensures r[i].0 != r[j].0 {
      assert ks[i] == r[i].0 && ks[j] == r[j].0;
      if k !in Keys(members) && j == |members| {
        assert ks[j] == k;
        assert ks[i] == Keys(members)[i];
      } else {
        assert ks[i] == Keys(members)[i] && ks[j] == Keys(members)[j];
      }
    }
  }

  /** `x[k]` for a string key `k`. */
  function GetKey(x: Json, k: string): (r: Outcome<Json>)
    ensures r.Raised? ==> r.exc == if x.Obj? then KeyError else TypeError
  {
    match x
    case Obj(members) =>
      (match Lookup(members, k)
       case Some(v) => Ok(v)
       case None => Raised(KeyError))
    case _ => Raised(TypeError)
  }

  /** `x[k]` succeeds exactly on a dict holding the key, with the value stored under it. */
  lemma GetKeyFound(x: Json, k: string)
    ensures GetKey(x, k).Ok? <==> x.Obj? && k in Keys(x.members)
    ensures GetKey(x, k).Ok? ==> exists i :: 0 <= i < |x.members| && x.members[i] == (k, GetKey(x, k).value)
  {
    if x.Obj? {
      LookupFound(x.members, k);
    }
  }

  /** `k in x` for a string `k`: a key of a dict, a substring of a string, an element of a list. */
  function In(k: string, x: Json): (r: Outcome<bool>)
    ensures r.Raised? <==> !(x.Obj? || x.Str? || x.Arr?)
    ensures x.Obj? ==> r == Ok(k in Keys(x.members))
  {
    match x
    case Obj(members) => Ok(k in Keys(members))
    case Str(s) => Ok(Text.Contains(s, k))
    case Arr(items) => Ok(Str(k) in items)
    case _ => Raised(TypeError)
  }

  /** `x[k] = v` for a string key `k`. */
  function SetKey(x: Json, k: string, v: Json): (r: Outcome<Json>)
    ensures r.Ok? <==> x.Obj?
    ensures r.Ok? ==> r.value.Obj? && GetKey(r.value, k) == Ok(v)
    ensures r.Raised? ==> r.exc == TypeError
  {
    match x
    case Obj(members) =>
      LookupUpdate(members, k, v, k);
      Ok(Obj(Update(members, k, v)))
    case _ => Raised(TypeError)
  }

  /** The members whose key is not `k`, in order. */
  function WithoutKey(members: seq<(string, Json)>, k: string): seq<(string, Json)>
  {
    if |members| == 0 then []
    else (if members[0].0 == k then [] else [members[0]]) + WithoutKey(members[1..], k)
  }

  /** After removing `k`, `k` is not found and every other key keeps its value. */
  lemma {:induction false} LookupWithoutKey(members: seq<(string, Json)>, k: string, k': string)
    ensures Lookup(WithoutKey(members, k), k') == if k' == k then None else Lookup(members, k')
  {
    if |members| > 0 {
      LookupWithoutKey(members[1..], k, k');
      var rest := WithoutKey(members[1..], k);
      if members[0].0 != k {
        assert ([members[0]] + rest)[1..] == rest;
      } else {
        assert WithoutKey(members, k) == rest;
      }
    }
  }

  /** `del x[k]` for a string key `k`. */
  function DelKey(x: Json, k: string): (r: Outcome<Json>)
    ensures r.Ok? <==> x.Obj? && k in Keys(x.members)
    ensures r.Raised? ==> r.exc == if x.Obj? then KeyError else TypeError
  {
    match x
    case Obj(members) => if k in Keys(members) then Ok(Obj(WithoutKey(members, k))) else Raised(KeyError)
    case _ => Raised(TypeError)
  }

  /** `for e in x`: the elements of a list, the keys of a dict, the characters of a string. */
  function Iterate(x: Json): (r: Outcome<seq<Json>>)
    ensures r.Raised? <==> !(x.Obj? || x.Str? || x.Arr?)
    ensures r.Raised? ==> r.exc == TypeError
    ensures x.Arr? ==> r == Ok(x.items)
    ensures r.Ok? ==> |r.value| == match x case Arr(items) => |items| case Obj(m) => |m| case Str(s) => |s| case _ => 0
  {
    match x
    case Arr(items) => Ok(items)
    case Obj(members) => Ok(seq(|members|, i requires 0 <= i < |members| => Str(members[i].0)))
    case Str(s) => Ok(seq(|s|, i requires 0 <= i < |s| => Str([s[i]])))
    case _ => Raised(TypeError)
  }

  /** `x.items()`: only a dict has it. */
  function Items(x: Json): (r: Outcome<seq<(string, Json)>>)
    ensures r.Ok? <==> x.Obj?
    ensures r.Ok? ==> r.value == x.members
    ensures r.Raised? ==> r.exc == AttributeError
  {
    if x.Obj? then Ok(x.members) else Raised(AttributeError)
  }

  /**
   * A Python dict whose keys are any hashable value, in insertion order.
   * Keys are compared with `==`, so `True` and `1` are the same key.
   */
  type Dict = seq<(Json, Json)>

  /** The position of the key equal to `k`, if any. */
  function DictFind(d: Dict, k: Json): (r: Option<nat>)
    requires Hashable(k)
    ensures r.Some? ==> r.value < |d| && PyEq(d[r.value].0, k)
    ensures r.None? ==> forall i :: 0 <= i < |d| ==> !PyEq(d[i].0, k)
  {
    if |d| == 0 then None
    else if PyEq(d[0].0, k) then Some(0)
    else match DictFind(d[1..], k)
      case None => None
      case Some(i) => Some(i + 1)
  }

  /** Keys that compare equal find the same entry. */
  lemma {:induction false} DictFindEquivalent(d: Dict, k: Json, k': Json)
    requires Hashable(k) && Hashable(k') && PyEq(k, k')
    ensures DictFind(d, k) == DictFind(d, k')
  {
    if |d| > 0 {
      DictFindEquivalent(d[1..], k, k');
    }
  }

  /** `d[k]` */
  function DictGet(d: Dict, k: Json): (r: Outcome<Json>)
    ensures !Hashable(k) ==> r == Raised(TypeError)
    ensures Hashable(k) ==> (r.Raised? <==> DictFind(d, k).None?)
    ensures r.Raised? ==> r.exc in {TypeError, KeyError}
  {
    if !Hashable(k) then Raised(TypeError)
    else match DictFind(d, k)
      case Some(i) => Ok(d[i].1)
      case None => Raised(KeyError)
  }

  /** `d[k] = v`: an existing equal key keeps its position and its original form. */
  function DictSet(d: Dict, k: Json, v: Json): (r: Outcome<Dict>)
    ensures r.Raised? <==> !Hashable(k)
    ensures r.Raised? ==> r.exc == TypeError
    ensures r.Ok? ==> DictGet(r.value, k) == Ok(v)
  {
    if !Hashable(k) then Raised(TypeError)
    else match DictFind(d, k)
      case Some(i) =>
        var r := d[i := (d[i].0, v)];
        assert DictFind(r, k) == Some(i) by { DictFindSameKeys(d, r, k); }
        Ok(r)
      case None =>
        var r := d + [(k, v)];
        DictFindAppend(d, k, v);
        Ok(r)
  }

  lemma {:induction false} DictFindSameKeys(d: Dict, e: Dict, k: Json)
    requires Hashable(k) && |d| == |e| && forall i :: 0 <= i < |d| ==> d[i].0 == e[i].0
    ensures DictFind(d, k) == DictFind(e, k)
  {
    if |d| > 0 {
      DictFindSameKeys(d[1..], e[1..], k);
    }
  }

  lemma {:induction false} DictFindAppend(d: Dict, k: Json, v: Json)
    requires Hashable(k) && DictFind(d, k).None?
    ensures DictFind(d + [(k, v)], k) == Some(|d|)
  {
    if |d| > 0 {
      assert (d + [(k, v)])[1..] == d[1..] + [(k, v)];
      DictFindAppend(d[1..], k, v);
    } else {
      assert PyEq(k, k);
    }
  }

  /** Setting one key does not change the value under a key that differs from it. */
  lemma DictGetSetOther(d: Dict, k: Json, v: Json, k': Json)
    requires Hashable(k) && Hashable(k') && !PyEq(k', k)
    ensures DictSet(d, k, v).Ok?
    ensures DictGet(DictSet(d, k, v).value, k') == DictGet(d, k')
  {
    var r := DictSet(d, k, v).value;
    var found := DictFind(d, k);
    if found.Some? {
      var i := found.value;
      DictFindSameKeys(d, r, k');
      PyEqDistinguishes(d[i].0, k, k');
    } else {
      DictFindAppendOther(d, k, v, k');
    }
  }

  lemma PyEqDistinguishes(a: Json, b: Json, c: Json)
    requires Hashable(b) && Hashable(c) && PyEq(a, b) && !PyEq(c, b)
    ensures !PyEq(a, c)
  {
  }

  lemma PyEqSymmetric(a: Json, b: Json)
    requires Hashable(a) && Hashable(b)
    ensures PyEq(a, b) <==> PyEq(b, a)
  {
  }

  lemma {:induction false} DictFindAppendOther(d: Dict, k: Json, v: Json, k': Json)
    requires Hashable(k) && Hashable(k') && !PyEq(k', k)
    ensures DictFind(d + [(k, v)], k') == DictFind(d, k')
  {
    if |d| > 0 {
      assert (d + [(k, v)])[1..] == d[1..] + [(k, v)];
      DictFindAppendOther(d[1..], k, v, k');
    } else {
      PyEqSymmetric(k, k');
    }
  }
}
