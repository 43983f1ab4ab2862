/**
 * `json.dumps(value, indent=4, separators=(',', ': '), sort_keys=True)`
 * with the default `ensure_ascii=True`, the serialisation every JSON file
 * of the scripts is written with.
 */
module JsonDumps {

  import opened Text
  import opened Python

  /** Python's `<` on strings: code point by code point, a proper prefix first. */
  predicate LexLess(a: string, b: string)
    decreases |a|
  {
    |b| > 0 && (|a| == 0 || a[0] < b[0] || (a[0] == b[0] && LexLess(a[1..], b[1..])))
  }

  lemma {:induction false} LexLessIrreflexive(a: string)
    ensures !LexLess(a, a)
  {
    if |a| > 0 {
      LexLessIrreflexive(a[1..]);
    }
  }

  lemma {:induction false} LexLessTransitive(a: string, b: string, c: string)
    requires LexLess(a, b) && LexLess(b, c)
    ensures LexLess(a, c)
  {
    if |a| > 0 && a[0] == b[0] && b[0] == c[0] {
      LexLessTransitive(a[1..], b[1..], c[1..]);
    }
  }

  lemma {:induction false} LexLessTotal(a: string, b: string)
    requires a != b
    ensures LexLess(a, b) || LexLess(b, a)
  {
    if |a| > 0 && |b| > 0 && a[0] == b[0] {
      assert a == [a[0]] + a[1..] && b == [b[0]] + b[1..];
      LexLessTotal(a[1..], b[1..]);
    }
  }

  lemma LexLessAsymmetric(a: string, b: string)
    requires LexLess(a, b)
    ensures !LexLess(b, a)
  {
    if LexLess(b, a) {
      LexLessTransitive(a, b, a);
      LexLessIrreflexive(a);
    }
  }

  type Member = (string, Json)

  /** Keys strictly ascending: the order `sort_keys=True` prints a dict in. */
  predicate StrictlySorted(s: seq<Member>) {
    forall i, j :: 0 <= i < j < |s| ==> LexLess(s[i].0, s[j].0)
  }

  function Insert(m: Member, s: seq<Member>): (r: seq<Member>)
    ensures multiset(r) == multiset(s) + multiset{m}
  {
    if |s| == 0 then [m]
    else if LexLess(s[0].0, m.0) then
      assert s == [s[0]] + s[1..];
      [s[0]] + Insert(m, s[1..])
    else [m] + s
  }

  /** `sorted(members)` on the keys of a dict. */
  function SortMembers(s: seq<Member>): (r: seq<Member>)
    ensures multiset(r) == multiset(s)
  {
    if |s| == 0 then [] else
      assert s == [s[0]] + s[1..];
      Insert(s[0], SortMembers(s[1..]))
  }

  lemma {:induction false} InsertSorted(m: Member, s: seq<Member>)
    requires StrictlySorted(s)
    requires forall i :: 0 <= i < |s| ==> s[i].0 != m.0
    ensures StrictlySorted(Insert(m, s))
  {
    if |s| > 0 {
      if LexLess(s[0].0, m.0) {
        InsertSorted(m, s[1..]);
        var r := Insert(m, s);
        forall j | 0 < j < |r| ensures LexLess(s[0].0, r[j].0) {
          assert r[j] in multiset(Insert(m, s[1..]));
          assert r[j] in multiset(s[1..]) + multiset{m};
          if r[j] != m {
            assert r[j] in s[1..];
            var k :| 0 <= k < |s[1..]| && s[1..][k] == r[j];
            assert s[k + 1] == r[j];
          }
        }
      } else {
        LexLessTotal(s[0].0, m.0);
        forall j | 0 < j < |s| ensures LexLess(m.0, s[j].0) {
          LexLessTransitive(m.0, s[0].0, s[j].0);
        }
      }
    }
  }

  /** With distinct keys, the sorted members are in strictly ascending key order. */
  lemma {:induction false} SortMembersSorted(s: seq<Member>)
    requires DistinctKeys(s)
    ensures StrictlySorted(SortMembers(s))
  {
    if |s| > 0 {
      SortMembersSorted(s[1..]);
      var t := SortMembers(s[1..]);
      forall i | 0 <= i < |t| ensures t[i].0 != s[0].0 {
        assert t[i] in multiset(s[1..]);
        var k :| 0 <= k < |s[1..]| && s[1..][k] == t[i];
        assert s[k + 1] == t[i];
      }
      InsertSorted(s[0], t);
    }
  }

  /** Two strictly sorted orderings of the same members are the same sequence. */
  lemma {:induction false} SortedUnique(s: seq<Member>, t: seq<Member>)
    requires StrictlySorted(s) && StrictlySorted(t) && multiset(s) == multiset(t)
    ensures s == t
  {
    if |s| > 0 {
      SortedHeads(s, t);
      TailsSameMembers(s, t);
      SortedUnique(s[1..], t[1..]);
    } else {
      assert |multiset(t)| == 0;
    }
  }

  lemma SortedHeads(s: seq<Member>, t: seq<Member>)
    requires StrictlySorted(s) && StrictlySorted(t) && multiset(s) == multiset(t) && |s| > 0
    ensures |t| > 0 && s[0] == t[0]
  {
    assert s[0] in multiset(t);
    assert |t| > 0;
    assert t[0] in multiset(s);
    var j :| 0 <= j < |t| && t[j] == s[0];
    var i :| 0 <= i < |s| && s[i] == t[0];
    if j > 0 {
      assert LexLess(s[i].0, s[0].0);
      if i > 0 {
        LexLessAsymmetric(s[0].0, s[i].0);
      } else {
        LexLessIrreflexive(s[0].0);
      }
    }
  }

  lemma TailsSameMembers(s: seq<Member>, t: seq<Member>)
    requires multiset(s) == multiset(t) && |s| > 0 && |t| > 0 && s[0] == t[0]
    ensures multiset(s[1..]) == multiset(t[1..])
  {
    assert s == [s[0]] + s[1..] && t == [t[0]] + t[1..];
    assert multiset(s) == multiset{s[0]} + multiset(s[1..]);
    assert multiset(t) == multiset{s[0]} + multiset(t[1..]);
    calc {
      multiset(s[1..]);
      multiset(s) - multiset{s[0]};
      multiset(t) - multiset{s[0]};
      multiset(t[1..]);
    }
  }

  /** The digits of `n` in lower-case hexadecimal, four of them. */
  function Hex4(n: nat): (h: string)
    requires n < 0x10000
    ensures |h| == 4
  {
    [HexDigit(n / 0x1000), HexDigit(n / 0x100 % 16), HexDigit(n / 16 % 16), HexDigit(n % 16)]
  }

  function HexDigit(d: nat): char
    requires d < 16
  {
    if d < 10 then ('0' as int + d) as char else ('a' as int + d - 10) as char
  }

  /** One character of a string literal as `ensure_ascii` writes it. */
  function EscapeChar(c: char): (e: string)
    ensures |e| > 0
  {
    if c == '"' then "\\\""
    else if c == '\\' then "\\\\"
    else if c == '\n' then "\\n"
    else if c == '\r' then "\\r"
    else if c == '\t' then "\\t"
    else if c == '\U{8}' then "\\b"
    else if c == '\U{c}' then "\\f"
    else if ' ' <= c <= '~' then [c]
    else if c as int < 0x10000 then "\\u" + Hex4(c as int)
    else
      var v := c as int - 0x10000;
      "\\u" + Hex4(0xd800 + v / 0x400) + "\\u" + Hex4(0xdc00 + v % 0x400)
  }

  /** Every character of an escaped text is printable ASCII. */
  lemma EscapeCharAscii(c: char)
    ensures forall i :: 0 <= i < |EscapeChar(c)| ==> ' ' <= EscapeChar(c)[i] <= '~'
  {
  }

  function EscapeString(s: string): string
  {
    if |s| == 0 then "" else EscapeChar(s[0]) + EscapeString(s[1..])
  }

  function Quote(s: string): string { "\"" + EscapeString(s) + "\"" }

  function Indent(level: nat): string { Repeat(' ', 4 * level) }

  /** The text of `j` nested `level` levels deep. */
  function Encode(j: Json, level: nat): string
    decreases j
  {
    match j
    case Null => "null"
    case Bool(b) => if b then "true" else "false"
    case Int(i) => IntToString(i)
    case Str(s) => Quote(s)
    case Arr(items) =>
      if |items| == 0 then "[]"
      else
        var lines := seq(|items|, k requires 0 <= k < |items| =>
          Indent(level + 1) + Encode(items[k], level + 1));
        "[\n" + Join(lines, ",\n") + "\n" + Indent(level) + "]"
    case Obj(members) =>
      if |members| == 0 then "{}"
      else
        var sorted := SortMembers(members);
        var lines := seq(|sorted|, k requires 0 <= k < |sorted| =>
          assert sorted[k] in multiset(members);
          Indent(level + 1) + Quote(sorted[k].0) + ": " + Encode(sorted[k].1, level + 1));
        "{\n" + Join(lines, ",\n") + "\n" + Indent(level) + "}"
  }

  /** `json.dumps(j, indent=4, separators=(',', ': '), sort_keys=True)` */
  function Dumps(j: Json): string { Encode(j, 0) }

  /**
   * The text does not depend on the order in which a dict's members were
   * inserted: two dicts holding the same members serialise identically.
   * This is what makes comparing a freshly serialised survey with the file
   * already on disk meaningful.
   */
  lemma DumpsIgnoresMemberOrder(m1: seq<Member>, m2: seq<Member>, level: nat)
    requires DistinctKeys(m1) && DistinctKeys(m2) && multiset(m1) == multiset(m2)
    ensures Encode(Obj(m1), level) == Encode(Obj(m2), level)
  {
    SortMembersSorted(m1);
    SortMembersSorted(m2);
    SortedUnique(SortMembers(m1), SortMembers(m2));
    if |m1| == 0 {
      assert |multiset(m2)| == 0;
    }
  }
}
