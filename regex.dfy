/**
 * The part of Python's `re` the classifiers use: character classes,
 * concatenation, optional groups, alternatives and one-or-more
 * repetition of a class, with or without `re.IGNORECASE`.
 *
 * A pattern denotes the set of positions where a match starting at `i`
 * can end. `re.match` succeeds when that set is non-empty at 0 and
 * `re.search` when it is non-empty at some position; which of the ends
 * the backtracking engine reports does not matter to a truth test.
 */
module Regex {

  import opened Wrappers
  import opened Text

  /** A character class: an explicit set (`[- ]`, `Z`), `\d` or `\w`. */
  datatype Class = Chars(cs: set<char>) | Digit | Word

  predicate InClass(k: Class, c: char) {
    match k
    case Chars(cs) => c in cs
    case Digit => IsDigit(c)
    case Word => IsWordChar(c)
  }

  /** With IGNORECASE, a character also matches through its other case. */
  predicate ClassMatches(k: Class, c: char, icase: bool) {
    InClass(k, c) || (icase && (InClass(k, LowerChar(c)) || InClass(k, UpperChar(c))))
  }

  datatype Re =
    | Empty
    | Atom(k: Class)
    | Cat(a: Re, b: Re)
    | Opt(a: Re)     // (a)?
    | Alt(a: Re, b: Re) // (a|b)
    | Plus(k: Class) // k+

  /** The length of the run of characters of class `k` starting at `i`. */
  function Run(k: Class, s: string, i: nat, icase: bool): (n: nat)
    requires i <= |s|
    ensures i + n <= |s|
    ensures forall j :: i <= j < i + n ==> ClassMatches(k, s[j], icase)
    ensures i + n < |s| ==> !ClassMatches(k, s[i + n], icase)
    decreases |s| - i
  {
    if i < |s| && ClassMatches(k, s[i], icase) then 1 + Run(k, s, i + 1, icase) else 0
  }

  /** The positions where a match of `r` starting at `i` can end. */
  function Ends(r: Re, s: string, i: nat, icase: bool): (e: set<nat>)
    requires i <= |s|
    ensures forall j :: j in e ==> i <= j <= |s|
  {
    match r
    case Empty => {i}
    case Atom(k) => if i < |s| && ClassMatches(k, s[i], icase) then {i + 1} else {}
    case Cat(a, b) => set j, m | j in Ends(a, s, i, icase) && m in Ends(b, s, j, icase) :: m
    case Opt(a) => {i} + Ends(a, s, i, icase)
    case Alt(a, b) => Ends(a, s, i, icase) + Ends(b, s, i, icase)
    case Plus(k) => Interval(i + 1, i + Run(k, s, i, icase) + 1)
  }

  /** The positions `lo` up to `hi`, `hi` excluded. */
  function Interval(lo: nat, hi: nat): (r: set<nat>)
    ensures forall j :: j in r <==> lo <= j < hi
    decreases hi
  {
    if hi <= lo then {} else Interval(lo, hi - 1) + {hi - 1}
  }

  /** `re.match(pattern, s)` is truthy. */
  predicate Matches(r: Re, s: string, icase: bool) {
    Ends(r, s, 0, icase) != {}
  }

  /** `re.search(pattern, s)` is truthy. */
  predicate Searches(r: Re, s: string, icase: bool) {
    exists i: nat :: i <= |s| && Ends(r, s, i, icase) != {}
  }

  lemma RunExtends(k: Class, s: string, t: string, i: nat, icase: bool)
    requires i <= |s|
    ensures Run(k, s, i, icase) <= Run(k, s + t, i, icase)
    decreases |s| - i
  {
    if i < |s| && ClassMatches(k, s[i], icase) {
      assert (s + t)[i] == s[i];
      RunExtends(k, s, t, i + 1, icase);
    }
  }

  /**
   * Text after a match does not undo it: every end reachable in `s` is
   * reachable in `s + t`, so `re.match` accepts any continuation.
   */
  lemma {:induction false} EndsExtend(r: Re, s: string, t: string, i: nat, icase: bool)
    requires i <= |s|
    ensures Ends(r, s, i, icase) <= Ends(r, s + t, i, icase)
  {
    match r
    case Empty =>
    case Atom(k) =>
      if i < |s| {
        assert (s + t)[i] == s[i];
      }
    case Cat(a, b) =>
      forall m | m in Ends(r, s, i, icase) ensures m in Ends(r, s + t, i, icase) {
        var j :| j in Ends(a, s, i, icase) && m in Ends(b, s, j, icase);
        EndsExtend(a, s, t, i, icase);
        EndsExtend(b, s, t, j, icase);
      }
    case Opt(a) =>
      EndsExtend(a, s, t, i, icase);
    case Alt(a, b) =>
      EndsExtend(a, s, t, i, icase);
      EndsExtend(b, s, t, i, icase);
    case Plus(k) =>
      RunExtends(k, s, t, i, icase);
  }

  lemma MatchExtends(r: Re, s: string, t: string, icase: bool)
    requires Matches(r, s, icase)
    ensures Matches(r, s + t, icase)
  {
    EndsExtend(r, s, t, 0, icase);
  }

  /** Under IGNORECASE the case of a character makes no difference. */
  lemma ClassIgnoresCase(k: Class, c: char)
    ensures ClassMatches(k, UpperChar(c), true) == ClassMatches(k, c, true)
  {
    if 'a' <= c <= 'z' {
      assert LowerChar(UpperChar(c)) == c;
    }
  }

  lemma RunIgnoresCase(k: Class, s: string, i: nat)
    requires i <= |s|
    ensures Run(k, Upper(s), i, true) == Run(k, s, i, true)
    decreases |s| - i
  {
    if i < |s| {
      ClassIgnoresCase(k, s[i]);
      RunIgnoresCase(k, s, i + 1);
    }
  }

  /** With IGNORECASE, a pattern matches `s.upper()` exactly where it matches `s`. */
  lemma {:induction false} EndsIgnoreCase(r: Re, s: string, i: nat)
    requires i <= |s|
    ensures Ends(r, Upper(s), i, true) == Ends(r, s, i, true)
  {
    match r
    case Empty =>
    case Atom(k) =>
      if i < |s| {
        ClassIgnoresCase(k, s[i]);
      }
    case Cat(a, b) =>
      EndsIgnoreCase(a, s, i);
      forall j | j in Ends(a, s, i, true) ensures Ends(b, Upper(s), j, true) == Ends(b, s, j, true) {
        EndsIgnoreCase(b, s, j);
      }
    case Opt(a) =>
      EndsIgnoreCase(a, s, i);
    case Alt(a, b) =>
      EndsIgnoreCase(a, s, i);
      EndsIgnoreCase(b, s, i);
    case Plus(k) =>
      RunIgnoresCase(k, s, i);
  }

  // ---------------------------------------------------------------------
  // Fixed-width patterns and the leftmost match of `re.search`
  // ---------------------------------------------------------------------

  /** A pattern made of one class per character, such as `0[1-8]\d{10}` or `ASSET[- ]Cal`. */
  type Fixed = seq<Class>

  predicate FixedAt(p: Fixed, s: string, i: nat, icase: bool) {
    i + |p| <= |s| && forall k :: 0 <= k < |p| ==> ClassMatches(p[k], s[i + k], icase)
  }

  /** The leftmost position from `from` on where `p` matches, as `re.search` finds it. */
  function Find(p: Fixed, s: string, from: nat, icase: bool): (r: Option<nat>)
    requires from <= |s|
    ensures r.Some? ==> from <= r.value && FixedAt(p, s, r.value, icase)
    ensures r.Some? ==> forall j :: from <= j < r.value ==> !FixedAt(p, s, j, icase)
    ensures r.None? ==> forall j :: from <= j <= |s| ==> !FixedAt(p, s, j, icase)
    decreases |s| - from
  {
    if FixedAt(p, s, from, icase) then Some(from)
    else if from == |s| then None
    else Find(p, s, from + 1, icase)
  }

  /** A literal text as a fixed pattern. */
  function Literal(t: string): (p: Fixed)
    ensures |p| == |t| && forall k :: 0 <= k < |t| ==> p[k] == Chars({t[k]})
  {
    seq(|t|, k requires 0 <= k < |t| => Chars({t[k]}))
  }

  /** A text holding a literal word is found by the search, at that occurrence or before it. */
  lemma FindsOccurrence(t: string, s: string, i: nat, icase: bool)
    requires OccursAt(s, t, i)
    ensures Find(Literal(t), s, 0, icase).Some? && Find(Literal(t), s, 0, icase).value <= i
  {
    var p := Literal(t);
    forall k | 0 <= k < |p| ensures ClassMatches(p[k], s[i + k], icase) {
      assert s[i + k] == s[i..i + |t|][k];
    }
    assert FixedAt(p, s, i, icase);
  }

  /** A fixed pattern as a regular expression: its classes in sequence. */
  function FixedRe(p: Fixed): Re
    decreases |p|
  {
    if |p| == 0 then Empty else Cat(Atom(p[0]), FixedRe(p[1..]))
  }

  lemma FixedAtStep(p: Fixed, s: string, i: nat, icase: bool)
    requires |p| > 0 && i < |s|
    ensures FixedAt(p, s, i, icase) <==> ClassMatches(p[0], s[i], icase) && FixedAt(p[1..], s, i + 1, icase)
  {
    if ClassMatches(p[0], s[i], icase) && FixedAt(p[1..], s, i + 1, icase) {
      forall k | 0 <= k < |p| ensures ClassMatches(p[k], s[i + k], icase) {
        if k > 0 {
          assert p[k] == p[1..][k - 1];
        }
      }
    }
    if FixedAt(p, s, i, icase) {
      assert ClassMatches(p[0], s[i + 0], icase);
      forall k | 0 <= k < |p| - 1 ensures ClassMatches(p[1..][k], s[i + 1 + k], icase) {
        assert p[1..][k] == p[k + 1];
      }
    }
  }

  /** After a first class that matches, the ends are those of the rest from the next character. */
  lemma CatAtomMember(k: Class, b: Re, s: string, i: nat, m: nat, icase: bool)
    requires i <= |s|
    ensures m in Ends(Cat(Atom(k), b), s, i, icase) <==>
      i < |s| && ClassMatches(k, s[i], icase) && m in Ends(b, s, i + 1, icase)
  {
    if i < |s| && ClassMatches(k, s[i], icase) && m in Ends(b, s, i + 1, icase) {
      EndsCatIntro(Atom(k), b, s, i, i + 1, m, icase);
    }
  }

  /** An end of the second part reached from an end of the first is an end of the whole. */
  lemma EndsCatIntro(a: Re, b: Re, s: string, i: nat, j: nat, m: nat, icase: bool)
    requires i <= |s| && j in Ends(a, s, i, icase) && m in Ends(b, s, j, icase)
    ensures m in Ends(Cat(a, b), s, i, icase)
  {
  }

  /** A fixed pattern matches at `i` exactly when its classes match there, and then ends after them. */
  lemma {:induction false} EndsFixed(p: Fixed, s: string, i: nat, m: nat, icase: bool)
    requires i <= |s|
    ensures m in Ends(FixedRe(p), s, i, icase) <==> FixedAt(p, s, i, icase) && m == i + |p|
    decreases |p|
  {
    if |p| > 0 {
      assert FixedRe(p) == Cat(Atom(p[0]), FixedRe(p[1..]));
      CatAtomMember(p[0], FixedRe(p[1..]), s, i, m, icase);
      if i < |s| {
        FixedAtStep(p, s, i, icase);
        EndsFixed(p[1..], s, i + 1, m, icase);
      }
    }
  }

  /** A run of exactly `n` characters of the class, ended by the text or another character. */
  lemma {:induction false} RunExact(k: Class, s: string, i: nat, n: nat, icase: bool)
    requires i + n <= |s| && forall j :: i <= j < i + n ==> ClassMatches(k, s[j], icase)
    requires i + n == |s| || !ClassMatches(k, s[i + n], icase)
    ensures Run(k, s, i, icase) == n
    decreases n
  {
    if n > 0 {
      RunExact(k, s, i + 1, n - 1, icase);
    }
  }

  /** What `s` matches at `i` still matches there when text follows. */
  lemma FixedAtExtends(p: Fixed, s: string, t: string, i: nat, icase: bool)
    requires FixedAt(p, s, i, icase)
    ensures FixedAt(p, s + t, i, icase)
  {
    forall k | 0 <= k < |p| ensures ClassMatches(p[k], (s + t)[i + k], icase) {
      assert (s + t)[i + k] == s[i + k];
    }
  }

  /** The leftmost search succeeds exactly when the pattern, as a regular expression, is found somewhere. */
  lemma FindSearches(p: Fixed, s: string, icase: bool)
    ensures Find(p, s, 0, icase).Some? <==> Searches(FixedRe(p), s, icase)
  {
    var r := Find(p, s, 0, icase);
    if r.Some? {
      EndsFixed(p, s, r.value, r.value + |p|, icase);
    }
    if Searches(FixedRe(p), s, icase) {
      var i: nat :| i <= |s| && Ends(FixedRe(p), s, i, icase) != {};
      var m :| m in Ends(FixedRe(p), s, i, icase);
      EndsFixed(p, s, i, m, icase);
    }
  }

  lemma FixedAtIgnoresCase(p: Fixed, s: string, i: nat)
    ensures FixedAt(p, Upper(s), i, true) <==> FixedAt(p, s, i, true)
  {
    if i + |p| <= |s| {
      forall k | 0 <= k < |p| ensures ClassMatches(p[k], Upper(s)[i + k], true) == ClassMatches(p[k], s[i + k], true) {
        ClassIgnoresCase(p[k], s[i + k]);
      }
    }
  }

  /** The leftmost match is the only position the search can return. */
  lemma {:induction false} FindLeftmost(p: Fixed, s: string, from: nat, i: nat, icase: bool)
    requires from <= i && FixedAt(p, s, i, icase) && forall j :: from <= j < i ==> !FixedAt(p, s, j, icase)
    ensures Find(p, s, from, icase) == Some(i)
    decreases i - from
  {
    if from < i {
      FindLeftmost(p, s, from + 1, i, icase);
    }
  }

  /** With IGNORECASE, searching `s.upper()` finds what searching `s` finds, at the same place. */
  lemma FindIgnoresCase(p: Fixed, s: string)
    ensures Find(p, Upper(s), 0, true) == Find(p, s, 0, true)
  {
    var u := Upper(s);
    forall j ensures FixedAt(p, u, j, true) <==> FixedAt(p, s, j, true) {
      FixedAtIgnoresCase(p, s, j);
    }
    match Find(p, s, 0, true)
    case Some(i) =>
      FindLeftmost(p, u, 0, i, true);
    case None =>
  }

  /** Without IGNORECASE a literal word matches exactly where the text holds it. */
  lemma LiteralAt(t: string, s: string, i: nat)
    ensures FixedAt(Literal(t), s, i, false) <==> OccursAt(s, t, i)
  {
    if i + |t| <= |s| {
      var w := s[i..i + |t|];
      assert forall k :: 0 <= k < |t| ==> w[k] == s[i + k];
    }
  }

  /** Two fixed patterns side by side. */
  lemma FixedAtParts(p: Fixed, q: Fixed, s: string, i: nat, icase: bool)
    requires FixedAt(p, s, i, icase) && FixedAt(q, s, i + |p|, icase)
    ensures FixedAt(p + q, s, i, icase)
  {
    forall k | 0 <= k < |p + q| ensures ClassMatches((p + q)[k], s[i + k], icase) {
      if k >= |p| {
        assert (p + q)[k] == q[k - |p|] && s[i + k] == s[i + |p| + (k - |p|)];
      }
    }
  }

  /** A literal word the text holds matches there, with or without IGNORECASE. */
  lemma LiteralOccurs(t: string, s: string, i: nat, icase: bool)
    requires OccursAt(s, t, i)
    ensures FixedAt(Literal(t), s, i, icase)
  {
    LiteralAt(t, s, i);
  }

  /** `\d{n}` */
  function Digits(n: nat): (p: Fixed)
    ensures |p| == n && forall k :: 0 <= k < n ==> p[k] == Digit
  {
    seq(n, _ => Digit)
  }

  lemma DigitsAtHold(n: nat, s: string, i: nat, icase: bool)
    requires i + n <= |s| && AllDigits(s[i..i + n])
    ensures FixedAt(Digits(n), s, i, icase)
  {
    var w := s[i..i + n];
    forall k | 0 <= k < n ensures ClassMatches(Digits(n)[k], s[i + k], icase) {
      assert w[k] == s[i + k];
    }
  }

  /** A run of at least `n` characters of the class. */
  lemma {:induction false} RunAtLeast(k: Class, s: string, i: nat, n: nat, icase: bool)
    requires i + n <= |s| && forall j :: i <= j < i + n ==> ClassMatches(k, s[j], icase)
    ensures Run(k, s, i, icase) >= n
    decreases n
  {
    if n > 0 {
      RunAtLeast(k, s, i + 1, n - 1, icase);
    }
  }
}
