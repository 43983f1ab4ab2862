/**
 * Python `str` operations used by the scripts, over Dafny strings.
 * Only the ASCII behaviour of case mapping and of the character classes
 * `\d` and `\w` is modelled.
 */
module Text {

  import opened Wrappers

  predicate IsDigit(c: char) { '0' <= c <= '9' }

  predicate IsAsciiLetter(c: char) { 'a' <= c <= 'z' || 'A' <= c <= 'Z' }

  /** The regular-expression class `\w` (ASCII part). */
  predicate IsWordChar(c: char) { IsDigit(c) || IsAsciiLetter(c) || c == '_' }

  /** The characters for which Python's `str.isspace()` holds. */
  predicate IsSpace(c: char) {
    c == ' ' || '\t' <= c <= '\r' || '\U{1c}' <= c <= '\U{1f}' || c == '\U{85}' || c == '\U{a0}'
    || c == '\U{1680}' || '\U{2000}' <= c <= '\U{200a}' || c == '\U{2028}' || c == '\U{2029}'
    || c == '\U{202f}' || c == '\U{205f}' || c == '\U{3000}'
  }

  function UpperChar(c: char): (u: char)
    ensures IsDigit(c) <==> IsDigit(u)
  {
    if 'a' <= c <= 'z' then (c as int - 32) as char else c
  }

  function LowerChar(c: char): (l: char)
  {
    if 'A' <= c <= 'Z' then (c as int + 32) as char else c
  }

  /** `s.upper()` on the ASCII letters. */
  function Upper(s: string): (u: string)
    ensures |u| == |s| && forall i :: 0 <= i < |s| ==> u[i] == UpperChar(s[i])
  {
    seq(|s|, i requires 0 <= i < |s| => UpperChar(s[i]))
  }

  /**
   * No lower-case letter remains after `upper()`, and only lower-case
   * letters change, each into its upper-case partner.
   */
  lemma UpperMeaning(s: string)
    ensures forall i :: 0 <= i < |Upper(s)| ==> !('a' <= Upper(s)[i] <= 'z')
    ensures forall i :: 0 <= i < |s| ==> Upper(s)[i] == s[i] || ('a' <= s[i] <= 'z' && LowerChar(Upper(s)[i]) == s[i])
  {
  }

  /** Upper-casing twice is upper-casing once. */
  lemma UpperIdempotent(s: string)
    ensures Upper(Upper(s)) == Upper(s)
  {
    var u := Upper(s);
    assert forall i :: 0 <= i < |u| ==> UpperChar(u[i]) == u[i];
  }

  /** `s.startswith(p)` */
  predicate StartsWith(s: string, p: string) { p <= s }

  /** `s.endswith(x)` */
  predicate EndsWith(s: string, x: string) { |x| <= |s| && s[|s| - |x|..] == x }

  predicate OccursAt(s: string, sub: string, i: nat) { i + |sub| <= |s| && s[i..i + |sub|] == sub }

  /** `sub in s` for two strings */
  predicate Contains(s: string, sub: string) {
    exists i: nat | i <= |s| :: OccursAt(s, sub, i)
  }

  lemma ContainsWitness(s: string, sub: string, i: nat)
    requires OccursAt(s, sub, i)
    ensures Contains(s, sub)
  {
  }

  /** A string made of `n` copies of `c`. */
  function Repeat(c: char, n: nat): (r: string)
    ensures |r| == n && forall i :: 0 <= i < n ==> r[i] == c
  {
    seq(n, _ => c)
  }

  /** `s.rjust(width, fill)` */
  function RJust(s: string, width: nat, fill: char): (r: string)
    ensures |r| == if |s| < width then width else |s|
    ensures EndsWith(r, s)
  {
    if |s| < width then Repeat(fill, width - |s|) + s else s
  }

  /** The index of the first occurrence of `c` in `s`. */
  function IndexOf(s: string, c: char): (r: Option<nat>)
    ensures r.None? <==> c !in s
    ensures r.Some? ==> r.value < |s| && s[r.value] == c && c !in s[..r.value]
  {
    if |s| == 0 then None
    else if s[0] == c then Some(0)
    else match IndexOf(s[1..], c)
      case None => None
      case Some(k) => assert s[..k + 1] == [s[0]] + s[1..][..k]; Some(k + 1)
  }

  /** The index of the last occurrence of `c` in `s`. */
  function LastIndexOf(s: string, c: char): (r: Option<nat>)
    ensures r.None? <==> c !in s
    ensures r.Some? ==> r.value < |s| && s[r.value] == c && c !in s[r.value + 1..]
  {
    if |s| == 0 then None
    else if s[|s| - 1] == c then Some(|s| - 1)
    else match LastIndexOf(s[..|s| - 1], c)
      case None => None
      case Some(k) => assert s[k + 1..] == s[..|s| - 1][k + 1..] + [s[|s| - 1]]; Some(k)
  }

  /**
   * `s.rsplit(c, 1)`: the text before the last `c` and, when there is
   * one, the text after it.
   */
  function RSplitOnce(s: string, c: char): (r: (string, Option<string>))
    ensures r.1.None? <==> c !in s
    ensures r.1.None? ==> r.0 == s
    ensures r.1.Some? ==> s == r.0 + [c] + r.1.value && c !in r.1.value
  {
    match LastIndexOf(s, c)
    case None => (s, None)
    case Some(k) =>
      assert s == s[..k] + [c] + s[k + 1..];
      (s[..k], Some(s[k + 1..]))
  }

  /** `s.split(sep)` for a one-character separator. */
  function Split(s: string, sep: char): (parts: seq<string>)
    ensures |parts| >= 1
    ensures forall i :: 0 <= i < |parts| ==> sep !in parts[i]
  {
    if |s| == 0 then [""]
    else
      var rest := Split(s[1..], sep);
      if s[0] == sep then [""] + rest
      else [[s[0]] + rest[0]] + rest[1..]
  }

  /** `sep.join(parts)` */
  function Join(parts: seq<string>, sep: string): string
  {
    if |parts| == 0 then ""
    else if |parts| == 1 then parts[0]
    else parts[0] + sep + Join(parts[1..], sep)
  }

  /** Splitting and joining with the same separator gives back the text. */
  lemma {:induction false} JoinSplit(s: string, sep: char)
    ensures Join(Split(s, sep), [sep]) == s
  {
    if |s| > 0 {
      var rest := Split(s[1..], sep);
      JoinSplit(s[1..], sep);
      if s[0] == sep {
        assert Split(s, sep) == [""] + rest;
        assert ([""] + rest)[1..] == rest;
      } else {
        var parts := Split(s, sep);
        assert parts[0] == [s[0]] + rest[0];
        assert parts[1..] == rest[1..];
        if |rest| > 1 {
          assert Join(rest, [sep]) == rest[0] + [sep] + Join(rest[1..], [sep]);
        }
        assert s == [s[0]] + s[1..];
      }
    }
  }

  /** The number of fields `s.split(sep)` yields is one more than the number of separators. */
  lemma {:induction false} SplitCount(s: string, sep: char)
    ensures |Split(s, sep)| == CountChar(s, sep) + 1
  {
    if |s| > 0 {
      SplitCount(s[1..], sep);
    }
  }

  /** A field before the first separator is split off whole. */
  lemma {:induction false} SplitFirst(a: string, sep: char, b: string)
    requires sep !in a
    ensures Split(a + [sep] + b, sep) == [a] + Split(b, sep)
    decreases |a|
  {
    if |a| > 0 {
      assert (a + [sep] + b)[1..] == a[1..] + [sep] + b;
      SplitFirst(a[1..], sep, b);
      assert [a[0]] + a[1..] == a;
    } else {
      assert ([sep] + b)[1..] == b;
    }
  }

  /** A text without the separator is one field. */
  lemma {:induction false} SplitNone(a: string, sep: char)
    requires sep !in a
    ensures Split(a, sep) == [a]
    decreases |a|
  {
    if |a| > 0 {
      SplitNone(a[1..], sep);
      assert [a[0]] + a[1..] == a;
    }
  }

  function CountChar(s: string, c: char): nat
  {
    if |s| == 0 then 0 else (if s[0] == c then 1 else 0) + CountChar(s[1..], c)
  }

  /**
   * `s.replace(pat, rep)`: every non-overlapping occurrence of `pat`,
   * scanning from the left, is replaced.
   */
  function ReplaceAll(s: string, pat: string, rep: string): (r: string)
    requires |pat| > 0
    decreases |s|
  {
    if |s| == 0 then ""
    else if pat <= s then rep + ReplaceAll(s[|pat|..], pat, rep)
    else [s[0]] + ReplaceAll(s[1..], pat, rep)
  }

  /** Replacing a pattern that does not occur leaves the text unchanged. */
  lemma {:induction false} ReplaceAbsent(s: string, pat: string, rep: string)
    requires |pat| > 0 && !Contains(s, pat)
    ensures ReplaceAll(s, pat, rep) == s
  {
    if |s| > 0 {
      assert !OccursAt(s, pat, 0);
      assert !(pat <= s);
      forall i: nat | i <= |s[1..]| ensures !OccursAt(s[1..], pat, i) {
        OccursShift(s, pat, i);
      }
      ReplaceAbsent(s[1..], pat, rep);
    }
  }

  /** An occurrence in the tail of a text is an occurrence in the text, one position later. */
  lemma OccursShift(s: string, pat: string, i: nat)
    requires |s| > 0
    ensures OccursAt(s[1..], pat, i) <==> OccursAt(s, pat, i + 1)
  {
    if i + 1 + |pat| <= |s| {
      assert s[i + 1..i + 1 + |pat|] == s[1..][i..i + |pat|];
    }
  }

  /** Replacing a pattern by a text that does not contain it removes every occurrence. */
  lemma {:induction false} ReplaceRemoves(s: string, c: char, rep: char)
    requires c != rep
    ensures c !in ReplaceAll(s, [c], [rep])
    ensures |ReplaceAll(s, [c], [rep])| == |s|
  {
    if |s| > 0 {
      ReplaceRemoves(s[1..], c, rep);
    }
  }

  /** Replacing one character by another changes those characters and no other. */
  lemma {:induction false} ReplaceCharWise(s: string, c: char, rep: char)
    ensures |ReplaceAll(s, [c], [rep])| == |s|
    ensures forall i :: 0 <= i < |s| ==> ReplaceAll(s, [c], [rep])[i] == if s[i] == c then rep else s[i]
    decreases |s|
  {
    if |s| > 0 {
      ReplaceCharWise(s[1..], c, rep);
      var r := ReplaceAll(s, [c], [rep]);
      assert [c] <= s <==> s[0] == c;
      assert r == [if s[0] == c then rep else s[0]] + ReplaceAll(s[1..], [c], [rep]);
    }
  }

  /** Counting a character over two texts put end to end. */
  lemma {:induction false} CountCharAppend(a: string, b: string, c: char)
    ensures CountChar(a + b, c) == CountChar(a, c) + CountChar(b, c)
    decreases |a|
  {
    if |a| > 0 {
      assert (a + b)[1..] == a[1..] + b;
      CountCharAppend(a[1..], b, c);
    } else {
      assert a + b == b;
    }
  }

  /** A character that does not occur is counted zero times. */
  lemma {:induction false} CountCharAbsent(s: string, c: char)
    requires c !in s
    ensures CountChar(s, c) == 0
    decreases |s|
  {
    if |s| > 0 {
      assert s[0] != c;
      CountCharAbsent(s[1..], c);
    }
  }

  /** Texts holding `c` at the same places count it the same number of times. */
  lemma {:induction false} CountCharSamePlaces(a: string, b: string, c: char)
    requires |a| == |b| && forall i :: 0 <= i < |a| ==> (a[i] == c <==> b[i] == c)
    ensures CountChar(a, c) == CountChar(b, c)
    decreases |a|
  {
    if |a| > 0 {
      CountCharSamePlaces(a[1..], b[1..], c);
    }
  }

  /** `s.lstrip()` */
  function LStrip(s: string): (r: string)
    ensures |r| <= |s| && r == s[|s| - |r|..]
    ensures |r| > 0 ==> !IsSpace(r[0])
  {
    if |s| > 0 && IsSpace(s[0]) then LStrip(s[1..]) else s
  }

  /** `s.rstrip()` */
  function RStrip(s: string): (r: string)
    ensures |r| <= |s| && r == s[..|r|]
    ensures |r| > 0 ==> !IsSpace(r[|r| - 1])
  {
    if |s| > 0 && IsSpace(s[|s| - 1]) then RStrip(s[..|s| - 1]) else s
  }

  /** `s.strip()` */
  function Strip(s: string): string { RStrip(LStrip(s)) }

  /** `s.strip(c)` for one character `c` */
  function StripChar(s: string, c: char): (r: string)
    ensures |r| <= |s|
    ensures |r| > 0 ==> r[0] != c && r[|r| - 1] != c
  {
    if |s| > 0 && s[0] == c then StripChar(s[1..], c)
    else if |s| > 0 && s[|s| - 1] == c then StripChar(s[..|s| - 1], c)
    else s
  }

  /** r is s with its first a and last b characters cut off, every one of them a copy of c. */
  predicate TrimmedBy(s: string, c: char, r: string, a: nat, b: nat)
  {
    a + b <= |s| && r == s[a..|s| - b]
    && (forall k :: 0 <= k < a ==> s[k] == c)
    && (forall k :: |s| - b <= k < |s| ==> s[k] == c)
  }

  /**
   * `s.strip(c)` removes only copies of c, and only at the two ends: the
   * result is a middle slice of s with nothing but c cut off either side.
   */
  lemma {:induction false} StripCharTrims(s: string, c: char)
    ensures exists a: nat, b: nat :: TrimmedBy(s, c, StripChar(s, c), a, b)
  {
    if |s| > 0 && s[0] == c {
      StripCharTrims(s[1..], c);
      var a: nat, b: nat :| TrimmedBy(s[1..], c, StripChar(s[1..], c), a, b);
      TrimmedFront(s, c, StripChar(s[1..], c), a, b);
    } else if |s| > 0 && s[|s| - 1] == c {
      StripCharTrims(s[..|s| - 1], c);
      var a: nat, b: nat :| TrimmedBy(s[..|s| - 1], c, StripChar(s[..|s| - 1], c), a, b);
      TrimmedBack(s, c, StripChar(s[..|s| - 1], c), a, b);
    } else {
      assert TrimmedBy(s, c, StripChar(s, c), 0, 0);
    }
  }

  lemma TrimmedFront(s: string, c: char, r: string, a: nat, b: nat)
    requires |s| > 0 && s[0] == c && TrimmedBy(s[1..], c, r, a, b)
    ensures TrimmedBy(s, c, r, a + 1, b)
  {
    assert s[1..][a..|s| - 1 - b] == s[a + 1..|s| - b];
    assert forall k :: 0 < k < a + 1 ==> s[k] == s[1..][k - 1];
  }

  lemma TrimmedBack(s: string, c: char, r: string, a: nat, b: nat)
    requires |s| > 0 && s[|s| - 1] == c && TrimmedBy(s[..|s| - 1], c, r, a, b)
    ensures TrimmedBy(s, c, r, a, b + 1)
  {
    assert s[..|s| - 1][a..|s| - 1 - b] == s[a..|s| - (b + 1)];
  }

  function DigitChar(d: nat): (c: char)
    requires d < 10
    ensures IsDigit(c)
  {
    ('0' as int + d) as char
  }

  function DigitValue(c: char): (d: nat)
    requires IsDigit(c)
    ensures d < 10 && DigitChar(d) == c
  {
    c as int - '0' as int
  }

  /** `str(n)` for a natural number. */
  function NatToString(n: nat): (s: string)
    ensures |s| >= 1 && forall i :: 0 <= i < |s| ==> IsDigit(s[i])
  {
    if n < 10 then [DigitChar(n)] else NatToString(n / 10) + [DigitChar(n % 10)]
  }

  /** `str(n)` for an integer. */
  function IntToString(n: int): string
  {
    if n < 0 then "-" + NatToString(-n) else NatToString(n)
  }

  /** The decimal text of a number holds no character but digits and '-'. */
  lemma NumberWithout(n: int, c: char)
    requires c != '-' && !IsDigit(c)
    ensures c !in IntToString(n)
  {
    var s := IntToString(n);
    forall k | 0 <= k < |s| ensures s[k] != c {
      if n < 0 && k > 0 {
        assert s[k] == NatToString(-n)[k - 1];
      }
    }
  }

  predicate AllDigits(s: string) { forall i :: 0 <= i < |s| ==> IsDigit(s[i]) }

  /** `int(s)` for a string of decimal digits. */
  function DigitsValue(s: string): nat
    requires AllDigits(s)
  {
    if |s| == 0 then 0 else DigitsValue(s[..|s| - 1]) * 10 + DigitValue(s[|s| - 1])
  }

  /** Reading back the decimal text of a number gives the number. */
  lemma {:induction false} DigitsValueOfNatToString(n: nat)
    ensures AllDigits(NatToString(n)) && DigitsValue(NatToString(n)) == n
  {
    var s := NatToString(n);
    if n >= 10 {
      DigitsValueOfNatToString(n / 10);
      assert s[..|s| - 1] == NatToString(n / 10);
    }
  }

  /** Different numbers have different decimal texts. */
  lemma IntToStringInjective(a: int, b: int)
    requires IntToString(a) == IntToString(b)
    ensures a == b
  {
    if a < 0 && b < 0 {
      assert NatToString(-a) == IntToString(a)[1..];
      DigitsValueOfNatToString(-a);
      DigitsValueOfNatToString(-b);
    } else if a >= 0 && b >= 0 {
      DigitsValueOfNatToString(a);
      DigitsValueOfNatToString(b);
      assert NatToString(a) == NatToString(b);
    } else {
      SignShows(a);
      SignShows(b);
    }
  }

  /** The text of an integer starts with a minus sign exactly when it is negative. */
  lemma SignShows(n: int)
    ensures (IntToString(n)[0] == '-') <==> n < 0
  {
    if n >= 0 {
      assert IsDigit(NatToString(n)[0]);
    }
  }

  /** `'%02d' % n` */
  function Pad2(n: nat): (t: string)
    requires n < 100
    ensures |t| == 2 && AllDigits(t) && DigitsValue(t) == n
  {
    var h := [DigitChar(n / 10)];
    var t := h + [DigitChar(n % 10)];
    assert h[..0] == [] && DigitsValue(h) == n / 10;
    assert t[..1] == h;
    t
  }

  /** `'%04d' % n` */
  function Pad4(n: nat): (t: string)
    requires n < 10000
    ensures |t| == 4 && AllDigits(t) && DigitsValue(t) == n
  {
    var t := Pad2(n / 100) + Pad2(n % 100);
    assert t[..3] == Pad2(n / 100) + [DigitChar(n % 100 / 10)];
    assert t[..3][..2] == Pad2(n / 100);
    assert DigitsValue(t[..3]) == (n / 100) * 10 + n % 100 / 10;
    t
  }

  /** Joining with a separator that no part holds, then splitting, gives back the parts. */
  lemma {:induction false} SplitJoin(parts: seq<string>, sep: char)
    requires |parts| >= 1 && forall i :: 0 <= i < |parts| ==> sep !in parts[i]
    ensures Split(Join(parts, [sep]), sep) == parts
    decreases |parts|
  {
    if |parts| == 1 {
      SplitNone(parts[0], sep);
    } else {
      SplitJoin(parts[1..], sep);
      SplitFirst(parts[0], sep, Join(parts[1..], [sep]));
    }
  }

  /** `''.join(parts)` */
  function Concat(parts: seq<string>): string
  {
    if |parts| == 0 then "" else parts[0] + Concat(parts[1..])
  }

  /**
   * The lines iterating over a text file yields: each keeps its '\n',
   * and the last lacks one when the text does not end with a newline.
   */
  function Lines(text: string): seq<string>
    decreases |text|
  {
    match IndexOf(text, '\n')
    case None => if |text| == 0 then [] else [text]
    case Some(k) => [text[..k + 1]] + Lines(text[k + 1..])
  }

  /** A line as a file yields it: not empty, and no newline but a final one. */
  predicate IsLine(line: string, last: bool)
  {
    |line| > 0 && '\n' !in line[..|line| - 1] && (!last ==> line[|line| - 1] == '\n')
  }

  /** The lines put back together are the text. */
  lemma {:induction false} LinesConcat(text: string)
    ensures Concat(Lines(text)) == text
    decreases |text|
  {
    match IndexOf(text, '\n')
    case None =>
    case Some(k) =>
      LinesConcat(text[k + 1..]);
      assert ([text[..k + 1]] + Lines(text[k + 1..]))[1..] == Lines(text[k + 1..]);
      assert text == text[..k + 1] + text[k + 1..];
  }

  /** The first `c` is at `k` when `s[k]` is `c` and none comes before it. */
  lemma IndexOfIs(s: string, c: char, k: nat)
    requires k < |s| && s[k] == c && c !in s[..k]
    ensures IndexOf(s, c) == Some(k)
  {
  }

  /** A text that starts with a line ending in '\n' yields that line first. */
  lemma LinesCons(line: string, rest: string)
    requires IsLine(line, false)
    ensures Lines(line + rest) == [line] + Lines(rest)
  {
    var text := line + rest;
    assert text[..|line| - 1] == line[..|line| - 1];
    IndexOfIs(text, '\n', |line| - 1);
    assert text[..|line|] == line && text[|line|..] == rest;
  }

  /** A line without a newline is the only line of its text. */
  lemma LinesLast(line: string)
    requires IsLine(line, true) && line[|line| - 1] != '\n'
    ensures Lines(line) == [line]
  {
    assert line == line[..|line| - 1] + [line[|line| - 1]];
    assert '\n' !in line;
  }

  /** Text made of lines splits back into those lines. */
  lemma {:induction false} ConcatLines(lines: seq<string>)
    requires forall i :: 0 <= i < |lines| ==> IsLine(lines[i], i == |lines| - 1)
    ensures Lines(Concat(lines)) == lines
    decreases |lines|
  {
    if |lines| > 0 {
      var line := lines[0];
      assert IsLine(line, |lines| == 1);
      forall i | 0 <= i < |lines[1..]| ensures IsLine(lines[1..][i], i == |lines[1..]| - 1) {
        assert lines[1..][i] == lines[i + 1];
      }
      ConcatLines(lines[1..]);
      if line[|line| - 1] == '\n' {
        LinesCons(line, Concat(lines[1..]));
      } else {
        LinesLast(line);
        assert |lines| == 1 && Concat(lines) == line + "";
        assert line + "" == line;
      }
    }
  }

  /** `[i for i, field in enumerate(fields, from) if keep(field)]` */
  function Positions(fields: seq<string>, keep: string -> bool, from: nat): seq<nat>
    decreases |fields|
  {
    if |fields| == 0 then []
    else (if keep(fields[0]) then [from] else []) + Positions(fields[1..], keep, from + 1)
  }

  /**
   * The positions are exactly those of the fields kept, in increasing
   * order.
   */
  lemma {:induction false} PositionsAre(fields: seq<string>, keep: string -> bool, from: nat)
    ensures forall i :: i in Positions(fields, keep, from) <==> from <= i < from + |fields| && keep(fields[i - from])
    ensures forall a, b :: 0 <= a < b < |Positions(fields, keep, from)| ==> Positions(fields, keep, from)[a] < Positions(fields, keep, from)[b]
    ensures forall a :: 0 <= a < |Positions(fields, keep, from)| ==> from <= Positions(fields, keep, from)[a]
    decreases |fields|
  {
    if |fields| > 0 {
      PositionsAre(fields[1..], keep, from + 1);
      var rest := Positions(fields[1..], keep, from + 1);
      var head: seq<nat> := if keep(fields[0]) then [from] else [];
      var r := head + rest;
      assert Positions(fields, keep, from) == r;
      forall a | 0 <= a < |r| ensures r[a] == if a < |head| then from else rest[a - |head|] {
      }
      forall a, b | 0 <= a < b < |r| ensures r[a] < r[b] {
        assert r[b] == rest[b - |head|];
        if a >= |head| {
          assert r[a] == rest[a - |head|];
        }
      }
      forall i ensures i in r <==> from <= i < from + |fields| && keep(fields[i - from]) {
        if i in rest {
          var a :| 0 <= a < |rest| && rest[a] == i;
          assert from + 1 <= rest[a];
        }
        assert i in head <==> i == from && keep(fields[0]);
        assert i in r <==> i in head || i in rest;
        if from < i < from + |fields| {
          assert fields[i - from] == fields[1..][i - (from + 1)];
        }
      }
    }
  }
}
