/** The pieces of Go's standard library that the indexers and the page
    generators lean on, written out so that their results can be reasoned
    about: fmt.Sprint of a positive int, strings.ToLower (ASCII letters),
    strings.Split / strings.Join on a one-character separator, path.Base,
    and the one regular-expression shape used as a grep path filter. */
module Strings {

  datatype Option<T> = None | Some(value: T)

  // ---------------------------------------------------------------------
  // Decimal numerals (fmt.Sprint of a non-negative int)
  // ---------------------------------------------------------------------

  predicate IsDigit(c: char) { '0' <= c <= '9' }

  predicate AllDigits(s: string) { forall i :: 0 <= i < |s| ==> IsDigit(s[i]) }

  function DigitChar(d: nat): (c: char)
    requires d < 10
    ensures IsDigit(c) && c as int - '0' as int == d
  {
    (d + '0' as int) as char
  }

  function DigitValue(c: char): nat
    requires IsDigit(c)
  {
    c as int - '0' as int
  }

  /** The decimal numeral of n: digits only, never empty, no leading zero. */
  function Dec(n: nat): (s: string)
    ensures |s| > 0 && AllDigits(s)
    ensures n > 0 ==> s[0] != '0'
  {
    if n < 10 then [DigitChar(n)] else Dec(n / 10) + [DigitChar(n % 10)]
  }

  /** The value of a numeral, most significant digit first. */
  function DigitsValue(s: string): nat
    requires AllDigits(s)
  {
    if s == [] then 0 else DigitsValue(s[..|s| - 1]) * 10 + DigitValue(s[|s| - 1])
  }

  /** Reading a numeral back gives the number that was printed. */
  lemma {:induction false} DecValue(n: nat)
    ensures DigitsValue(Dec(n)) == n
  {
    var s := Dec(n);
    if n < 10 {
      assert s[..|s| - 1] == [];
    } else {
      assert s[..|s| - 1] == Dec(n / 10);
      DecValue(n / 10);
    }
  }

  /** Number of leading decimal digits of s: the longest all-digit prefix. */
  function DigitRun(s: string): (n: nat)
    ensures n <= |s|
    ensures forall i :: 0 <= i < n ==> IsDigit(s[i])
    ensures n < |s| ==> !IsDigit(s[n])
  {
    if s != [] && IsDigit(s[0]) then 1 + DigitRun(s[1..]) else 0
  }

  lemma DigitRunOfDec(n: nat, rest: string)
    requires rest == [] || !IsDigit(rest[0])
    ensures DigitRun(Dec(n) + rest) == |Dec(n)|
    ensures (Dec(n) + rest)[..|Dec(n)|] == Dec(n) && (Dec(n) + rest)[|Dec(n)|..] == rest
  {
  }

  // ---------------------------------------------------------------------
  // strings.ToLower, restricted to ASCII letters
  // ---------------------------------------------------------------------

  predicate IsUpper(c: char) { 'A' <= c <= 'Z' }

  function LowerChar(c: char): (d: char)
    ensures !IsUpper(d)
    ensures !IsUpper(c) ==> d == c
  {
    if IsUpper(c) then (c as int + 32) as char else c
  }

  /** Lower-cases every ASCII letter; every other character is kept. */
  function ToLower(s: string): (r: string)
    ensures |r| == |s|
    ensures forall i :: 0 <= i < |s| ==> r[i] == LowerChar(s[i])
  {
    if s == [] then [] else [LowerChar(s[0])] + ToLower(s[1..])
  }

  /** Lower-casing twice is lower-casing once. */
  lemma ToLowerIdempotent(s: string)
    ensures ToLower(ToLower(s)) == ToLower(s)
  {
    var r := ToLower(s);
    var rr := ToLower(r);
    forall i | 0 <= i < |r| ensures rr[i] == r[i] {
      assert r[i] == LowerChar(s[i]);
    }
  }

  /** Lower-casing neither makes nor removes a character that is not an upper-case letter. */
  lemma ToLowerKeeps(s: string, sep: char)
    requires !('A' <= sep <= 'Z') && !('a' <= sep <= 'z')
    ensures sep in ToLower(s) <==> sep in s
  {
    var r := ToLower(s);
    if sep in s {
      var i :| 0 <= i < |s| && s[i] == sep;
      assert r[i] == sep;
    }
    if sep in r {
      var i :| 0 <= i < |r| && r[i] == sep;
      assert LowerChar(s[i]) == sep;
    }
  }

  // ---------------------------------------------------------------------
  // strings.Split and strings.Join with a one-character separator
  // ---------------------------------------------------------------------

  /** strings.Split(s, [sep]): the pieces between separators, at least one. */
  function Split(s: string, sep: char): (parts: seq<string>)
    ensures |parts| >= 1
    ensures forall i :: 0 <= i < |parts| ==> sep !in parts[i]
  {
    if s == [] then [[]]
    else if s[0] == sep then [[]] + Split(s[1..], sep)
    else
      var rest := Split(s[1..], sep);
      [[s[0]] + rest[0]] + rest[1..]
  }

  /** strings.Join(parts, sep). */
  function Join(parts: seq<string>, sep: string): string
  {
    if |parts| == 0 then ""
    else if |parts| == 1 then parts[0]
    else parts[0] + sep + Join(parts[1..], sep)
  }

  lemma {:induction false} SplitNoSep(s: string, sep: char)
    requires sep !in s
    ensures Split(s, sep) == [s]
  {
    if s != [] {
      assert s[0] != sep && sep !in s[1..];
      SplitNoSep(s[1..], sep);
      assert [s[0]] + s[1..] == s;
    }
  }

  /** A separator splits the string into the pieces of each side. */
  lemma {:induction false} SplitAt(a: string, b: string, sep: char)
    ensures Split(a + [sep] + b, sep) == Split(a, sep) + Split(b, sep)
  {
    if a == [] {
      assert (a + [sep] + b)[1..] == b;
    } else {
      assert (a + [sep] + b)[1..] == a[1..] + [sep] + b;
      SplitAt(a[1..], b, sep);
    }
  }

  /** Joining the pieces of a split gives the string back. */
  lemma {:induction false} JoinSplit(s: string, sep: char)
    ensures Join(Split(s, sep), [sep]) == s
  {
    if s != [] {
      JoinSplit(s[1..], sep);
      var rest := Split(s[1..], sep);
      if s[0] == sep {
        assert ([[]] + rest)[1..] == rest;
      } else {
        var parts := [[s[0]] + rest[0]] + rest[1..];
        if |rest| > 1 {
          assert parts[1..] == rest[1..];
        }
      }
    }
  }

  /** Splitting a join of separator-free pieces gives the pieces back. */
  lemma {:induction false} SplitJoin(parts: seq<string>, sep: char)
    requires |parts| >= 1
    requires forall i :: 0 <= i < |parts| ==> sep !in parts[i]
    ensures Split(Join(parts, [sep]), sep) == parts
  {
    if |parts| == 1 {
      SplitNoSep(parts[0], sep);
    } else {
      SplitJoin(parts[1..], sep);
      SplitAt(parts[0], Join(parts[1..], [sep]), sep);
      SplitNoSep(parts[0], sep);
    }
  }

  /** `a + "/" + b` style composition: the pieces of the head, then the tail. */
  lemma SplitAppendSegment(a: string, seg: string, sep: char)
    requires sep !in seg
    ensures Split(a + [sep] + seg, sep) == Split(a, sep) + [seg]
  {
    SplitAt(a, seg, sep);
    SplitNoSep(seg, sep);
  }

  // ---------------------------------------------------------------------
  // path.Base
  // ---------------------------------------------------------------------

  function TrimTrailing(s: string, c: char): (r: string)
    ensures r <= s
    ensures r == [] || r[|r| - 1] != c
    ensures forall i :: |r| <= i < |s| ==> s[i] == c
  {
    if s != [] && s[|s| - 1] == c then TrimTrailing(s[..|s| - 1], c) else s
  }

  /** Index of the last occurrence of c in s, or -1. */
  function LastIndex(s: string, c: char): (i: int)
    ensures -1 <= i < |s|
    ensures i >= 0 ==> s[i] == c
    ensures forall j :: i < j < |s| ==> s[j] != c
  {
    if s == [] then -1
    else if s[|s| - 1] == c then |s| - 1
    else LastIndex(s[..|s| - 1], c)
  }

  /** Go's path.Base: the last element after trailing slashes are removed;
      "." for the empty path and "/" for a path of slashes only. */
  function Base(p: string): (r: string)
    ensures r != []
    ensures '/' in r ==> r == "/"
  {
    if p == [] then "."
    else
      var t := TrimTrailing(p, '/');
      var i := LastIndex(t, '/');
      var b := if i >= 0 then t[i + 1..] else t;
      if b == [] then "/" else b
  }

  /** For a path that does not end in a slash, the base is its last segment. */
  lemma BaseIsLastSegment(p: string)
    requires p != [] && p[|p| - 1] != '/'
    ensures var parts := Split(p, '/'); Base(p) == parts[|parts| - 1]
  {
    assert TrimTrailing(p, '/') == p;
    var i := LastIndex(p, '/');
    if i < 0 {
      SplitNoSep(p, '/');
    } else {
      assert p == p[..i] + ['/'] + p[i + 1..];
      assert '/' !in p[i + 1..];
      SplitAppendSegment(p[..i], p[i + 1..], '/');
    }
  }

  // ---------------------------------------------------------------------
  // The regular expression `^P.*L` used as a grep path filter
  // ---------------------------------------------------------------------

  /** Go's regexp `.*L` matched from the start of s, unanchored at the end:
      some occurrence of L is preceded only by characters other than a newline
      (in Go's default mode `.` does not match a newline). */
  function MatchAnyThen(s: string, lit: string): bool
    decreases |s|
  {
    if lit <= s then true
    else if s == [] || s[0] == '\n' then false
    else MatchAnyThen(s[1..], lit)
  }

  /** L starts at position i of s and no newline comes before it. */
  ghost predicate OccursAt(s: string, lit: string, i: nat)
  {
    i + |lit| <= |s| && s[i..i + |lit|] == lit && '\n' !in s[..i]
  }

  /** The declarative reading of `.*L`. */
  ghost predicate OccursBeforeNewline(s: string, lit: string)
  {
    exists i: nat :: OccursAt(s, lit, i)
  }

  lemma {:induction false} MatchSound(s: string, lit: string) returns (i: nat)
    requires MatchAnyThen(s, lit)
    ensures OccursAt(s, lit, i)
    decreases |s|
  {
    if lit <= s {
      i := 0;
      assert s[0..|lit|] == lit;
    } else {
      var t := s[1..];
      var j := MatchSound(t, lit);
      i := j + 1;
      assert s[i..i + |lit|] == t[j..j + |lit|];
      assert s[..i] == [s[0]] + t[..j];
    }
  }

  lemma {:induction false} MatchComplete(s: string, lit: string, i: nat)
    requires OccursAt(s, lit, i)
    ensures MatchAnyThen(s, lit)
    decreases i
  {
    if !(lit <= s) {
      if i > 0 {
        assert s[0] == s[..i][0];
        assert s[1..][i - 1..i - 1 + |lit|] == s[i..i + |lit|];
        assert s[1..][..i - 1] == s[..i][1..];
        MatchComplete(s[1..], lit, i - 1);
      }
    }
  }

  /** The scan agrees with the declarative reading, in both directions. */
  lemma MatchAnyThenIff(s: string, lit: string)
    ensures MatchAnyThen(s, lit) <==> OccursBeforeNewline(s, lit)
  {
    if MatchAnyThen(s, lit) {
      var i := MatchSound(s, lit);
    }
    if OccursBeforeNewline(s, lit) {
      var i: nat :| OccursAt(s, lit, i);
      MatchComplete(s, lit, i);
    }
  }
}
