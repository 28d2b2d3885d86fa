/**
 * String helpers shared by the renderers and scanners: Python's `str.startswith`,
 * `str.endswith`, the `in` substring test, `str.join`, single-character
 * `str.replace`, and the decimal digits behind `int(...)` and `f"{n:02}"`.
 */
module Text {
  import opened Wrappers

  predicate IsDigit(c: char) { '0' <= c <= '9' }

  /** The ASCII class `[A-Za-z0-9]` of the title sanitizer. */
  predicate IsAlnum(c: char) { 'A' <= c <= 'Z' || 'a' <= c <= 'z' || '0' <= c <= '9' }

  predicate AllDigits(s: string) { forall i :: 0 <= i < |s| ==> IsDigit(s[i]) }

  predicate StartsWith(s: string, p: string) { |p| <= |s| && s[..|p|] == p }

  predicate EndsWith(s: string, p: string) { |p| <= |s| && s[|s| - |p|..] == p }

  /** `p` occurs in `s` at position `i`. */
  predicate OccursAt(s: string, p: string, i: int) { 0 <= i && i + |p| <= |s| && s[i..i + |p|] == p }

  /** An occurrence inside a slice is an occurrence in the whole string. */
  lemma OccursAtSlice(s: string, p: string, a: nat, b: nat, q: int)
    requires a <= b <= |s|
    ensures OccursAt(s[a..b], p, q) ==> OccursAt(s, p, a + q)
  {
    if OccursAt(s[a..b], p, q) {
      forall k | 0 <= k < |p|
        ensures s[a + q..a + q + |p|][k] == p[k]
      {
        assert s[a..b][q..q + |p|][k] == p[k];
      }
      assert s[a + q..a + q + |p|] == p;
    }
  }

  lemma AppendAssoc<T>(a: seq<T>, b: seq<T>, c: seq<T>)
    ensures (a + b) + c == a + (b + c)
  {
  }

  /** The three parts of a concatenation are its consecutive slices. */
  lemma ConcatParts<T>(a: seq<T>, b: seq<T>, c: seq<T>)
    ensures |a + b + c| == |a| + |b| + |c|
    ensures (a + b + c)[..|a|] == a
    ensures (a + b + c)[|a|..|a| + |b|] == b
    ensures (a + b + c)[|a| + |b|..] == c
  {
  }

  /** Prefixing a concatenation of four parts is concatenating all five. */
  lemma PrefixConcat<T>(a: seq<T>, b: seq<T>, c: seq<T>, d: seq<T>, e: seq<T>)
    ensures a + (b + c + d + e) == a + b + c + d + e
  {
  }

  /** Python's `p in s`. */
  predicate Contains(s: string, p: string) { exists i :: 0 <= i <= |s| - |p| && OccursAt(s, p, i) }

  /** The first position at or after `from` where `p` occurs, if any. */
  function IndexOf(s: string, p: string, from: nat): (r: Option<nat>)
    decreases |s| - from
    ensures r.Some? ==> from <= r.value && OccursAt(s, p, r.value)
    ensures r.Some? ==> forall j :: from <= j < r.value ==> !OccursAt(s, p, j)
    ensures r.None? ==> forall j :: from <= j ==> !OccursAt(s, p, j)
  {
    if from + |p| > |s| then None
    else if s[from..from + |p|] == p then Some(from)
    else IndexOf(s, p, from + 1)
  }

  /** Python's `sep.join(parts)`. */
  function Join(sep: string, parts: seq<string>): string
  {
    if |parts| == 0 then ""
    else if |parts| == 1 then parts[0]
    else parts[0] + sep + Join(sep, parts[1..])
  }

  /** Python's `s.replace(from, to)` for one-character `from` and `to`. */
  function ReplaceChar(s: string, from: char, to: char): string
  {
    if s == [] then [] else [if s[0] == from then to else s[0]] + ReplaceChar(s[1..], from, to)
  }

  /** Replacing keeps the length and changes exactly the occurrences of `from`. */
  lemma {:induction false} ReplaceCharAt(s: string, from: char, to: char)
    ensures |ReplaceChar(s, from, to)| == |s|
    ensures forall i :: 0 <= i < |s| ==>
              ReplaceChar(s, from, to)[i] == (if s[i] == from then to else s[i])
    decreases |s|
  {
    if s != [] {
      ReplaceCharAt(s[1..], from, to);
    }
  }

  /** Replacing a character that does not occur changes nothing. */
  lemma {:induction false} ReplaceCharAbsent(s: string, from: char, to: char)
    requires forall i :: 0 <= i < |s| ==> s[i] != from
    ensures ReplaceChar(s, from, to) == s
    decreases |s|
  {
    if s != [] {
      ReplaceCharAbsent(s[1..], from, to);
    }
  }

  function DigitChar(d: nat): (c: char)
    requires d < 10
    ensures IsDigit(c)
  {
    ('0' as int + d) as char
  }

  function DigitOf(c: char): nat
    requires IsDigit(c)
  {
    (c as int - '0' as int) as nat
  }

  /** The number a string of decimal digits denotes (Python's `int(digits)`). */
  function DigitsValue(s: string): nat
    requires AllDigits(s)
  {
    if s == [] then 0 else DigitsValue(s[..|s| - 1]) * 10 + DigitOf(s[|s| - 1])
  }

  /** Python's `str(n)` for a natural number: its shortest decimal spelling. */
  function Decimal(n: nat): (s: string)
    ensures |s| >= 1 && AllDigits(s)
    ensures DigitsValue(s) == n
    ensures s[0] == '0' ==> n == 0
  {
    if n < 10 then
      var c := DigitChar(n);
      assert DigitOf(c) == n;
      assert [c][..0] == [];
      [c]
    else
      var a := Decimal(n / 10);
      var c := DigitChar(n % 10);
      assert DigitOf(c) == n % 10;
      assert (a + [c])[..|a|] == a;
      a + [c]
  }

  /** A leading zero does not change the value of a digit string. */
  lemma {:induction false} LeadingZero(s: string)
    requires AllDigits(s)
    ensures AllDigits("0" + s) && DigitsValue("0" + s) == DigitsValue(s)
  {
    if s == [] {
      assert ("0" + s)[..0] == [];
    } else {
      var t := s[..|s| - 1];
      LeadingZero(t);
      assert ("0" + s)[..|"0" + s| - 1] == "0" + t;
    }
  }

  /** Python's `f"{n:02}"`: at least two digits, zero-padded, spelling `n`. */
  function Pad2(n: nat): (s: string)
    ensures |s| >= 2 && AllDigits(s) && DigitsValue(s) == n
    ensures n < 10 ==> s[0] == '0'
    ensures n >= 10 ==> s == Decimal(n)
  {
    if n < 10 then
      LeadingZero(Decimal(n));
      "0" + Decimal(n)
    else
      Decimal(n)
  }
}
