/** String helpers the pipeline's policies are written in: suffix and
    substring tests, ASCII lower-casing, decimal rendering of counters and
    the extension split that Python's `os.path.splitext` performs on a
    bare file name (the Windows flavour, `ntpath`). */
module Basics {

  datatype Option<+T> = None | Some(value: T) {
    function GetOr(default: T): T {
      match this
      case Some(v) => v
      case None => default
    }
  }

  predicate StartsWith(s: string, prefix: string) {
    |prefix| <= |s| && s[..|prefix|] == prefix
  }

  predicate EndsWith(s: string, suffix: string) {
    |suffix| <= |s| && s[|s| - |suffix|..] == suffix
  }

  /** A string ends with the last character of any non-empty suffix it has. */
  lemma EndsWithLast(s: string, suffix: string)
    ensures EndsWith(s, suffix) && suffix != [] ==> s[|s| - 1] == suffix[|suffix| - 1]
  {
    if EndsWith(s, suffix) && suffix != [] {
      assert s[|s| - 1] == s[|s| - |suffix|..][|suffix| - 1];
    }
  }

  /** `sub` occurs in `s` starting at index `i`. */
  predicate OccursAt(s: string, sub: string, i: nat) {
    i + |sub| <= |s| && s[i..i + |sub|] == sub
  }

  /** Python's `sub in s` for strings. */
  predicate Contains(s: string, sub: string) {
    exists i: nat | i <= |s| :: OccursAt(s, sub, i)
  }

  /** All elements pairwise different (a directory listing never repeats a name). */
  predicate Distinct<T(==)>(xs: seq<T>) {
    forall i, j :: 0 <= i < j < |xs| ==> xs[i] != xs[j]
  }

  /** A subset is no larger than its superset. */
  lemma SubsetCard<T>(a: set<T>, b: set<T>)
    requires a <= b
    ensures |a| <= |b|
  {
    if a != {} {
      var x :| x in a;
      SubsetCard(a - {x}, b - {x});
    }
  }

  /** Removing a subset from a finite set drops its size by the subset's size. */
  lemma CardDifference<T>(a: set<T>, b: set<T>)
    requires b <= a
    ensures |a - b| == |a| - |b|
  {
    assert a == (a - b) + b;
  }

  function LowerChar(c: char): char {
    if 'A' <= c <= 'Z' then (c as int + 32) as char else c
  }

  /** `str.lower()` restricted to ASCII letters. */
  function Lower(s: string): (r: string)
    ensures |r| == |s|
    ensures forall i :: 0 <= i < |s| ==> r[i] == LowerChar(s[i])
  {
    seq(|s|, i requires 0 <= i < |s| => LowerChar(s[i]))
  }

  /** The suffix of a sidecar's name. */
  const JsonSuffix: string := ".json"

  /** A sidecar's name: it ends with `.json`, ignoring case. */
  predicate IsJsonName(name: string) {
    EndsWith(Lower(name), JsonSuffix)
  }

  // ---------------------------------------------------------------------
  // Decimal rendering of a counter, as f"{counter}" produces it.

  function DigitChar(d: nat): char
    requires d < 10
  {
    ('0' as int + d) as char
  }

  function NatToString(n: nat): (s: string)
    ensures |s| >= 1
    ensures forall i :: 0 <= i < |s| ==> '0' <= s[i] <= '9'
  {
    if n < 10 then [DigitChar(n)] else NatToString(n / 10) + [DigitChar(n % 10)]
  }

  /** Reads a string of decimal digits back as a number. */
  function DecimalValue(s: string): nat
    requires forall i :: 0 <= i < |s| ==> '0' <= s[i] <= '9'
  {
    if |s| == 0 then 0
    else DecimalValue(s[..|s| - 1]) * 10 + (s[|s| - 1] as int - '0' as int)
  }

  lemma {:induction false} DecimalRoundTrip(n: nat)
    ensures DecimalValue(NatToString(n)) == n
  {
    if n >= 10 {
      var s := NatToString(n);
      assert s[..|s| - 1] == NatToString(n / 10);
      DecimalRoundTrip(n / 10);
    }
  }

  /** Different counters render as different strings. */
  lemma NatToStringInjective(j: nat, k: nat)
    ensures NatToString(j) == NatToString(k) ==> j == k
  {
    DecimalRoundTrip(j);
    DecimalRoundTrip(k);
  }

  // ---------------------------------------------------------------------
  // os.path.splitext on a file name (no separators inside).

  /** Index of the last '.' of `s`, if there is one. */
  function LastDot(s: string): (r: Option<nat>)
    ensures r.Some? ==> r.value < |s| && s[r.value] == '.'
    ensures r.Some? ==> forall j :: r.value < j < |s| ==> s[j] != '.'
    ensures r.None? ==> forall j :: 0 <= j < |s| ==> s[j] != '.'
  {
    if |s| == 0 then None
    else if s[|s| - 1] == '.' then Some(|s| - 1)
    else LastDot(s[..|s| - 1])
  }

  /** True when the characters before `i` are not all dots. */
  predicate HasNonDotBefore(s: string, i: nat)
    requires i <= |s|
  {
    exists j :: 0 <= j < i && s[j] != '.'
  }

  /** `os.path.splitext(name)`: the extension starts at the last dot,
      unless every character before that dot is itself a dot (leading dots
      of a hidden name are not an extension). */
  function SplitExt(name: string): (r: (string, string))
    ensures r.0 + r.1 == name
    ensures r.1 != "" ==> r.1[0] == '.' && forall j :: 0 < j < |r.1| ==> r.1[j] != '.'
    ensures r.1 != "" ==> exists j :: 0 <= j < |r.0| && r.0[j] != '.'
    ensures r.1 == "" <==>
              !exists i, j :: 0 <= j < i < |name| && name[i] == '.' && name[j] != '.'
  {
    match LastDot(name)
    case None => (name, "")
    case Some(i) =>
      if HasNonDotBefore(name, i) then (name[..i], name[i..]) else (name, "")
  }
}
