/**
 * String helpers with the semantics of the JavaScript and Python built-ins
 * the tools call: prefix and substring tests, `split` on one character,
 * `join`, JavaScript `trim`, number formatting in decimal, hexadecimal and
 * binary, and left padding.
 */
module Strings {
  import opened Wrappers

  /** `s.startsWith(p)` / `s.startswith(p)`. */
  predicate StartsWith(s: string, p: string) {
    |p| <= |s| && s[..|p|] == p
  }

  /** `s.includes(p)` / `p in s`: `p` occurs in `s` at some offset. */
  predicate Contains(s: string, p: string)
    decreases |s|
  {
    StartsWith(s, p) || (|s| > 0 && Contains(s[1..], p))
  }

  /** `p` occurs in `s` starting at offset `i`. */
  predicate OccursAt(s: string, p: string, i: int) {
    0 <= i <= |s| - |p| && s[i..i + |p|] == p
  }

  lemma {:induction false} ContainsAt(s: string, p: string)
    ensures Contains(s, p) <==> exists i :: OccursAt(s, p, i)
    decreases |s|
  {
    if StartsWith(s, p) {
      assert OccursAt(s, p, 0);
    }
    if |s| > 0 {
      ContainsAt(s[1..], p);
      if Contains(s[1..], p) {
        var i :| OccursAt(s[1..], p, i);
        assert s[i + 1..i + 1 + |p|] == s[1..][i..i + |p|];
        assert OccursAt(s, p, i + 1);
      }
      if exists i :: OccursAt(s, p, i) {
        var i :| OccursAt(s, p, i);
        if i > 0 {
          assert s[1..][i - 1..i - 1 + |p|] == s[i..i + |p|];
          assert OccursAt(s[1..], p, i - 1);
        }
      }
    } else if |p| == 0 {
      assert OccursAt(s, p, 0);
    }
  }

  /** Python `s.index(p, i)`: the first offset at or after `i` where `p` occurs, `None` where Python raises. */
  function FindFrom(s: string, p: string, i: nat): (r: Option<nat>)
    ensures r.Some? ==> i <= r.value && OccursAt(s, p, r.value)
    ensures r.Some? ==> forall j :: i <= j < r.value ==> !OccursAt(s, p, j)
    ensures r.None? ==> forall j :: i <= j ==> !OccursAt(s, p, j)
    decreases |s| - i
  {
    if i + |p| > |s| then None
    else if s[i..i + |p|] == p then Some(i)
    else FindFrom(s, p, i + 1)
  }

  /** Index of the first occurrence of `c` in `s`, or |s| when there is none. */
  function IndexOf(s: string, c: char): (k: nat)
    ensures k <= |s|
    ensures k < |s| ==> s[k] == c
    ensures forall j :: 0 <= j < k ==> s[j] != c
  {
    if s == [] then 0 else if s[0] == c then 0 else 1 + IndexOf(s[1..], c)
  }

  /** Index of the last occurrence of `c` in `s`. */
  function LastIndexOf(s: string, c: char): (r: Option<nat>)
    ensures r.Some? ==> r.value < |s| && s[r.value] == c && forall j :: r.value < j < |s| ==> s[j] != c
    ensures r.None? ==> forall j :: 0 <= j < |s| ==> s[j] != c
  {
    if s == [] then None
    else if s[|s| - 1] == c then Some(|s| - 1)
    else LastIndexOf(s[..|s| - 1], c)
  }

  /** Python's and JavaScript's `<` on strings: lexicographic order of code points, a proper prefix first. */
  predicate StrLess(a: string, b: string) {
    if a == [] then b != []
    else if b == [] then false
    else if a[0] != b[0] then a[0] < b[0]
    else StrLess(a[1..], b[1..])
  }

  lemma {:induction false} StrLessIrreflexive(a: string)
    ensures !StrLess(a, a)
  {
    if a != [] {
      StrLessIrreflexive(a[1..]);
    }
  }

  lemma {:induction false} StrLessTotal(a: string, b: string)
    ensures a == b || StrLess(a, b) || StrLess(b, a)
  {
    if a != [] && b != [] && a[0] == b[0] {
      StrLessTotal(a[1..], b[1..]);
      if a[1..] == b[1..] {
        assert a == [a[0]] + a[1..] && b == [b[0]] + b[1..];
      }
    }
  }

  lemma {:induction false} StrLessTransitive(a: string, b: string, c: string)
    requires StrLess(a, b) && StrLess(b, c)
    ensures StrLess(a, c)
  {
    if a != [] && b != [] && c != [] && a[0] == b[0] && b[0] == c[0] {
      StrLessTransitive(a[1..], b[1..], c[1..]);
    }
  }

  lemma {:induction false} StrLessAsymmetric(a: string, b: string)
    requires StrLess(a, b)
    ensures !StrLess(b, a)
  {
    if a != [] && b != [] && a[0] == b[0] {
      StrLessAsymmetric(a[1..], b[1..]);
    }
  }

  /** `s.split(c)` for a one-character separator: JavaScript and Python agree. */
  function Split(s: string, c: char): seq<string>
    decreases |s|
  {
    var k := IndexOf(s, c);
    if k == |s| then [s] else [s[..k]] + Split(s[k + 1..], c)
  }

  /** `parts.join(sep)`. */
  function Join(parts: seq<string>, sep: string): string
  {
    if parts == [] then ""
    else if |parts| == 1 then parts[0]
    else parts[0] + sep + Join(parts[1..], sep)
  }

  /** Splitting never loses a character: joining the parts with the separator gives the input back. */
  lemma {:induction false} JoinSplit(s: string, c: char)
    ensures Join(Split(s, c), [c]) == s
    decreases |s|
  {
    var k := IndexOf(s, c);
    if k < |s| {
      JoinSplit(s[k + 1..], c);
      var rest := Split(s[k + 1..], c);
      assert Split(s, c) == [s[..k]] + rest;
      assert |rest| >= 1;
      assert ([s[..k]] + rest)[1..] == rest;
      assert s == s[..k] + [c] + s[k + 1..];
    }
  }

  /** No part of a split contains the separator, and there is always at least one part. */
  lemma {:induction false} SplitParts(s: string, c: char)
    ensures |Split(s, c)| >= 1
    ensures forall i, j :: 0 <= i < |Split(s, c)| && 0 <= j < |Split(s, c)[i]| ==> Split(s, c)[i][j] != c
    decreases |s|
  {
    var k := IndexOf(s, c);
    if k < |s| {
      SplitParts(s[k + 1..], c);
    }
  }

  /** Parts free of the separator come back from splitting their join: one part per piece. */
  lemma {:induction false} SplitJoin(parts: seq<string>, c: char)
    requires |parts| >= 1
    requires forall i, j :: 0 <= i < |parts| && 0 <= j < |parts[i]| ==> parts[i][j] != c
    ensures Split(Join(parts, [c]), c) == parts
    decreases |parts|
  {
    var p := parts[0];
    IndexOfNone(p, c);
    if |parts| == 1 {
      assert Join(parts, [c]) == p;
    } else {
      var rest := parts[1..];
      assert forall i, j :: 0 <= i < |rest| && 0 <= j < |rest[i]| ==> rest[i][j] == parts[i + 1][j];
      SplitJoin(rest, c);
      var t := Join(rest, [c]);
      var u := [c] + t;
      var s := p + u;
      assert Join(parts, [c]) == s;
      IndexOfPrefix(p, c, u);
      assert s[..|p|] == p;
      assert s[|p| + 1..] == u[1..] == t;
      assert Split(s, c) == [p] + Split(t, c);
      assert parts == [p] + rest;
    }
  }

  lemma IndexOfNone(p: string, c: char)
    requires forall j :: 0 <= j < |p| ==> p[j] != c
    ensures IndexOf(p, c) == |p|
  {
  }

  /** The first `c` of `p + t` is the first of `t` when `p` has none. */
  lemma IndexOfPrefix(p: string, c: char, t: string)
    requires IndexOf(p, c) == |p| && t != [] && t[0] == c
    ensures IndexOf(p + t, c) == |p|
  {
    assert (p + t)[|p|] == c;
    assert forall j :: 0 <= j < |p| ==> (p + t)[j] == p[j];
  }

  /** The white-space and line-terminator code points that JavaScript's `trim` removes. */
  predicate IsJsSpace(c: char) {
    c == ' ' || c == '\t' || c == '\n' || c == '\r' || c == '\U{000B}' || c == '\U{000C}'
    || c == '\U{00A0}' || c == '\U{1680}' || ('\U{2000}' <= c <= '\U{200A}')
    || c == '\U{2028}' || c == '\U{2029}' || c == '\U{202F}' || c == '\U{205F}'
    || c == '\U{3000}' || c == '\U{FEFF}'
  }

  /** The index of the first character from `i` on that is not white space (`|s|` when there is none). */
  function SpaceEnd(s: string, i: nat): (k: nat)
    requires i <= |s|
    ensures i <= k <= |s|
    decreases |s| - i
  {
    if i < |s| && IsJsSpace(s[i]) then SpaceEnd(s, i + 1) else i
  }

  /** The index just past the last character before `j` that is not white space, going no lower than `a`. */
  function SpaceStart(s: string, a: nat, j: nat): (k: nat)
    requires a <= j <= |s|
    ensures a <= k <= j
    decreases j
  {
    if a < j && IsJsSpace(s[j - 1]) then SpaceStart(s, a, j - 1) else j
  }

  lemma {:induction false} SpaceEndSpec(s: string, i: nat)
    requires i <= |s|
    ensures forall k :: i <= k < SpaceEnd(s, i) ==> IsJsSpace(s[k])
    ensures SpaceEnd(s, i) < |s| ==> !IsJsSpace(s[SpaceEnd(s, i)])
    decreases |s| - i
  {
    if i < |s| && IsJsSpace(s[i]) {
      SpaceEndSpec(s, i + 1);
    }
  }

  lemma {:induction false} SpaceStartSpec(s: string, a: nat, j: nat)
    requires a <= j <= |s|
    ensures forall k :: SpaceStart(s, a, j) <= k < j ==> IsJsSpace(s[k])
    ensures a < SpaceStart(s, a, j) ==> !IsJsSpace(s[SpaceStart(s, a, j) - 1])
    decreases j
  {
    if a < j && IsJsSpace(s[j - 1]) {
      SpaceStartSpec(s, a, j - 1);
    }
  }

  /** JavaScript `s.trimStart()`. */
  function TrimStart(s: string): string {
    s[SpaceEnd(s, 0)..]
  }

  /** JavaScript `s.trim()`. */
  function JsTrim(s: string): string {
    var a := SpaceEnd(s, 0);
    s[a..SpaceStart(s, a, |s|)]
  }

  /** Trimming removes only white space, and only at the ends. */
  lemma JsTrimShape(s: string)
    ensures exists a, b :: (0 <= a <= b <= |s| && JsTrim(s) == s[a..b]
      && (forall i :: 0 <= i < a ==> IsJsSpace(s[i]))
      && (forall i :: b <= i < |s| ==> IsJsSpace(s[i])))
    ensures JsTrim(s) == [] || (!IsJsSpace(JsTrim(s)[0]) && !IsJsSpace(JsTrim(s)[|JsTrim(s)| - 1]))
  {
    var a := SpaceEnd(s, 0);
    var b := SpaceStart(s, a, |s|);
    SpaceEndSpec(s, 0);
    SpaceStartSpec(s, a, |s|);
    assert JsTrim(s) == s[a..b];
    if a < b {
      assert JsTrim(s)[0] == s[a];
      assert JsTrim(s)[b - a - 1] == s[b - 1];
    }
  }

  /** Number of occurrences of `x` in `xs`. */
  function Count<T(==)>(xs: seq<T>, x: T): nat {
    if xs == [] then 0 else (if xs[0] == x then 1 else 0) + Count(xs[1..], x)
  }

  lemma {:induction false} CountAppend<T>(a: seq<T>, b: seq<T>, x: T)
    ensures Count(a + b, x) == Count(a, x) + Count(b, x)
  {
    if a == [] {
      assert a + b == b;
    } else {
      assert (a + b)[0] == a[0];
      assert (a + b)[1..] == a[1..] + b;
      CountAppend(a[1..], b, x);
    }
  }

  /** The elements of `xs` are pairwise distinct. */
  predicate NoDup<T(==)>(xs: seq<T>) {
    forall i, j :: 0 <= i < j < |xs| ==> xs[i] != xs[j]
  }

  /** The set of elements of a sequence. */
  function Elems<T>(s: seq<T>): set<T> {
    set x | x in s
  }

  /** The elements of a concatenation are those of its parts. */
  lemma ElemsConcat<T>(a: seq<T>, b: seq<T>)
    ensures Elems(a + b) == Elems(a) + Elems(b)
  {
    assert forall x :: x in a + b <==> x in a || x in b;
  }

  /** A duplicate-free sequence holds each value at most once. */
  lemma {:induction false} NoDupAtMostOnce<T>(a: seq<T>, x: T)
    requires NoDup(a)
    ensures multiset(a)[x] <= 1
  {
    if a != [] {
      assert a == [a[0]] + a[1..];
      NoDupAtMostOnce(a[1..], x);
      if a[0] == x {
        assert x !in a[1..];
      }
    }
  }

  /** Being duplicate-free depends only on the multiset of elements. */
  lemma NoDupMultiset<T>(a: seq<T>, b: seq<T>)
    requires NoDup(a) && multiset(a) == multiset(b)
    ensures NoDup(b)
  {
    forall i, j | 0 <= i < j < |b| ensures b[i] != b[j] {
      if b[i] == b[j] {
        assert b == b[..j] + b[j..];
        assert b[i] in b[..j] && b[j] in b[j..];
        assert multiset(b)[b[i]] == multiset(b[..j])[b[i]] + multiset(b[j..])[b[i]];
        NoDupAtMostOnce(a, b[i]);
      }
    }
  }

  lemma NoDupConcat<T>(a: seq<T>, b: seq<T>)
    requires NoDup(a) && NoDup(b)
    requires forall x :: x in a ==> x !in b
    ensures NoDup(a + b)
  {
    forall i, j | 0 <= i < j < |a + b| ensures (a + b)[i] != (a + b)[j] {
      if i < |a| && j >= |a| {
        assert (a + b)[i] in a && (a + b)[j] == b[j - |a|];
      }
    }
  }

  // ---- numbers as text -------------------------------------------------

  function DigitChar(d: nat): char
    requires d < 16
  {
    "0123456789ABCDEF"[d]
  }

  /** Is `c` a hexadecimal digit (either case)? */
  predicate IsHexDigit(c: char) {
    '0' <= c <= '9' || 'A' <= c <= 'F' || 'a' <= c <= 'f'
  }

  /** The value of a hexadecimal digit (either case); 0 for any other character. */
  function DigitValue(c: char): (v: nat)
    ensures v < 16
  {
    if '0' <= c <= '9' then (c as int - '0' as int) as nat
    else if 'A' <= c <= 'F' then (c as int - 'A' as int + 10) as nat
    else if 'a' <= c <= 'f' then (c as int - 'a' as int + 10) as nat
    else 0
  }

  lemma DigitCharValue(d: nat)
    requires d < 16
    ensures DigitValue(DigitChar(d)) == d
  {
  }

  /** The digits of `n` in base `b`, most significant first, with no leading zeros ("0" for zero). */
  function Digits(n: nat, b: nat): (s: string)
    requires 2 <= b <= 16
    ensures |s| >= 1
    decreases n
  {
    if n < b then [DigitChar(n)] else Digits(n / b, b) + [DigitChar(n % b)]
  }

  /** Reads a string of base-`b` digits back as a number. */
  function DigitsValue(s: string, b: nat): nat {
    if s == [] then 0 else DigitsValue(s[..|s| - 1], b) * b + DigitValue(s[|s| - 1])
  }

  lemma DigitsValueSnoc(t: string, c: char, b: nat)
    ensures DigitsValue(t + [c], b) == DigitsValue(t, b) * b + DigitValue(c)
  {
    assert (t + [c])[..|t|] == t;
  }

  lemma DivModBounds(n: nat, b: nat)
    requires b > 0
    ensures n % b < b && (n / b) * b + n % b == n
  {
  }

  lemma SingleDigitRoundTrip(n: nat, b: nat)
    requires 2 <= b <= 16 && n < b
    ensures DigitsValue(Digits(n, b), b) == n
  {
    DigitCharValue(n);
    assert Digits(n, b) == [] + [DigitChar(n)];
    DigitsValueSnoc([], DigitChar(n), b);
  }

  /** Reading the digits of `n` back gives `n`. */
  lemma {:induction false} DigitsRoundTrip(n: nat, b: nat)
    requires 2 <= b <= 16
    ensures DigitsValue(Digits(n, b), b) == n
    decreases n
  {
    if n >= b {
      DivModBounds(n, b);
      var t, c := Digits(n / b, b), DigitChar(n % b);
      assert Digits(n, b) == t + [c];
      DivShrinks(n, b);
      DigitsRoundTrip(n / b, b);
      DigitCharValue(n % b);
      DigitsValueSnoc(t, c, b);
      Recompose(DigitsValue(t, b), DigitValue(c), n, b);
    } else {
      SingleDigitRoundTrip(n, b);
    }
  }

  /** Quotient and remainder are the only such pair: `v == d * q + r` with `r < d` fixes both. */
  lemma DivModUnique(v: nat, d: nat, q: nat, r: nat)
    requires d >= 1 && r < d && v == d * q + r
    ensures v / d == q && v % d == r
  {
    var q2 := v / d;
    DivModBounds(v, d);
    if q2 > q {
      MulLe(d, q + 1, q2);
    } else if q2 < q {
      MulLe(d, q2 + 1, q);
    }
  }

  lemma MulLe(d: nat, a: nat, b: nat)
    requires a <= b
    ensures d * a <= d * b
  {
    assert d * b == d * a + d * (b - a);
  }

  lemma DivShrinks(n: nat, b: nat)
    requires b >= 2 && n >= 1
    ensures n / b < n
  {
  }

  lemma Recompose(q: nat, r: nat, n: nat, b: nat)
    requires b > 0 && q == n / b && r == n % b
    ensures q * b + r == n
  {
  }

  /** Leading zeros do not change the value of a digit string. */
  lemma {:induction false} LeadingZeros(z: string, s: string, b: nat)
    requires forall i :: 0 <= i < |z| ==> z[i] == '0'
    ensures DigitsValue(z + s, b) == DigitsValue(s, b)
    decreases |s|
  {
    if s == [] {
      assert z + s == z;
      AllZeros(z, b);
    } else {
      var t, c := s[..|s| - 1], s[|s| - 1];
      assert s == t + [c];
      assert z + s == (z + t) + [c];
      DigitsValueSnoc(z + t, c, b);
      DigitsValueSnoc(t, c, b);
      LeadingZeros(z, t, b);
    }
  }

  lemma {:induction false} AllZeros(z: string, b: nat)
    requires forall i :: 0 <= i < |z| ==> z[i] == '0'
    ensures DigitsValue(z, b) == 0
  {
    if z != [] {
      AllZeros(z[..|z| - 1], b);
    }
  }

  /** Distinct numbers have distinct digit strings. */
  lemma DigitsInjective(m: nat, n: nat, b: nat)
    requires 2 <= b <= 16 && Digits(m, b) == Digits(n, b)
    ensures m == n
  {
    DigitsRoundTrip(m, b);
    DigitsRoundTrip(n, b);
  }

  /** `String(n)` / template interpolation of an integer. */
  function IntToDecimal(i: int): string {
    if i < 0 then "-" + Digits(-i, 10) else Digits(i, 10)
  }

  /** `s.padStart(w, c)`. */
  function PadStart(s: string, w: nat, c: char): (r: string)
    ensures |r| == if |s| >= w then |s| else w
  {
    if |s| >= w then s else seq(w - |s|, _ => c) + s
  }

  /** Padding puts copies of `c` in front of `s` and changes nothing else. */
  lemma PadStartSpec(s: string, w: nat, c: char)
    ensures var r := PadStart(s, w, c);
      r == r[..|r| - |s|] + s && forall i :: 0 <= i < |r| - |s| ==> r[i] == c
  {
  }

  /** Python `f"{n:0wX}"` and JavaScript `n.toString(16).toUpperCase().padStart(w, '0')`. */
  function HexUpper(n: nat, w: nat): string {
    PadStart(Digits(n, 16), w, '0')
  }
}
