/**
 * The two spellings of a ROM byte position that the tools exchange: the
 * `hhhh_llll` binary key of the ROM JSON tables (written by the Python
 * extractor, looked up by the browser converter) and the `0xHH` hex code
 * (written by both Python scripts, read back with JavaScript
 * `parseInt(code, 16)`).
 */
module ByteKeys {
  import opened Wrappers
  import opened Strings

  /** JavaScript `n.toString(2)` for an integer. */
  function JsBinary(i: int): string {
    if i < 0 then "-" + Digits(-i, 2) else Digits(i, 2)
  }

  /**
   * The table key of position `i`: the binary digits padded to eight with
   * leading zeros, with `_` inserted after the first four. JavaScript builds it
   * with `toString(2).padStart(8, '0')` and two `slice`s, Python with
   * `f"{i:08b}"` and two slices; for a natural number both give this string.
   */
  function BinaryKey(i: int): (key: string)
    ensures |key| >= 9 && key[4] == '_'
  {
    var b := PadStart(JsBinary(i), 8, '0');
    b[..4] + "_" + b[4..]
  }

  /** The number a binary key spells, reading every character but the `_`. */
  function KeyValue(key: string): nat
    requires |key| >= 5
  {
    DigitsValue(key[..4] + key[5..], 2)
  }

  /** Zero padding on the left does not change the value of a digit string. */
  lemma PaddedValue(d: string, w: nat, b: nat)
    ensures DigitsValue(PadStart(d, w, '0'), b) == DigitsValue(d, b)
  {
    var p := PadStart(d, w, '0');
    PadStartSpec(d, w, '0');
    var z := p[..|p| - |d|];
    assert p == z + d;
    LeadingZeros(z, d, b);
  }

  /** Reading a key back gives its position, for every natural number. */
  lemma KeyRoundTrip(n: nat)
    ensures KeyValue(BinaryKey(n)) == n
  {
    var b := PadStart(Digits(n, 2), 8, '0');
    var key := BinaryKey(n);
    assert key[..4] + key[5..] == b;
    PaddedValue(Digits(n, 2), 8, 2);
    DigitsRoundTrip(n, 2);
  }

  /** Distinct positions have distinct keys. */
  lemma KeyInjective(m: nat, n: nat)
    requires BinaryKey(m) == BinaryKey(n)
    ensures m == n
  {
    KeyRoundTrip(m);
    KeyRoundTrip(n);
  }

  /** A number below `2^k` has at most `k` binary digits. */
  lemma {:induction false} BinaryDigitsBound(n: nat, k: nat)
    requires 1 <= k && n < Pow2(k)
    ensures |Digits(n, 2)| <= k
    decreases k
  {
    if n >= 2 {
      assert Pow2(1) == 2;
      DivModBounds(n, 2);
      BinaryDigitsBound(n / 2, k - 1);
    }
  }

  function Pow2(k: nat): (p: nat)
    ensures p >= 1
  {
    if k == 0 then 1 else 2 * Pow2(k - 1)
  }

  /** The key of a byte value: nine characters, binary digits around a `_` at index 4. */
  lemma ByteKeyShape(n: nat)
    requires n < 256
    ensures |BinaryKey(n)| == 9
    ensures forall i :: 0 <= i < 9 && i != 4 ==> BinaryKey(n)[i] == '0' || BinaryKey(n)[i] == '1'
  {
    assert Pow2(8) == 256;
    BinaryDigitsBound(n, 8);
    BinaryDigitsAreBits(n);
    PadStartSpec(Digits(n, 2), 8, '0');
  }

  lemma {:induction false} BinaryDigitsAreBits(n: nat)
    ensures forall i :: 0 <= i < |Digits(n, 2)| ==> Digits(n, 2)[i] == '0' || Digits(n, 2)[i] == '1'
    decreases n
  {
    if n >= 2 {
      BinaryDigitsAreBits(n / 2);
      DivModBounds(n, 2);
    }
  }

  /** Python `f"0x{n:02X}"`: the hex code the scripts store for a byte position. */
  function HexCode(n: nat): string {
    "0x" + HexUpper(n, 2)
  }

  /** The index just past the hexadecimal digits of `s` from `i` on. */
  function HexEnd(s: string, i: nat): (k: nat)
    requires i <= |s|
    ensures i <= k <= |s|
    decreases |s| - i
  {
    if i < |s| && IsHexDigit(s[i]) then HexEnd(s, i + 1) else i
  }

  /**
   * JavaScript `parseInt(s, 16)`: leading white space, an optional sign, an
   * optional `0x`/`0X`, then as many hexadecimal digits as there are; `None`
   * stands for `NaN` (no digit at all).
   */
  function ParseInt16(s: string): Option<int> {
    var t := TrimStart(s);
    var neg := |t| > 0 && t[0] == '-';
    var u := if |t| > 0 && (t[0] == '-' || t[0] == '+') then t[1..] else t;
    var v := if |u| >= 2 && u[0] == '0' && (u[1] == 'x' || u[1] == 'X') then u[2..] else u;
    var ds := v[..HexEnd(v, 0)];
    if ds == [] then None
    else if neg then Some(-(DigitsValue(ds, 16) as int))
    else Some(DigitsValue(ds, 16))
  }

  lemma {:induction false} HexDigitsAreHex(n: nat)
    ensures forall i :: 0 <= i < |Digits(n, 16)| ==> IsHexDigit(Digits(n, 16)[i])
    decreases n
  {
    if n >= 16 {
      HexDigitsAreHex(n / 16);
      DivModBounds(n, 16);
    }
  }

  /** The digits from `i` to `HexEnd(s, i)` are hex digits and the character after them is not. */
  lemma {:induction false} HexEndSpec(s: string, i: nat)
    requires i <= |s|
    ensures forall k :: i <= k < HexEnd(s, i) ==> IsHexDigit(s[k])
    ensures HexEnd(s, i) < |s| ==> !IsHexDigit(s[HexEnd(s, i)])
    decreases |s| - i
  {
    if i < |s| && IsHexDigit(s[i]) {
      HexEndSpec(s, i + 1);
    }
  }

  lemma {:induction false} HexEndAll(s: string, i: nat)
    requires i <= |s| && forall k :: i <= k < |s| ==> IsHexDigit(s[k])
    ensures HexEnd(s, i) == |s|
    decreases |s| - i
  {
    if i < |s| {
      HexEndAll(s, i + 1);
    }
  }

  /** Upper-case hex digits, zero-padded on the left: hex digits that read back as `n`. */
  lemma HexUpperValue(n: nat, w: nat)
    ensures forall i :: 0 <= i < |HexUpper(n, w)| ==> IsHexDigit(HexUpper(n, w)[i])
    ensures DigitsValue(HexUpper(n, w), 16) == n
  {
    var d := Digits(n, 16);
    var h := HexUpper(n, w);
    PadStartSpec(d, w, '0');
    var z := h[..|h| - |d|];
    assert h == z + d;
    HexDigitsAreHex(n);
    forall i | 0 <= i < |h| ensures IsHexDigit(h[i]) {
      if i >= |z| {
        assert h[i] == d[i - |z|];
      }
    }
    PaddedValue(d, w, 16);
    DigitsRoundTrip(n, 16);
  }

  /** `parseInt("0x" + h, 16)` for a non-empty string of hex digits is the value of the digits. */
  lemma ParseHexLiteral(h: string)
    requires h != [] && forall i :: 0 <= i < |h| ==> IsHexDigit(h[i])
    ensures ParseInt16("0x" + h) == Some(DigitsValue(h, 16))
  {
    var s := "0x" + h;
    assert SpaceEnd(s, 0) == 0;
    assert TrimStart(s) == s;
    assert s[2..] == h;
    HexEndAll(h, 0);
    assert h[..|h|] == h;
  }

  /** The hex code a script writes is read back by `parseInt(code, 16)` as the same position. */
  lemma HexCodeRoundTrip(n: nat)
    ensures ParseInt16(HexCode(n)) == Some(n)
  {
    HexUpperValue(n, 2);
    ParseHexLiteral(HexUpper(n, 2));
  }
}
