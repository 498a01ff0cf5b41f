/**
 * Big-endian integer conversion as Python's `int.from_bytes` and
 * `int.to_bytes` perform it with `byteorder='big'`, unsigned or
 * two's-complement signed. These builtins are what `Param.parse` and
 * `Message.to_bytes` delegate to.
 */
module BigEndian {
  import opened Wrappers

  /** One element of a Python `bytes` or `bytearray`. */
  type Byte = b: int | 0 <= b < 256

  /** 256^n, the number of distinct values of n bytes. */
  function Pow256(n: nat): (r: nat)
    ensures r >= 1
  {
    if n == 0 then 1 else 256 * Pow256(n - 1)
  }

  /** 2^(8n-1), the smallest value whose top bit is set; 0 for zero bytes. */
  function Half(n: nat): nat
  {
    if n == 0 then 0 else 128 * Pow256(n - 1)
  }

  /**
   * `v` can be written in `n` bytes: unsigned values in [0, 256^n), signed
   * ones in [-2^(8n-1), 2^(8n-1)). With n == 0 only 0 fits, either way.
   * Outside this range `int.to_bytes` raises OverflowError (a negative
   * value with signed=False included).
   */
  predicate Fits(v: int, n: nat, signed: bool)
  {
    var h: int := Half(n);
    if signed then -h <= v < Pow256(n) - h else 0 <= v < Pow256(n)
  }

  /** The unsigned big-endian value of `s`: the most significant byte first. */
  function Unsigned(s: seq<Byte>): (r: nat)
    ensures r < Pow256(|s|)
  {
    if s == [] then 0
    else
      var p := Pow256(|s| - 1);
      MulLe(s[0], 255, p);
      s[0] * p + Unsigned(s[1..])
  }

  /** `int.from_bytes(s, 'big', signed=signed)`: the top bit of the first byte is the sign. */
  function FromBytes(s: seq<Byte>, signed: bool): (r: int)
    ensures Fits(r, |s|, signed)
  {
    if |s| == 0 then 0
    else
      SignBit(s);
      HalfOf(|s|);
      if signed && s[0] >= 128 then Unsigned(s) - Pow256(|s|) else Unsigned(s)
  }

  /** The `n` bytes of `u` in big-endian order. */
  function UnsignedBytes(u: nat, n: nat): (s: seq<Byte>)
    requires u < Pow256(n)
    ensures |s| == n && Unsigned(s) == u
  {
    if n == 0 then []
    else
      var p := Pow256(n - 1);
      DivBelow(u, p, 256);
      var q: Byte := u / p;
      var rest := UnsignedBytes(u % p, n - 1);
      UnsignedCons(q, rest);
      DivMod(u, p);
      [q] + rest
  }

  /**
   * `v.to_bytes(n, 'big', signed=signed)`: None where Python raises
   * OverflowError, otherwise the two's-complement (or plain) bytes.
   */
  function ToBytes(v: int, n: nat, signed: bool): (r: Option<seq<Byte>>)
    ensures r.Some? <==> Fits(v, n, signed)
    ensures r.Some? ==> |r.value| == n
  {
    if !Fits(v, n, signed) then None
    else Some(UnsignedBytes(if v < 0 then v + Pow256(n) else v, n))
  }

  // ---------------------------------------------------------------------
  // Properties

  /** Writing a value that fits and reading it back gives the value. */
  lemma FromToBytes(v: int, n: nat, signed: bool)
    requires Fits(v, n, signed)
    ensures FromBytes(ToBytes(v, n, signed).value, signed) == v
  {
    var s := ToBytes(v, n, signed).value;
    if n > 0 {
      HalfOf(n);
      SignBit(s);
    }
  }

  /** Reading bytes and writing the value back in as many bytes gives the bytes. */
  lemma ToFromBytes(s: seq<Byte>, signed: bool)
    ensures ToBytes(FromBytes(s, signed), |s|, signed) == Some(s)
  {
    UnsignedBytesOfUnsigned(s);
    if |s| > 0 {
      HalfOf(|s|);
      SignBit(s);
    }
  }

  /** The sign byte: the first byte is at least 0x80 exactly when the unsigned value reaches 2^(8n-1). */
  lemma SignBit(s: seq<Byte>)
    requires |s| > 0
    ensures s[0] >= 128 <==> Unsigned(s) >= Half(|s|)
  {
    var p := Pow256(|s| - 1);
    HalfOf(|s|);
    if s[0] >= 128 {
      MulLe(128, s[0], p);
    } else {
      MulLe(s[0], 127, p);
    }
  }

  /** Unsigned decoding is injective on fixed-width byte strings. */
  lemma {:induction false} UnsignedBytesOfUnsigned(s: seq<Byte>)
    ensures UnsignedBytes(Unsigned(s), |s|) == s
  {
    if s != [] {
      var p := Pow256(|s| - 1);
      DivModUnique(Unsigned(s), s[0], Unsigned(s[1..]), p);
      UnsignedBytesOfUnsigned(s[1..]);
    }
  }

  /** A value that fits in m bytes fits in any wider field. */
  lemma FitsWiden(v: int, m: nat, n: nat, signed: bool)
    requires m <= n && Fits(v, m, signed)
    ensures Fits(v, n, signed)
  {
    Pow256Monotone(m, n);
    if n > 0 { HalfOf(n); }
    if m > 0 { HalfOf(m); }
  }

  lemma {:induction false} Pow256Monotone(m: nat, n: nat)
    requires m <= n
    ensures Pow256(m) <= Pow256(n)
  {
    if m < n { Pow256Monotone(m, n - 1); }
  }

  lemma HalfOf(n: nat)
    requires n > 0
    ensures Pow256(n) == 2 * Half(n) && Half(n) == 128 * Pow256(n - 1)
  {
  }

  // ---------------------------------------------------------------------
  // Arithmetic helpers

  lemma UnsignedCons(b: Byte, rest: seq<Byte>)
    ensures Unsigned([b] + rest) == b * Pow256(|rest|) + Unsigned(rest)
  {
    assert ([b] + rest)[1..] == rest;
  }

  lemma DivMod(u: nat, p: nat)
    requires p > 0
    ensures u == (u / p) * p + u % p
  {
  }

  lemma MulLe(a: int, b: int, c: nat)
    requires a <= b
    ensures a * c <= b * c
  {
  }

  lemma DivBelow(u: nat, p: nat, c: nat)
    requires p > 0 && u < c * p
    ensures u / p < c
  {
    if u / p >= c {
      MulLe(c, u / p, p);
    }
  }

  lemma DivModUnique(a: int, q: int, r: int, d: int)
    requires d > 0 && 0 <= r < d && a == q * d + r
    ensures a / d == q && a % d == r
  {
    var q', r' := a / d, a % d;
    if q' < q {
      MulLe(q' + 1, q, d);
    } else if q' > q {
      MulLe(q + 1, q', d);
    }
  }
}
