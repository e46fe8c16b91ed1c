/**
 Big-endian integers of every width.

 `Digits` and `Value` are the mathematics; `Buffer.Write` and `Cursor.Read` are the
 program's shift-and-mask loops, proved to compute them for every width `n`.
 `v >> 8*k` is `v / Pow256(k)`, `& 0xFF` is `% 0x100`, and `(v << 8) | b` is
 `v * 0x100 + b`, truncated to the width of the integer type.
 */
module BigEndian {
  import opened Protocol

  function Pow256(n: nat): (p: int)
    ensures 1 <= p
  {
    if n == 0 then 1 else 0x100 * Pow256(n - 1)
  }

  /** The `n` least significant base-256 digits of `v`, most significant first. */
  function Digits(v: nat, n: nat): (bs: seq<byte>)
    ensures |bs| == n
  {
    if n == 0 then [] else Digits(v / 0x100, n - 1) + [v % 0x100]
  }

  /** The number a big-endian byte string denotes. */
  function Value(bs: seq<byte>): nat {
    if |bs| == 0 then 0 else 0x100 * Value(bs[..|bs| - 1]) + bs[|bs| - 1]
  }

  lemma DivDiv(v: nat, a: int)
    requires 1 <= a
    ensures v / 0x100 / a == v / (0x100 * a)
  {
    var q, r := v / 0x100 / a, v / 0x100 % a;
    var low := v % 0x100;
    assert v == 0x100 * (a * q + r) + low;
    var rest := 0x100 * r + low;
    assert v == (0x100 * a) * q + rest;
    assert 0 <= rest < 0x100 * a;
    DivUnique(v, 0x100 * a, q, rest);
  }

  lemma DivUnique(v: nat, d: int, q: int, r: int)
    requires 1 <= d && 0 <= r < d && v == d * q + r
    ensures v / d == q
  {
    var gap := q - v / d;
    assert d * gap == v % d - r by {
      assert v == d * (v / d) + v % d;
    }
    if gap < 0 {
      MulAtLeast(d, -gap);
    } else if gap > 0 {
      MulAtLeast(d, gap);
    }
  }

  lemma MulAtLeast(d: int, k: int)
    requires 1 <= d && 1 <= k
    ensures d <= d * k && d * -k <= -d
  {
  }

  /** Each digit is what one shift and mask extracts. */
  lemma {:induction false} DigitAt(v: nat, n: nat, k: nat)
    requires k < n
    ensures Digits(v, n)[k] == v / Pow256(n - 1 - k) % 0x100
  {
    if k < n - 1 {
      DigitAt(v / 0x100, n - 1, k);
      DivDiv(v, Pow256(n - 2 - k));
    }
  }

  lemma {:induction false} ValueBound(bs: seq<byte>)
    ensures Value(bs) < Pow256(|bs|)
  {
    if |bs| > 0 {
      ValueBound(bs[..|bs| - 1]);
    }
  }

  /** Reading back what was written loses nothing that fits the width. */
  lemma {:induction false} ValueOfDigits(v: nat, n: nat)
    requires v < Pow256(n)
    ensures Value(Digits(v, n)) == v
  {
    if n > 0 {
      ValueOfDigits(v / 0x100, n - 1);
      assert Digits(v, n)[..n - 1] == Digits(v / 0x100, n - 1);
    }
  }

  /** Writing back what was read gives the same bytes. */
  lemma {:induction false} DigitsOfValue(bs: seq<byte>)
    ensures Digits(Value(bs), |bs|) == bs
  {
    if |bs| > 0 {
      var front := bs[..|bs| - 1];
      DigitsOfValue(front);
      assert Value(bs) / 0x100 == Value(front);
      assert bs == front + [bs[|bs| - 1]];
    }
  }

  lemma {:induction false} PowMonotone(m: nat, n: nat)
    requires m <= n
    ensures Pow256(m) <= Pow256(n)
    decreases n - m
  {
    if m < n {
      PowMonotone(m + 1, n);
    }
  }

  lemma PowWidths()
    ensures Pow256(1) == 0x100
    ensures Pow256(4) == TWO_TO_THE_32
    ensures Pow256(8) == TWO_TO_THE_64
  {
    assert Pow256(2) == 0x1_0000;
    assert Pow256(3) == 0x100_0000;
    assert Pow256(4) == 0x1_0000_0000;
    assert Pow256(5) == 0x100_0000_0000;
    assert Pow256(6) == 0x1_0000_0000_0000;
    assert Pow256(7) == 0x100_0000_0000_0000;
  }

  /** `static_cast` to an unsigned integer type of `n` bytes. */
  function Truncate(v: nat, n: nat): nat {
    v % Pow256(n)
  }

  lemma NoTruncation(v: nat, n: nat)
    requires v < Pow256(n)
    ensures Truncate(v, n) == v
  {
    DivUnique(v, Pow256(n), 0, v);
  }

  /** The growing output vector. */
  class Buffer {
    var bytes: seq<byte>

    constructor ()
      ensures bytes == []
    {
      bytes := [];
    }

    /** `write<T>` for an integer type of `n` bytes. */
    method Write(n: nat, value: nat)
      modifies this
      ensures bytes == old(bytes) + Digits(value, n)
    {
      var i := n;
      while i > 0
        invariant 0 <= i <= n
        invariant bytes == old(bytes) + Digits(value, n)[..n - i]
      {
        DigitAt(value, n, n - i);
        bytes := bytes + [value / Pow256(i - 1) % 0x100];
        i := i - 1;
      }
    }
  }

  /** An input vector with the read position that is passed along by reference. */
  class Cursor {
    const bytes: seq<byte>
    var offset: nat

    constructor (bytes: seq<byte>)
      ensures this.bytes == bytes && offset == 0
    {
      this.bytes := bytes;
      offset := 0;
    }

    /** `read<T>` for an integer type of `n` bytes; None is the underflow exception. */
    method Read(n: nat) returns (r: Option<nat>)
      requires offset <= |bytes|
      modifies this
      ensures r.None? <==> old(offset) + n > |bytes|
      ensures r.None? ==> offset == old(offset)
      ensures r.Some? ==> offset == old(offset) + n <= |bytes|
      ensures r.Some? ==> r.value == Value(bytes[old(offset)..offset]) < Pow256(n)
    {
      if offset + n > |bytes| {
        return None;
      }
      var start := offset;
      var value: nat := 0;
      var i := 0;
      while i < n
        invariant 0 <= i <= n
        invariant offset == start + i <= |bytes|
        invariant value == Value(bytes[start..offset]) < Pow256(i)
      {
        var chunk := bytes[start..offset + 1];
        assert chunk[..i] == bytes[start..offset];
        ValueBound(chunk);
        PowMonotone(i + 1, n);
        var shifted := value * 0x100 + bytes[offset];
        NoTruncation(shifted, n);
        value := Truncate(shifted, n);
        offset := offset + 1;
        i := i + 1;
      }
      return Some(value);
    }
  }
}
