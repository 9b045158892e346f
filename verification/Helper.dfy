/** Little-endian integer fields: int_to_vec and int_from_vec. */
module Helper {
  import opened Arithmetic
  import opened BasicDetail
  import opened BinCodec

  function Pow256(n: nat): (p: nat)
    ensures p > 0 && (n > 0 ==> p >= 256)
  {
    if n == 0 then 1 else 256 * Pow256(n - 1)
  }

  function Pow2(n: nat): (p: nat)
    ensures p > 0
  {
    if n == 0 then 1 else 2 * Pow2(n - 1)
  }

  /** Bitwise or of two non-negative integers. */
  function Or(a: nat, b: nat): nat
    decreases a + b
  {
    if a == 0 && b == 0 then 0
    else (if a % 2 == 1 || b % 2 == 1 then 1 else 0) + 2 * Or(a / 2, b / 2)
  }

  /** The low `width` bytes of `value`, lowest first. */
  function LittleEndian(value: nat, width: nat): (s: seq<byte>)
    ensures |s| == width
  {
    if width == 0 then [] else [(value % 256)] + LittleEndian(value / 256, width - 1)
  }

  /** The number that a byte string spells, lowest byte first. */
  function FromLittleEndian(s: seq<byte>): nat {
    if s == [] then 0 else s[0] + 256 * FromLittleEndian(s[1..])
  }

  /** int_to_vec: the value shifted right byte by byte. */
  method IntToVec(data: ByteString, value: nat, valueSize: nat)
    modifies data
    ensures data.text == old(data.text) + LittleEndian(value, valueSize)
  {
    var i, left := 0, valueSize;
    while left > 0
      invariant i + left == valueSize
      invariant data.text == old(data.text) + LittleEndian(value, i)
    {
      data.text := data.text + [(value / Pow256(i) % 256)];
      LittleEndianSnoc(value, i);
      i, left := i + 1, left - 1;
    }
  }

  /** int_from_vec: ors each byte in at its place. */
  method IntFromVec(s: seq<byte>, first: nat, last: nat) returns (v: nat)
    requires first <= last <= |s|
    ensures v == FromLittleEndian(s[first..last])
  {
    hide Or, Pow2, FromLittleEndian;
    v := 0;
    var it, i := first, 0;
    EmptyField(s[first..first]);
    while it != last
      invariant first <= it <= last && i == it - first
      invariant v == FromLittleEndian(s[first..it]) < Pow256(i)
    {
      FromLittleEndianSnoc(s[first..it], s[it]);
      assert s[first..it] + [s[it]] == s[first..it + 1];
      Pow256IsPow2(i);
      OrOfDisjoint(v, s[it], 8 * i);
      v := Or(v, s[it] * Pow2(8 * i));
      it, i := it + 1, i + 1;
    }
  }

  lemma EmptyField(s: seq<byte>)
    requires s == []
    ensures FromLittleEndian(s) == 0 < Pow256(0)
  {
  }

  lemma {:induction false} Pow256IsPow2(n: nat)
    ensures Pow256(n) == Pow2(8 * n)
  {
    if n > 0 {
      Pow256IsPow2(n - 1);
      var k := 8 * (n - 1);
      assert Pow2(k + 2) == 2 * Pow2(k + 1);
      assert Pow2(k + 4) == 2 * Pow2(k + 3);
      assert Pow2(k + 6) == 2 * Pow2(k + 5);
      assert Pow2(k + 8) == 2 * Pow2(k + 7);
    }
  }

  /** Or-ing a value in above the bits already used adds it. */
  lemma {:induction false} OrOfDisjoint(a: nat, b: nat, bits: nat)
    requires a < Pow2(bits)
    ensures Or(a, b * Pow2(bits)) == a + b * Pow2(bits)
    decreases bits
  {
    if bits == 0 {
      OrZero(b);
      assert b * Pow2(0) == b;
    } else {
      var half := b * Pow2(bits - 1);
      assert b * Pow2(bits) == 2 * half by {
        assert Pow2(bits) == 2 * Pow2(bits - 1);
      }
      OrOfDisjoint(a / 2, b, bits - 1);
      assert (2 * half) / 2 == half && (2 * half) % 2 == 0;
    }
  }

  lemma {:induction false} OrZero(b: nat)
    ensures Or(0, b) == b
  {
    if b > 0 {
      OrZero(b / 2);
    }
  }

  lemma {:induction false} LittleEndianSnoc(value: nat, n: nat)
    ensures LittleEndian(value, n + 1) == LittleEndian(value, n) + [(value / Pow256(n) % 256)]
    decreases n
  {
    if n > 0 {
      LittleEndianSnoc(value / 256, n - 1);
      DivDiv(value, Pow256(n - 1));
    } else {
      assert value / Pow256(0) == value;
      assert LittleEndian(value / 256, 0) == [];
    }
  }

  /** The k-th byte of a field. */
  lemma {:induction false} LittleEndianAt(value: nat, width: nat, k: nat)
    requires k < width
    ensures LittleEndian(value, width)[k] == value / Pow256(k) % 256
    decreases width
  {
    LittleEndianSnoc(value, width - 1);
    if k < width - 1 {
      LittleEndianAt(value, width - 1, k);
    }
  }

  /** Writing back what was read, whatever bytes the field holds. */
  lemma {:induction false} FieldRoundTrip(s: seq<byte>)
    ensures LittleEndian(FromLittleEndian(s), |s|) == s
  {
    if s != [] {
      FieldRoundTrip(s[1..]);
      assert FromLittleEndian(s) % 256 == s[0] && FromLittleEndian(s) / 256 == FromLittleEndian(s[1..]);
    }
  }

  lemma DivDiv(value: nat, d: nat)
    requires d > 0
    ensures value / 256 / d == value / (256 * d)
  {
    var q, r := value / 256, value % 256;
    var q2, r2 := q / d, q % d;
    assert value == 256 * (q2 * d + r2) + r;
    assert 256 * (q2 * d + r2) + r == (256 * d) * q2 + (256 * r2 + r);
    assert 0 <= 256 * r2 + r < 256 * d;
    DivModUnique(value, 256 * d, q2, 256 * r2 + r);
  }

  lemma {:induction false} FromLittleEndianSnoc(s: seq<byte>, b: byte)
    ensures FromLittleEndian(s) < Pow256(|s|)
    ensures FromLittleEndian(s + [b]) == FromLittleEndian(s) + b * Pow256(|s|)
    ensures FromLittleEndian(s + [b]) < Pow256(|s| + 1)
    decreases |s|
  {
    if s == [] {
      assert (s + [b])[1..] == [];
      assert Pow256(1) == 256;
    } else {
      FromLittleEndianSnoc(s[1..], b);
      assert (s + [b])[1..] == s[1..] + [b];
      var m := b * Pow256(|s| - 1);
      assert b * Pow256(|s|) == 256 * m by {
        assert Pow256(|s|) == 256 * Pow256(|s| - 1);
      }
    }
  }

  /** Reading back what was written, for every value the field can hold. */
  lemma {:induction false} IntRoundTrip(value: nat, width: nat)
    requires value < Pow256(width)
    ensures FromLittleEndian(LittleEndian(value, width)) == value
  {
    if width > 0 {
      IntRoundTrip(value / 256, width - 1);
      assert LittleEndian(value, width)[1..] == LittleEndian(value / 256, width - 1);
    }
  }
}
