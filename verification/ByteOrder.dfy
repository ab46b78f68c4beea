/** Bytes and little-endian numbers. */
module ByteOrder {
  import opened Common

  type Byte = x: int | 0 <= x < 256

  function Pow(b: nat, e: nat): nat
  {
    if e == 0 then 1 else b * Pow(b, e - 1)
  }

  function LittleEndian(n: nat, len: nat): (b: seq<Byte>)
    ensures |b| == len
  {
    if len == 0 then [] else [n % 256] + LittleEndian(n / 256, len - 1)
  }

  function LittleEndianValue(b: seq<Byte>): nat
  {
    if b == [] then 0 else b[0] + 256 * LittleEndianValue(b[1..])
  }

  lemma {:induction false} ValueOfLittleEndian(n: nat, len: nat)
    requires n < Pow(256, len)
    ensures LittleEndianValue(LittleEndian(n, len)) == n
  {
    if len == 0 {
    } else {
      ValueOfLittleEndian(n / 256, len - 1);
      assert LittleEndian(n, len)[1..] == LittleEndian(n / 256, len - 1);
    }
  }

  /** A byte string of known length is determined by its little-endian value. */
  lemma {:induction false} LittleEndianUnique(b: seq<Byte>)
    ensures LittleEndian(LittleEndianValue(b), |b|) == b
  {
    if b == [] {
    } else {
      LittleEndianUnique(b[1..]);
      var v := LittleEndianValue(b);
      assert v % 256 == b[0] && v / 256 == LittleEndianValue(b[1..]);
    }
  }

  lemma PowPositive(b: nat, e: nat)
    requires b > 0
    ensures Pow(b, e) > 0
  {
  }

  /** Dividing twice is dividing by the product. */
  lemma DivTwice(n: nat, p: nat)
    requires p > 0
    ensures n / 256 / p == n / (256 * p)
  {
    var q := n / 256 / p;
    var s := n / 256 % p;
    assert n / 256 == q * p + s;
    var r := 256 * s + n % 256;
    assert q * (256 * p) == 256 * (q * p);
    DivModUnique(n, 256 * p, q, r);
  }

  /** Byte i of a number carries its i-th digit in base 256, the least significant first. */
  lemma {:induction false} DigitAt(n: nat, len: nat, i: nat)
    requires i < len
    ensures Pow(256, i) > 0 && LittleEndian(n, len)[i] == n / Pow(256, i) % 256
  {
    PowPositive(256, i);
    if i == 0 {
    } else {
      DigitAt(n / 256, len - 1, i - 1);
      DivTwice(n, Pow(256, i - 1));
    }
  }
}
