/** Positional numbers in base 256, in both byte orders and of any length. */
module ByteOrder {
  import opened Bits
  import opened Sequences

  type Byte = x: int | 0 <= x < 256

  datatype Order = Big | Little

  function Pow256(n: nat): (r: nat)
    ensures r > 0
  {
    if n == 0 then 1 else 256 * Pow256(n - 1)
  }

  /** The number that a sequence of bytes stands for. */
  function Decode(order: Order, s: seq<Byte>): nat {
    if s == [] then 0
    else match order
      case Big => 256 * Decode(Big, s[..|s| - 1]) + s[|s| - 1]
      case Little => s[0] + 256 * Decode(Little, s[1..])
  }

  /** The n low bytes of a number; a negative one in two's complement. */
  function Encode(order: Order, n: nat, d: int): (s: seq<Byte>)
    ensures |s| == n
    decreases n, d
  {
    if n == 0 then []
    else match order
      case Big => Encode(Big, n - 1, d / 256) + [d % 256]
      case Little => [d % 256] + Encode(Little, n - 1, d / 256)
  }

  /** Encoding then decoding reduces a number modulo 2^(8n). */
  lemma {:induction false} DecodeEncode(order: Order, n: nat, d: int)
    ensures Decode(order, Encode(order, n, d)) == d % Pow256(n)
    decreases n
  {
    if n > 0 {
      DecodeEncode(order, n - 1, d / 256);
      var s, m := Encode(order, n, d), Pow256(n - 1);
      assert s[1..] == if order.Little? then Encode(order, n - 1, d / 256) else s[1..];
      assert s[..n - 1] == if order.Big? then Encode(order, n - 1, d / 256) else s[..n - 1];
      ModSplit(d, m);
    } else {
      assert d % 1 == 0;
    }
  }

  lemma ModSplit(d: int, m: nat)
    requires m > 0
    ensures d % (256 * m) == 256 * ((d / 256) % m) + d % 256
  {
    DivMod(d / 256, m);
    var q, r := (d / 256) / m, (d / 256) % m;
    assert d == 256 * (m * q + r) + d % 256;
    Regroup(256, m, q, r);
    QuotientUnique(d, 256 * m, q, 256 * r + d % 256);
  }

  lemma {:induction false} DecodeBound(order: Order, s: seq<Byte>)
    ensures Decode(order, s) < Pow256(|s|)
    decreases |s|
  {
    if s != [] {
      DecodeBound(order, s[1..]);
      DecodeBound(order, s[..|s| - 1]);
    }
  }

  lemma EncodeDigit(order: Order, n: nat, w: int, v: int, b: Byte)
    requires w / 256 == v && w % 256 == b
    ensures Encode(order, n + 1, w) == if order.Big? then Encode(Big, n, v) + [b] else [b] + Encode(Little, n, v)
  {
  }

  lemma LowDigit(w: int, v: int, b: Byte)
    requires w == 256 * v + b
    ensures w / 256 == v && w % 256 == b
  {
  }

  /** Decoding then encoding gives the same bytes back. */
  lemma {:induction false} EncodeDecode(order: Order, s: seq<Byte>)
    ensures Encode(order, |s|, Decode(order, s)) == s
    decreases |s|
  {
    if s != [] {
      match order
      case Big =>
        var rest, b := s[..|s| - 1], s[|s| - 1];
        EncodeDecode(Big, rest);
        LowDigit(Decode(Big, s), Decode(Big, rest), b);
        EncodeDigit(Big, |rest|, Decode(Big, s), Decode(Big, rest), b);
        assert s == rest + [b];
      case Little =>
        EncodeDecode(Little, s[1..]);
        LowDigit(Decode(Little, s), Decode(Little, s[1..]), s[0]);
        EncodeDigit(Little, |s| - 1, Decode(Little, s), Decode(Little, s[1..]), s[0]);
        assert s == [s[0]] + s[1..];
    }
  }

  /** The two orders are each other's reversal. */
  lemma {:induction false} DecodeReverse(s: seq<Byte>)
    ensures Decode(Big, s) == Decode(Little, Reverse(s))
    decreases |s|
  {
    if s != [] {
      DecodeReverse(s[..|s| - 1]);
      assert Reverse(s)[1..] == Reverse(s[..|s| - 1]);
    }
  }

  lemma {:induction false} EncodeReverse(n: nat, d: int)
    ensures Encode(Big, n, d) == Reverse(Encode(Little, n, d))
    decreases n
  {
    if n > 0 {
      EncodeReverse(n - 1, d / 256);
      assert Encode(Little, n, d)[1..] == Encode(Little, n - 1, d / 256);
    }
  }

  /** Reading in one order what was written in the other is reading the bytes
      reversed, and writing and reading so twice gives the number back. */
  lemma CrossRead(n: nat, d: int)
    ensures Decode(Little, Encode(Big, n, d)) == Decode(Big, Reverse(Encode(Big, n, d)))
    ensures Decode(Little, Encode(Big, n, Decode(Little, Encode(Big, n, d)))) == d % Pow256(n)
  {
    var s := Encode(Big, n, d);
    ReverseTwice(s);
    DecodeReverse(Reverse(s));
    var v := Decode(Little, s);
    EncodeDecode(Little, s);
    EncodeReverse(n, v);
    DecodeReverse(s);
    DecodeEncode(Big, n, d);
  }

  /** The byte i places up from the low end. */
  function Drop(d: int, i: nat): int {
    if i == 0 then d else Drop(d, i - 1) / 256
  }

  lemma ShrByte(d: int, k: nat)
    ensures Shr(d, k + 8) == Shr(d, k) / 256
  {
    Pow2Step(k);
    DivMul(d, Pow2(k), 256);
  }

  lemma {:induction false} ShrIsDrop(d: int, i: nat)
    ensures Shr(d, 8 * i) == Drop(d, i)
    decreases i
  {
    if i > 0 {
      ShrIsDrop(d, i - 1);
      ShrByte(d, 8 * (i - 1));
    }
  }

  lemma {:induction false} DropShift(d: int, i: nat)
    ensures Drop(d / 256, i) == Drop(d, i + 1)
    decreases i
  {
    if i > 0 {
      DropShift(d, i - 1);
    }
  }

  /** The stores of the writer macros, place by place. */
  lemma {:induction false} EncodeAt(n: nat, d: int, i: nat)
    requires i < n
    ensures Encode(Little, n, d)[i] == Shr(d, 8 * i) % 256
    ensures Encode(Big, n, d)[n - 1 - i] == Shr(d, 8 * i) % 256
    decreases n
  {
    ShrIsDrop(d, i);
    EncodeReverse(n, d);
    if i > 0 {
      EncodeAt(n - 1, d / 256, i - 1);
      ShrIsDrop(d / 256, i - 1);
      DropShift(d, i - 1);
    }
  }

  /** One step of a reader macro: or-ing the next byte in below. */
  lemma OrByte(hi: nat, b: Byte, k: nat)
    ensures Or(Shl(hi, k + 8), Shl(b, k)) == Shl(256 * hi + b, k)
  {
    var m := Pow2(k);
    Pow2Step(k);
    MulOrder(m, b, 256);
    MulNonneg(m, b);
    OrDisjoint(hi, b * m, k + 8);
    Gather(hi, b, m);
  }

  lemma Gather(hi: nat, b: nat, m: nat)
    ensures hi * (256 * m) + b * m == (256 * hi + b) * m
  {
  }
}
