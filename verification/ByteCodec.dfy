/**
 The byte readers and writers: `MPP_RB*`, `MPP_RL*` as expressions over bytes,
 `MPP_WB*`, `MPP_WL*` as the stores they perform. Each is an instance of the
 n-byte codec, and so are packets of fields of mixed widths and orders.
 */
module ByteCodec {
  import opened Bits
  import opened ByteOrder
  import opened Sequences

  // ----- Readers

  function RB16(b: seq<Byte>, o: nat): nat
    requires o + 2 <= |b|
  {
    Or(Shl(b[o], 8), b[o + 1])
  }

  function RL16(b: seq<Byte>, o: nat): nat
    requires o + 2 <= |b|
  {
    Or(Shl(b[o + 1], 8), b[o])
  }

  function RB24(b: seq<Byte>, o: nat): nat
    requires o + 3 <= |b|
  {
    Or(Or(Shl(b[o], 16), Shl(b[o + 1], 8)), b[o + 2])
  }

  function RL24(b: seq<Byte>, o: nat): nat
    requires o + 3 <= |b|
  {
    Or(Or(Shl(b[o + 2], 16), Shl(b[o + 1], 8)), b[o])
  }

  /** The 32-bit pattern; see AsInt32 for its value in the macro's own type. */
  function RB32(b: seq<Byte>, o: nat): nat
    requires o + 4 <= |b|
  {
    Or(Or(Or(Shl(b[o], 24), Shl(b[o + 1], 16)), Shl(b[o + 2], 8)), b[o + 3])
  }

  function RL32(b: seq<Byte>, o: nat): nat
    requires o + 4 <= |b|
  {
    Or(Or(Or(Shl(b[o + 3], 24), Shl(b[o + 2], 16)), Shl(b[o + 1], 8)), b[o])
  }

  function RB64(b: seq<Byte>, o: nat): nat
    requires o + 8 <= |b|
  {
    Or(Or(Or(Or(Or(Or(Or(
      Shl(b[o], 56),
      Shl(b[o + 1], 48)),
      Shl(b[o + 2], 40)),
      Shl(b[o + 3], 32)),
      Shl(b[o + 4], 24)),
      Shl(b[o + 5], 16)),
      Shl(b[o + 6], 8)),
      b[o + 7])
  }

  function RL64(b: seq<Byte>, o: nat): nat
    requires o + 8 <= |b|
  {
    Or(Or(Or(Or(Or(Or(Or(
      Shl(b[o + 7], 56),
      Shl(b[o + 6], 48)),
      Shl(b[o + 5], 40)),
      Shl(b[o + 4], 32)),
      Shl(b[o + 3], 24)),
      Shl(b[o + 2], 16)),
      Shl(b[o + 1], 8)),
      b[o])
  }

  // ----- Each reader decodes the bytes it looks at

  /** Or-ing the next byte in below those read so far. */
  lemma OrNext(s: seq<Byte>, j: nat, k: nat)
    requires j < |s|
    ensures Or(Shl(Decode(Big, s[..j]), k + 8), Shl(s[j], k)) == Shl(Decode(Big, s[..j + 1]), k)
  {
    OrByte(Decode(Big, s[..j]), s[j], k);
    assert s[..j + 1][..j] == s[..j];
  }

  /** The same, on the value read so far. */
  lemma OrOnto(acc: nat, s: seq<Byte>, j: nat, k: nat) returns (r: nat)
    requires j < |s| && acc == Shl(Decode(Big, s[..j]), k + 8)
    ensures r == Or(acc, Shl(s[j], k)) && r == Shl(Decode(Big, s[..j + 1]), k)
  {
    OrNext(s, j, k);
    r := Or(acc, Shl(s[j], k));
  }

  lemma FirstByte(s: seq<Byte>)
    requires s != []
    ensures Decode(Big, s[..1]) == s[0] && s[..|s|] == s
    ensures Shl(s[|s| - 1], 0) == s[|s| - 1] && Shl(Decode(Big, s), 0) == Decode(Big, s)
  {
    assert s[..1][..0] == [];
  }

  lemma Or2(s: seq<Byte>)
    requires |s| == 2
    ensures Or(Shl(s[0], 8), s[1]) == Decode(Big, s)
  {
    FirstByte(s);
    OrNext(s, 1, 0);
  }

  lemma Or3(s: seq<Byte>)
    requires |s| == 3
    ensures Or(Or(Shl(s[0], 16), Shl(s[1], 8)), s[2]) == Decode(Big, s)
  {
    FirstByte(s);
    OrNext(s, 1, 8);
    OrNext(s, 2, 0);
  }

  lemma Or4(s: seq<Byte>)
    requires |s| == 4
    ensures Or(Or(Or(Shl(s[0], 24), Shl(s[1], 16)), Shl(s[2], 8)), s[3]) == Decode(Big, s)
  {
    FirstByte(s);
    var r := OrOnto(Shl(s[0], 24), s, 1, 16);
    r := OrOnto(r, s, 2, 8);
    r := OrOnto(r, s, 3, 0);
  }

  lemma Or8(s: seq<Byte>)
    requires |s| == 8
    ensures Or(Or(Or(Or(Or(Or(Or(
              Shl(s[0], 56), Shl(s[1], 48)), Shl(s[2], 40)), Shl(s[3], 32)),
              Shl(s[4], 24)), Shl(s[5], 16)), Shl(s[6], 8)), s[7]) == Decode(Big, s)
  {
    HighHalf(s);
    LowHalf(s, Or(Or(Or(Shl(s[0], 56), Shl(s[1], 48)), Shl(s[2], 40)), Shl(s[3], 32)));
  }

  lemma HighHalf(s: seq<Byte>)
    requires |s| == 8
    ensures Or(Or(Or(Shl(s[0], 56), Shl(s[1], 48)), Shl(s[2], 40)), Shl(s[3], 32)) == Shl(Decode(Big, s[..4]), 32)
  {
    FirstByte(s);
    OrNext(s, 1, 48);
    OrNext(s, 2, 40);
    OrNext(s, 3, 32);
  }

  lemma LowHalf(s: seq<Byte>, high: nat)
    requires |s| == 8 && high == Shl(Decode(Big, s[..4]), 32)
    ensures Or(Or(Or(Or(high, Shl(s[4], 24)), Shl(s[5], 16)), Shl(s[6], 8)), s[7]) == Decode(Big, s)
  {
    FirstByte(s);
    var r := OrOnto(high, s, 4, 24);
    r := OrOnto(r, s, 5, 16);
    r := OrOnto(r, s, 6, 8);
    r := OrOnto(r, s, 7, 0);
  }

  /** The widths the macros come in. */
  predicate IsWidth(n: nat) {
    n == 2 || n == 3 || n == 4 || n == 8
  }

  /** The reader macro for a width and an order. */
  function Read(order: Order, n: nat, b: seq<Byte>, o: nat): nat
    requires IsWidth(n) && o + n <= |b|
  {
    match order
    case Big => if n == 2 then RB16(b, o) else if n == 3 then RB24(b, o) else if n == 4 then RB32(b, o) else RB64(b, o)
    case Little =>
      if n == 2 then RL16(b, o) else if n == 3 then RL24(b, o) else if n == 4 then RL32(b, o) else RL64(b, o)
  }

  lemma BigReaders(n: nat, b: seq<Byte>, o: nat)
    requires IsWidth(n) && o + n <= |b|
    ensures Read(Big, n, b, o) == Decode(Big, b[o..o + n])
  {
    var s := b[o..o + n];
    if n == 2 { Or2(s); } else if n == 3 { Or3(s); } else if n == 4 { Or4(s); } else { Or8(s); }
  }

  lemma LittleReaders(n: nat, b: seq<Byte>, o: nat)
    requires IsWidth(n) && o + n <= |b|
    ensures Read(Little, n, b, o) == Decode(Big, Reverse(b[o..o + n]))
  {
    var s := Reverse(b[o..o + n]);
    assert forall j :: 0 <= j < n ==> s[j] == b[o + n - 1 - j];
    if n == 2 { Or2(s); } else if n == 3 { Or3(s); } else if n == 4 { Or4(s); } else { Or8(s); }
  }

  /** All eight readers, at any offset of any buffer, are the n-byte decoder. */
  lemma ReadersDecode(order: Order, n: nat, b: seq<Byte>, o: nat)
    requires IsWidth(n) && o + n <= |b|
    ensures Read(order, n, b, o) == Decode(order, b[o..o + n])
  {
    if order.Big? {
      BigReaders(n, b, o);
    } else {
      LittleReaders(n, b, o);
      DecodeReverse(Reverse(b[o..o + n]));
      ReverseTwice(b[o..o + n]);
    }
  }

  // ----- The value of the 32-bit readers in a type of 32 bits with sign

  function AsInt32(pattern: nat): int
    requires pattern < 0x1_0000_0000
  {
    if pattern < 0x8000_0000 then pattern else pattern - 0x1_0000_0000
  }

  /** Without the cast to 64 bits, the value is the number encoded if and only if
      the most significant byte is below 0x80; otherwise it is that number less 2^32. */
  lemma Signed32(order: Order, b: seq<Byte>, o: nat)
    requires o + 4 <= |b|
    ensures var v, top := Read(order, 4, b, o), if order.Big? then b[o] else b[o + 3];
            && v < 0x1_0000_0000
            && (AsInt32(v) == Decode(order, b[o..o + 4]) <==> top < 0x80)
            && (top >= 0x80 ==> AsInt32(v) == Decode(order, b[o..o + 4]) - 0x1_0000_0000)
  {
    ReadersDecode(order, 4, b, o);
    var w := b[o..o + 4];
    DecodeBound(order, w);
    assert Pow256(4) == 0x1_0000_0000;
    if order.Big? {
      TopByte(w);
    } else {
      DecodeReverse(Reverse(w));
      ReverseTwice(w);
      TopByte(Reverse(w));
    }
  }

  lemma TopByte(s: seq<Byte>)
    requires |s| == 4
    ensures s[0] < 0x80 <==> Decode(Big, s) < 0x8000_0000
  {
    FirstByte(s);
    assert s[..2][..1] == s[..1] && s[..3][..2] == s[..2];
    var top: nat := s[0];
    assert Decode(Big, s[..2]) == 256 * top + s[1];
    assert Decode(Big, s[..3]) == 256 * Decode(Big, s[..2]) + s[2];
  }

  // ----- Writers

  /** A buffer with the bytes from place o on replaced by e. */
  function Put(b: seq<Byte>, o: nat, e: seq<Byte>): (r: seq<Byte>)
    requires o + |e| <= |b|
    ensures |r| == |b|
  {
    b[..o] + e + b[o + |e|..]
  }

  /** What the assignment of an integer to a byte stores. */
  function ToByte(d: int): Byte {
    d % 256
  }

  lemma EncodePlaces(n: nat, d: int)
    ensures Shr(d, 0) == d
    ensures forall i :: 0 <= i < n ==> Encode(Little, n, d)[i] == ToByte(Shr(d, 8 * i))
    ensures forall i :: 0 <= i < n ==> Encode(Big, n, d)[i] == ToByte(Shr(d, 8 * (n - 1 - i)))
  {
    forall i | 0 <= i < n
      ensures Encode(Little, n, d)[i] == ToByte(Shr(d, 8 * i))
      ensures Encode(Big, n, d)[i] == ToByte(Shr(d, 8 * (n - 1 - i)))
    {
      EncodeAt(n, d, i);
      EncodeAt(n, d, n - 1 - i);
    }
  }

  /** The values the writers store, least significant first. */
  function LowBytes(n: nat, d: int): (v: seq<Byte>)
    ensures |v| == n
  {
    seq(n, i requires 0 <= i < n => ToByte(Shr(d, 8 * i)))
  }

  /** A buffer that differs from the old one in the n places from o on, where it
      holds the bytes of d most significant first. */
  lemma StoredBig(b: seq<Byte>, r: seq<Byte>, o: nat, n: nat, d: int)
    requires |r| == |b| && o + n <= |b|
    requires forall i :: 0 <= i < |b| && !(o <= i < o + n) ==> r[i] == b[i]
    requires forall i :: 0 <= i < n ==> r[o + n - 1 - i] == LowBytes(n, d)[i]
    ensures r == Put(b, o, Encode(Big, n, d))
  {
    EncodePlaces(n, d);
    forall i | o <= i < o + n ensures r[i] == Encode(Big, n, d)[i - o] {
      assert r[o + n - 1 - (o + n - 1 - i)] == LowBytes(n, d)[o + n - 1 - i];
    }
  }

  /** The same with the least significant byte first. */
  lemma StoredLittle(b: seq<Byte>, r: seq<Byte>, o: nat, n: nat, d: int)
    requires |r| == |b| && o + n <= |b|
    requires forall i :: 0 <= i < |b| && !(o <= i < o + n) ==> r[i] == b[i]
    requires forall i :: 0 <= i < n ==> r[o + i] == LowBytes(n, d)[i]
    ensures r == Put(b, o, Encode(Little, n, d))
  {
    EncodePlaces(n, d);
    forall i | o <= i < o + n ensures r[i] == Encode(Little, n, d)[i - o] {
      assert r[o + (i - o)] == LowBytes(n, d)[i - o];
    }
  }

  lemma EightBig(r: seq<Byte>, o: nat, v: seq<Byte>)
    requires |v| == 8 && o + 8 <= |r|
    requires r[o + 7] == v[0] && r[o + 6] == v[1] && r[o + 5] == v[2] && r[o + 4] == v[3]
    requires r[o + 3] == v[4] && r[o + 2] == v[5] && r[o + 1] == v[6] && r[o] == v[7]
    ensures forall i :: 0 <= i < 8 ==> r[o + 8 - 1 - i] == v[i]
  {
  }

  lemma EightLittle(r: seq<Byte>, o: nat, v: seq<Byte>)
    requires |v| == 8 && o + 8 <= |r|
    requires r[o] == v[0] && r[o + 1] == v[1] && r[o + 2] == v[2] && r[o + 3] == v[3]
    requires r[o + 4] == v[4] && r[o + 5] == v[5] && r[o + 6] == v[6] && r[o + 7] == v[7]
    ensures forall i :: 0 <= i < 8 ==> r[o + i] == v[i]
  {
  }

  method WB16(p: array<Byte>, o: nat, d: int)
    requires o + 2 <= p.Length
    modifies p
    ensures p[..] == Put(old(p[..]), o, Encode(Big, 2, d))
  {
    p[o + 1] := ToByte(d);
    p[o] := ToByte(Shr(d, 8));
    StoredBig(old(p[..]), p[..], o, 2, d);
  }

  method WL16(p: array<Byte>, o: nat, d: int)
    requires o + 2 <= p.Length
    modifies p
    ensures p[..] == Put(old(p[..]), o, Encode(Little, 2, d))
  {
    p[o] := ToByte(d);
    p[o + 1] := ToByte(Shr(d, 8));
    StoredLittle(old(p[..]), p[..], o, 2, d);
  }

  method WB24(p: array<Byte>, o: nat, d: int)
    requires o + 3 <= p.Length
    modifies p
    ensures p[..] == Put(old(p[..]), o, Encode(Big, 3, d))
  {
    p[o + 2] := ToByte(d);
    p[o + 1] := ToByte(Shr(d, 8));
    p[o] := ToByte(Shr(d, 16));
    StoredBig(old(p[..]), p[..], o, 3, d);
  }

  method WL24(p: array<Byte>, o: nat, d: int)
    requires o + 3 <= p.Length
    modifies p
    ensures p[..] == Put(old(p[..]), o, Encode(Little, 3, d))
  {
    p[o] := ToByte(d);
    p[o + 1] := ToByte(Shr(d, 8));
    p[o + 2] := ToByte(Shr(d, 16));
    StoredLittle(old(p[..]), p[..], o, 3, d);
  }

  method WB32(p: array<Byte>, o: nat, d: int)
    requires o + 4 <= p.Length
    modifies p
    ensures p[..] == Put(old(p[..]), o, Encode(Big, 4, d))
  {
    p[o + 3] := ToByte(d);
    p[o + 2] := ToByte(Shr(d, 8));
    p[o + 1] := ToByte(Shr(d, 16));
    p[o] := ToByte(Shr(d, 24));
    StoredBig(old(p[..]), p[..], o, 4, d);
  }

  method WL32(p: array<Byte>, o: nat, d: int)
    requires o + 4 <= p.Length
    modifies p
    ensures p[..] == Put(old(p[..]), o, Encode(Little, 4, d))
  {
    p[o] := ToByte(d);
    p[o + 1] := ToByte(Shr(d, 8));
    p[o + 2] := ToByte(Shr(d, 16));
    p[o + 3] := ToByte(Shr(d, 24));
    StoredLittle(old(p[..]), p[..], o, 4, d);
  }

  method WB64(p: array<Byte>, o: nat, d: int)
    requires o + 8 <= p.Length
    modifies p
    ensures p[..] == Put(old(p[..]), o, Encode(Big, 8, d))
  {
    ghost var b, v := p[..], LowBytes(8, d);
    p[o + 7] := ToByte(d);
    p[o + 6] := ToByte(Shr(d, 8));
    p[o + 5] := ToByte(Shr(d, 16));
    p[o + 4] := ToByte(Shr(d, 24));
    p[o + 3] := ToByte(Shr(d, 32));
    p[o + 2] := ToByte(Shr(d, 40));
    p[o + 1] := ToByte(Shr(d, 48));
    p[o] := ToByte(Shr(d, 56));
    assert p[o] == v[7] && p[o + 1] == v[6] && p[o + 2] == v[5] && p[o + 3] == v[4];
    assert p[o + 4] == v[3] && p[o + 5] == v[2] && p[o + 6] == v[1] && p[o + 7] == v[0];
    EightBig(p[..], o, v);
    StoredBig(b, p[..], o, 8, d);
  }

  method WL64(p: array<Byte>, o: nat, d: int)
    requires o + 8 <= p.Length
    modifies p
    ensures p[..] == Put(old(p[..]), o, Encode(Little, 8, d))
  {
    ghost var b, v := p[..], LowBytes(8, d);
    p[o] := ToByte(d);
    p[o + 1] := ToByte(Shr(d, 8));
    p[o + 2] := ToByte(Shr(d, 16));
    p[o + 3] := ToByte(Shr(d, 24));
    p[o + 4] := ToByte(Shr(d, 32));
    p[o + 5] := ToByte(Shr(d, 40));
    p[o + 6] := ToByte(Shr(d, 48));
    p[o + 7] := ToByte(Shr(d, 56));
    EightLittle(p[..], o, v);
    StoredLittle(b, p[..], o, 8, d);
  }

  /** The writer macro for a width and an order. */
  method Write(order: Order, n: nat, p: array<Byte>, o: nat, d: int)
    requires IsWidth(n) && o + n <= p.Length
    modifies p
    ensures p[..] == Put(old(p[..]), o, Encode(order, n, d))
  {
    match order
    case Big =>
      if n == 2 {
        WB16(p, o, d);
      } else if n == 3 {
        WB24(p, o, d);
      } else if n == 4 {
        WB32(p, o, d);
      } else {
        WB64(p, o, d);
      }
    case Little =>
      if n == 2 {
        WL16(p, o, d);
      } else if n == 3 {
        WL24(p, o, d);
      } else if n == 4 {
        WL32(p, o, d);
      } else {
        WL64(p, o, d);
      }
  }

  // ----- Round trips at an offset of a buffer

  /** Reading back what was written yields it modulo 2^(8n); writing back what was
      read changes nothing; reading elsewhere is not affected. */
  lemma RoundTrip(order: Order, n: nat, b: seq<Byte>, o: nat, d: int)
    requires IsWidth(n) && o + n <= |b|
    ensures Read(order, n, Put(b, o, Encode(order, n, d)), o) == d % Pow256(n)
    ensures Put(b, o, Encode(order, n, Read(order, n, b, o))) == b
  {
    var e := Encode(order, n, d);
    ReadersDecode(order, n, Put(b, o, e), o);
    PutHere(b, o, e);
    DecodeEncode(order, n, d);
    ReadersDecode(order, n, b, o);
    EncodeDecode(order, b[o..o + n]);
    PutSame(b, o, n);
  }

  lemma PutHere(b: seq<Byte>, o: nat, e: seq<Byte>)
    requires o + |e| <= |b|
    ensures Put(b, o, e)[o..o + |e|] == e
  {
  }

  lemma PutSame(b: seq<Byte>, o: nat, n: nat)
    requires o + n <= |b|
    ensures Put(b, o, b[o..o + n]) == b
  {
    assert b == b[..o] + b[o..o + n] + b[o + n..];
  }

  lemma ReadUnaffected(order: Order, n: nat, b: seq<Byte>, o: nat, e: seq<Byte>, at: nat)
    requires IsWidth(n) && o + n <= |b| && at + |e| <= |b|
    requires o + n <= at || at + |e| <= o
    ensures Read(order, n, Put(b, at, e), o) == Read(order, n, b, o)
  {
    ReadersDecode(order, n, b, o);
    ReadersDecode(order, n, Put(b, at, e), o);
    PutElsewhere(b, at, e, o, n);
  }

  lemma PutElsewhere(b: seq<Byte>, at: nat, e: seq<Byte>, o: nat, n: nat)
    requires o + n <= |b| && at + |e| <= |b|
    requires o + n <= at || at + |e| <= o
    ensures Put(b, at, e)[o..o + n] == b[o..o + n]
  {
    var r := Put(b, at, e);
    forall i | o <= i < o + n ensures r[i] == b[i] {
    }
  }

  // ----- Packets of fields

  datatype Field = Field(order: Order, width: nat, value: int)

  ghost predicate FieldsOk(fs: seq<Field>) {
    forall i :: 0 <= i < |fs| ==> IsWidth(fs[i].width)
  }

  function Size(fs: seq<Field>): nat {
    if fs == [] then 0 else fs[0].width + Size(fs[1..])
  }

  /** The buffer after writing the fields back to back from place o. */
  function StoreAll(b: seq<Byte>, o: nat, fs: seq<Field>): (r: seq<Byte>)
    requires o + Size(fs) <= |b|
    ensures |r| == |b|
    decreases fs
  {
    if fs == [] then b
    else
      var f := fs[0];
      StoreAll(Put(b, o, Encode(f.order, f.width, f.value)), o + f.width, fs[1..])
  }

  /** The same fields with the values read back to back from place o. */
  function LoadAll(b: seq<Byte>, o: nat, fs: seq<Field>): seq<Field>
    requires FieldsOk(fs) && o + Size(fs) <= |b|
    decreases fs
  {
    if fs == [] then []
    else
      var f := fs[0];
      [f.(value := Read(f.order, f.width, b, o))] + LoadAll(b, o + f.width, fs[1..])
  }

  function Reduced(fs: seq<Field>): (r: seq<Field>)
    ensures |r| == |fs|
  {
    if fs == [] then [] else [fs[0].(value := fs[0].value % Pow256(fs[0].width))] + Reduced(fs[1..])
  }

  lemma {:induction false} StoreAllFrame(b: seq<Byte>, o: nat, fs: seq<Field>)
    requires o + Size(fs) <= |b|
    ensures StoreAll(b, o, fs)[..o] == b[..o]
    ensures StoreAll(b, o, fs)[o + Size(fs)..] == b[o + Size(fs)..]
    decreases fs
  {
    if fs != [] {
      var f := fs[0];
      var b1 := Put(b, o, Encode(f.order, f.width, f.value));
      StoreAllFrame(b1, o + f.width, fs[1..]);
      PutTail(b, o, Encode(f.order, f.width, f.value), o + Size(fs));
      var r := StoreAll(b, o, fs);
      assert r[..o] == r[..o + f.width][..o] == b1[..o + f.width][..o] == b[..o];
    }
  }

  lemma PutTail(b: seq<Byte>, o: nat, e: seq<Byte>, k: nat)
    requires o + |e| <= k <= |b|
    ensures Put(b, o, e)[k..] == b[k..]
  {
  }

  /** Any fields, of any mix of widths and orders, written back to back and read
      back to back come back, each modulo its width; and no byte outside them changes. */
  lemma {:induction false} PacketRoundTrip(b: seq<Byte>, o: nat, fs: seq<Field>)
    requires FieldsOk(fs) && o + Size(fs) <= |b|
    ensures LoadAll(StoreAll(b, o, fs), o, fs) == Reduced(fs)
    ensures StoreAll(b, o, fs)[..o] == b[..o]
    ensures StoreAll(b, o, fs)[o + Size(fs)..] == b[o + Size(fs)..]
    decreases fs
  {
    StoreAllFrame(b, o, fs);
    if fs != [] {
      var f, n := fs[0], fs[0].width;
      var b1 := Put(b, o, Encode(f.order, n, f.value));
      var r := StoreAll(b, o, fs);
      assert r == StoreAll(b1, o + n, fs[1..]);
      PacketRoundTrip(b1, o + n, fs[1..]);
      RoundTrip(f.order, n, b, o, f.value);
      ReadersDecode(f.order, n, r, o);
      ReadersDecode(f.order, n, b1, o);
      assert r[o..o + n] == r[..o + n][o..] == b1[..o + n][o..] == b1[o..o + n];
    }
  }

  /** Writing back the fields that were read leaves the buffer as it was. */
  lemma {:induction false} PacketRewrite(b: seq<Byte>, o: nat, fs: seq<Field>)
    requires FieldsOk(fs) && o + Size(fs) <= |b|
    ensures Size(LoadAll(b, o, fs)) == Size(fs)
    ensures StoreAll(b, o, LoadAll(b, o, fs)) == b
    decreases fs
  {
    if fs != [] {
      var f := fs[0];
      RoundTrip(f.order, f.width, b, o, 0);
      PacketRewrite(b, o + f.width, fs[1..]);
      assert LoadAll(b, o, fs)[1..] == LoadAll(b, o + f.width, fs[1..]);
    }
  }
}
