/**
  The two frame readers the device decoders are built from.

  A bit-packed frame is first turned into a string of bits, most significant
  bit of each byte first; each field is then a big-endian unsigned integer of
  its declared width. A byte-aligned frame is read as little-endian integers
  of whole bytes. Both readers consume a declared list of field widths with a
  cursor, so each field starts exactly where the previous one ends; each has
  an encoder beside it for the round-trip lemmas.
*/
module Frames {

  /** One octet of a decrypted payload. */
  type Byte = b: int | 0 <= b < 256

  /** One bit of a payload, as 0 or 1. */
  type Bit = b: int | 0 <= b < 2

  /** The errors a decode can end in. */
  datatype Error =
    | StreamError                                  // the payload is shorter than the layout
    | UnknownEnumValue(enumName: string, code: int) // an enumerated field holds an unknown code

  function Pow2(n: nat): (r: nat)
    ensures r >= 1
  {
    if n == 0 then 1 else 2 * Pow2(n - 1)
  }

  lemma {:induction false} Pow2Add(a: nat, b: nat)
    ensures Pow2(a + b) == Pow2(a) * Pow2(b)
  {
    if a > 0 {
      Pow2Add(a - 1, b);
      assert Pow2(a + b) == 2 * Pow2(a - 1 + b);
    }
  }

  /** The bounds of the field widths the decoders use. */
  lemma Pow2Values()
    ensures Pow2(1) == 2 && Pow2(4) == 0x10 && Pow2(7) == 0x80 && Pow2(8) == 0x100
    ensures Pow2(12) == 0x1000 && Pow2(16) == 0x1_0000 && Pow2(32) == 0x1_0000_0000
  {
    assert Pow2(8) == 0x100;
    Pow2Add(8, 4);
    Pow2Add(8, 8);
    Pow2Add(16, 16);
  }

  function Pow256(n: nat): (r: nat)
    ensures r >= 1
  {
    if n == 0 then 1 else 256 * Pow256(n - 1)
  }

  // ---------------------------------------------------------------------
  // Layouts: a list of field widths, and where each field starts.
  // ---------------------------------------------------------------------

  /** Position of field `k`: the total width of the fields before it, so
      each field starts where the previous one ends. */
  function Start(ws: seq<nat>, k: nat): nat
    requires k <= |ws|
  {
    if k == 0 then 0 else Start(ws, k - 1) + ws[k - 1]
  }

  /** Total width of a layout: where a field after the last one would start. */
  function Sum(ws: seq<nat>): nat {
    Start(ws, |ws|)
  }

  /** Dropping the first field moves every later start back by its width. */
  lemma {:induction false} StartShift(ws: seq<nat>, k: nat)
    requires 0 < k <= |ws|
    ensures Start(ws, k) == ws[0] + Start(ws[1..], k - 1)
  {
    if k > 1 {
      StartShift(ws, k - 1);
    }
  }

  /** The total width is the first field's width plus the rest's. */
  lemma SumShift(ws: seq<nat>)
    requires ws != []
    ensures Sum(ws) == ws[0] + Sum(ws[1..])
  {
    StartShift(ws, |ws|);
  }

  /** Later fields start no earlier. */
  lemma {:induction false} StartMono(ws: seq<nat>, i: nat, j: nat)
    requires i <= j <= |ws|
    decreases j
    ensures Start(ws, i) <= Start(ws, j)
  {
    if i < j {
      StartMono(ws, i, j - 1);
    }
  }

  /** Each field lies within the layout. */
  lemma StartBound(ws: seq<nat>, k: nat)
    requires k < |ws|
    ensures Start(ws, k) + ws[k] <= Sum(ws)
  {
    StartMono(ws, k + 1, |ws|);
  }

  /** A field written after `prefix` sits right after it, whatever follows. */
  lemma Regroup<T>(prefix: seq<T>, head: seq<T>, tail: seq<T>, rest: seq<T>)
    ensures prefix + (head + tail) + rest == (prefix + head) + tail + rest
    ensures (prefix + (head + tail) + rest)[|prefix|..|prefix| + |head|] == head
  {
    var whole := prefix + (head + tail) + rest;
    assert whole == prefix + head + (tail + rest);
  }

  // ---------------------------------------------------------------------
  // Bit-packed frames.
  // ---------------------------------------------------------------------

  /** The big-endian unsigned integer a bit string spells. */
  function BitsToInt(bits: seq<Bit>): (v: nat)
    ensures v < Pow2(|bits|)
  {
    if bits == [] then 0 else 2 * BitsToInt(bits[..|bits| - 1]) + bits[|bits| - 1]
  }

  /** The `w` low bits of `v`, most significant first. */
  function IntToBits(v: nat, w: nat): (bits: seq<Bit>)
    ensures |bits| == w
  {
    if w == 0 then [] else IntToBits(v / 2, w - 1) + [v % 2]
  }

  lemma {:induction false} BitsToIntOfIntToBits(v: nat, w: nat)
    requires v < Pow2(w)
    ensures BitsToInt(IntToBits(v, w)) == v
  {
    if w > 0 {
      BitsToIntOfIntToBits(v / 2, w - 1);
      BitsToIntSnoc(IntToBits(v / 2, w - 1), v % 2);
    }
  }

  /** Appending a low bit doubles the value and adds the bit. */
  lemma BitsToIntSnoc(init: seq<Bit>, b: Bit)
    ensures BitsToInt(init + [b]) == 2 * BitsToInt(init) + b
  {
    assert (init + [b])[..|init|] == init;
  }

  lemma {:induction false} IntToBitsOfBitsToInt(bits: seq<Bit>)
    ensures IntToBits(BitsToInt(bits), |bits|) == bits
  {
    if bits != [] {
      var n := |bits|;
      IntToBitsOfBitsToInt(bits[..n - 1]);
      assert bits == bits[..n - 1] + [bits[n - 1]];
    }
  }

  /** Bit `j` of `IntToBits(v, w)` is the bit of weight 2^(w-1-j) of `v`. */
  lemma {:induction false} IntToBitsAt(v: nat, w: nat, j: nat)
    requires j < w
    ensures IntToBits(v, w)[j] == (v / Pow2(w - 1 - j)) % 2
  {
    if j < w - 1 {
      IntToBitsAt(v / 2, w - 1, j);
      HalveDiv(v, Pow2(w - 2 - j));
    }
  }

  lemma HalveDiv(v: nat, p: nat)
    requires p >= 1
    ensures (v / 2) / p == v / (2 * p)
  {
    var q, r := v / (2 * p), v % (2 * p);
    assert v == (2 * p) * q + r && 0 <= r < 2 * p;
    var m := p * q;
    assert (2 * p) * q == 2 * m;
    assert v == 2 * m + r;
    assert v / 2 == m + r / 2;
    assert r / 2 < p;
    DivUnique(v / 2, p, q, r / 2);
  }

  /** Division by `p` is determined by quotient and remainder. */
  lemma DivUnique(a: nat, p: nat, q: nat, s: nat)
    requires p >= 1 && s < p && a == p * q + s
    ensures a / p == q
  {
    var d := a / p;
    assert a == p * d + a % p;
    assert p * (q + 1) == p * q + p;
    assert p * (d + 1) == p * d + p;
    if d > q {
      MulMono(p, q + 1, d);
    } else if d < q {
      MulMono(p, d + 1, q);
    }
  }

  lemma MulMono(p: nat, x: nat, y: nat)
    requires x <= y
    ensures p * x <= p * y
  {
    assert p * y == p * x + p * (y - x);
  }

  /** The bit string of a byte string: each byte's bits, most significant first. */
  function BytesToBits(bs: seq<Byte>): (bits: seq<Bit>)
    ensures |bits| == 8 * |bs|
  {
    if bs == [] then [] else IntToBits(bs[0], 8) + BytesToBits(bs[1..])
  }

  /** The byte string of a bit string whose length is a whole number of bytes. */
  function BitsToBytes(bits: seq<Bit>): (bs: seq<Byte>)
    requires |bits| % 8 == 0
    ensures 8 * |bs| == |bits|
  {
    if bits == [] then []
    else
      assert Pow2(8) == 256;
      [BitsToInt(bits[..8])] + BitsToBytes(bits[8..])
  }

  /** Bit `i` of a byte string is bit `7 - i % 8` (counting from the least
      significant) of byte `i / 8`. */
  lemma {:induction false} BytesToBitsAt(bs: seq<Byte>, i: nat)
    requires i < 8 * |bs|
    ensures BytesToBits(bs)[i] == (bs[i / 8] / Pow2(7 - i % 8)) % 2
  {
    if i < 8 {
      IntToBitsAt(bs[0], 8, i);
    } else {
      BytesToBitsAt(bs[1..], i - 8);
      assert (i - 8) / 8 == i / 8 - 1 && (i - 8) % 8 == i % 8;
      assert bs[1..][i / 8 - 1] == bs[i / 8];
      assert BytesToBits(bs)[i] == BytesToBits(bs[1..])[i - 8];
    }
  }

  lemma {:induction false} BytesToBitsOfBitsToBytes(bits: seq<Bit>)
    requires |bits| % 8 == 0
    ensures BytesToBits(BitsToBytes(bits)) == bits
  {
    if bits != [] {
      var bs := BitsToBytes(bits);
      assert bs[1..] == BitsToBytes(bits[8..]);
      IntToBitsOfBitsToInt(bits[..8]);
      BytesToBitsOfBitsToBytes(bits[8..]);
      assert bits == bits[..8] + bits[8..];
    }
  }

  lemma {:induction false} BitsToBytesOfBytesToBits(bs: seq<Byte>)
    ensures BitsToBytes(BytesToBits(bs)) == bs
  {
    if bs != [] {
      var bits := BytesToBits(bs);
      assert bits[..8] == IntToBits(bs[0], 8);
      assert bits[8..] == BytesToBits(bs[1..]);
      assert Pow2(8) == 256;
      BitsToIntOfIntToBits(bs[0], 8);
      BitsToBytesOfBytesToBits(bs[1..]);
    }
  }

  /** The big-endian unsigned field of `w` bits at position `pos`. */
  function BitField(bits: seq<Bit>, pos: nat, w: nat): (v: nat)
    requires pos + w <= |bits|
    ensures v < Pow2(w)
  {
    if w == 0 then 0 else 2 * BitField(bits, pos, w - 1) + bits[pos + w - 1]
  }

  /** A field is the integer its bits spell. */
  lemma {:induction false} BitFieldIsBitsToInt(bits: seq<Bit>, pos: nat, w: nat)
    requires pos + w <= |bits|
    ensures BitField(bits, pos, w) == BitsToInt(bits[pos..pos + w])
  {
    if w > 0 {
      BitFieldIsBitsToInt(bits, pos, w - 1);
      assert bits[pos..pos + w] == bits[pos..pos + w - 1] + [bits[pos + w - 1]];
      BitsToIntSnoc(bits[pos..pos + w - 1], bits[pos + w - 1]);
    }
  }

  /** A field depends only on the bits it covers. */
  lemma {:induction false} BitFieldAgree(a: seq<Bit>, b: seq<Bit>, n: nat, pos: nat, w: nat)
    requires n <= |a| && n <= |b| && a[..n] == b[..n]
    requires pos + w <= n
    ensures BitField(a, pos, w) == BitField(b, pos, w)
  {
    if w > 0 {
      BitFieldAgree(a, b, n, pos, w - 1);
      assert a[pos + w - 1] == a[..n][pos + w - 1];
      assert b[pos + w - 1] == b[..n][pos + w - 1];
    }
  }

  /** Reads consecutive big-endian unsigned fields of widths `ws` from
      `bits`, the cursor starting at `pos` and moving past each field. */
  function ReadBitFields(bits: seq<Bit>, pos: nat, ws: seq<nat>): (vs: seq<nat>)
    requires pos + Sum(ws) <= |bits|
    decreases ws
    ensures |vs| == |ws|
  {
    if ws == [] then []
    else
      SumShift(ws);
      [BitField(bits, pos, ws[0])] + ReadBitFields(bits, pos + ws[0], ws[1..])
  }

  /** Every field read fits its declared width. */
  lemma {:induction false} ReadBitFieldsFit(bits: seq<Bit>, pos: nat, ws: seq<nat>)
    requires pos + Sum(ws) <= |bits|
    decreases ws
    ensures FitsBits(ReadBitFields(bits, pos, ws), ws)
  {
    if ws != [] {
      var vs := ReadBitFields(bits, pos, ws);
      SumShift(ws);
      ReadBitFieldsFit(bits, pos + ws[0], ws[1..]);
      forall k | 0 <= k < |ws|
        ensures vs[k] < Pow2(ws[k])
      {
        if k > 0 {
          assert vs[k] == ReadBitFields(bits, pos + ws[0], ws[1..])[k - 1];
        }
      }
    }
  }

  /** Field `k` read by the cursor is the integer at its absolute position. */
  lemma {:induction false} ReadBitFieldsAt(bits: seq<Bit>, pos: nat, ws: seq<nat>, k: nat)
    requires pos + Sum(ws) <= |bits|
    requires k < |ws|
    decreases k, 1
    ensures pos + Start(ws, k) + ws[k] <= |bits|
    ensures ReadBitFields(bits, pos, ws)[k] == BitField(bits, pos + Start(ws, k), ws[k])
  {
    if k == 0 {
      StartBound(ws, k);
      assert ReadBitFields(bits, pos, ws)[0] == BitField(bits, pos, ws[0]);
    } else {
      ReadBitFieldsAtLater(bits, pos, ws, k);
    }
  }

  /** The induction step of `ReadBitFieldsAt`: a later field is found by the
      cursor that has moved past the first one. */
  lemma {:induction false} ReadBitFieldsAtLater(bits: seq<Bit>, pos: nat, ws: seq<nat>, k: nat)
    requires pos + Sum(ws) <= |bits|
    requires 0 < k < |ws|
    decreases k, 0
    ensures pos + Start(ws, k) + ws[k] <= |bits|
    ensures ReadBitFields(bits, pos, ws)[k] == BitField(bits, pos + Start(ws, k), ws[k])
  {
    var next := pos + ws[0];
    ReadBitFieldsTail(bits, pos, ws, k);
    ReadBitFieldsAt(bits, next, ws[1..], k - 1);
    StartShift(ws, k);
    assert next + Start(ws[1..], k - 1) == pos + Start(ws, k);
  }

  /** The cursor reads the first field, then the rest of the layout. */
  lemma ReadBitFieldsHead(bits: seq<Bit>, pos: nat, ws: seq<nat>)
    requires pos + Sum(ws) <= |bits| && ws != []
    ensures pos + ws[0] + Sum(ws[1..]) <= |bits|
    ensures ReadBitFields(bits, pos, ws)
         == [BitField(bits, pos, ws[0])] + ReadBitFields(bits, pos + ws[0], ws[1..])
  {
    SumShift(ws);
  }

  /** Past the first field, the cursor reads the rest of the layout. */
  lemma ReadBitFieldsTail(bits: seq<Bit>, pos: nat, ws: seq<nat>, k: nat)
    requires pos + Sum(ws) <= |bits|
    requires 0 < k < |ws|
    ensures pos + ws[0] + Sum(ws[1..]) <= |bits|
    ensures ReadBitFields(bits, pos, ws)[k] == ReadBitFields(bits, pos + ws[0], ws[1..])[k - 1]
    ensures ws[1..][k - 1] == ws[k]
  {
    SumShift(ws);
  }

  /** Values that fit their declared widths. */
  predicate FitsBits(vs: seq<nat>, ws: seq<nat>) {
    |vs| == |ws| && forall k :: 0 <= k < |ws| ==> vs[k] < Pow2(ws[k])
  }

  /** The bit string a layout reader reads `vs` back from. */
  function WriteBitFields(vs: seq<nat>, ws: seq<nat>): (bits: seq<Bit>)
    requires |vs| == |ws|
    ensures |bits| == Sum(ws)
  {
    if ws == [] then []
    else
      SumShift(ws);
      IntToBits(vs[0], ws[0]) + WriteBitFields(vs[1..], ws[1..])
  }

  /** Reading the fields written after any prefix gives back the values. */
  lemma {:induction false} ReadWriteBitFields(prefix: seq<Bit>, vs: seq<nat>, ws: seq<nat>, rest: seq<Bit>)
    requires FitsBits(vs, ws)
    decreases ws
    ensures ReadBitFields(prefix + WriteBitFields(vs, ws) + rest, |prefix|, ws) == vs
  {
    if ws != [] {
      var head := IntToBits(vs[0], ws[0]);
      var bits := prefix + WriteBitFields(vs, ws) + rest;
      WrittenBitsHead(prefix, vs, ws, rest);
      FitsBitsTail(vs, ws);
      ReadWriteBitFields(prefix + head, vs[1..], ws[1..], rest);
      assert ReadBitFields(bits, |prefix| + ws[0], ws[1..]) == vs[1..];
      ReadBitFieldsHead(bits, |prefix|, ws);
      assert vs == [vs[0]] + vs[1..];
    }
  }

  /** The first field written is read back, and the rest follows it. */
  lemma WrittenBitsHead(prefix: seq<Bit>, vs: seq<nat>, ws: seq<nat>, rest: seq<Bit>)
    requires FitsBits(vs, ws) && ws != []
    ensures |prefix| + ws[0] <= |prefix + WriteBitFields(vs, ws) + rest|
    ensures prefix + WriteBitFields(vs, ws) + rest
         == (prefix + IntToBits(vs[0], ws[0])) + WriteBitFields(vs[1..], ws[1..]) + rest
    ensures BitField(prefix + WriteBitFields(vs, ws) + rest, |prefix|, ws[0]) == vs[0]
  {
    var head := IntToBits(vs[0], ws[0]);
    assert WriteBitFields(vs, ws) == head + WriteBitFields(vs[1..], ws[1..]);
    Regroup(prefix, head, WriteBitFields(vs[1..], ws[1..]), rest);
    FieldOfSlice(prefix + WriteBitFields(vs, ws) + rest, |prefix|, head);
    BitsToIntOfIntToBits(vs[0], ws[0]);
  }

  /** A field covering exactly the bits `head` has their value. */
  lemma FieldOfSlice(bits: seq<Bit>, pos: nat, head: seq<Bit>)
    requires pos + |head| <= |bits| && bits[pos..pos + |head|] == head
    ensures BitField(bits, pos, |head|) == BitsToInt(head)
  {
    BitFieldIsBitsToInt(bits, pos, |head|);
  }

  lemma FitsBitsTail(vs: seq<nat>, ws: seq<nat>)
    requires FitsBits(vs, ws) && ws != []
    ensures FitsBits(vs[1..], ws[1..])
  {
    forall k | 0 <= k < |ws| - 1 ensures vs[1..][k] < Pow2(ws[1..][k]) {
      assert vs[k + 1] < Pow2(ws[k + 1]);
    }
  }

  // ---------------------------------------------------------------------
  // Byte-aligned little-endian frames.
  // ---------------------------------------------------------------------

  /** The unsigned integer a byte string spells, least significant byte first. */
  function LeUint(bs: seq<Byte>): (v: nat)
    ensures v < Pow256(|bs|)
  {
    if bs == [] then 0 else bs[0] + 256 * LeUint(bs[1..])
  }

  /** The `n` low bytes of `v`, least significant first. */
  function LeBytes(v: nat, n: nat): (bs: seq<Byte>)
    ensures |bs| == n
  {
    if n == 0 then [] else [v % 256] + LeBytes(v / 256, n - 1)
  }

  lemma {:induction false} LeUintOfLeBytes(v: nat, n: nat)
    requires v < Pow256(n)
    ensures LeUint(LeBytes(v, n)) == v
  {
    if n > 0 {
      var bs := LeBytes(v, n);
      assert bs[1..] == LeBytes(v / 256, n - 1);
      LeUintOfLeBytes(v / 256, n - 1);
    }
  }

  lemma {:induction false} LeBytesOfLeUint(bs: seq<Byte>)
    ensures LeBytes(LeUint(bs), |bs|) == bs
  {
    if bs != [] {
      LeBytesOfLeUint(bs[1..]);
      SplitLowByte(bs[0], LeUint(bs[1..]));
      assert bs == [bs[0]] + bs[1..];
    }
  }

  /** The low byte and the rest of `b + 256 * x`. */
  lemma SplitLowByte(b: Byte, x: nat)
    ensures (b + 256 * x) % 256 == b && (b + 256 * x) / 256 == x
  {
  }

  /** The two's-complement value of a 16-bit unsigned integer. */
  function Int16(u: nat): (r: int)
    requires u < 0x1_0000
    ensures -0x8000 <= r < 0x8000
    ensures r % 0x1_0000 == u
  {
    if u < 0x8000 then u else u - 0x1_0000
  }

  /** The little-endian unsigned field of `w` bytes at position `pos`. */
  function LeField(bs: seq<Byte>, pos: nat, w: nat): (v: nat)
    requires pos + w <= |bs|
    ensures v < Pow256(w)
  {
    LeUint(bs[pos..pos + w])
  }

  /** Reads consecutive little-endian unsigned fields of `ws` bytes each
      from `bs`, the cursor starting at `pos` and moving past each field. */
  function ReadLeFields(bs: seq<Byte>, pos: nat, ws: seq<nat>): (vs: seq<nat>)
    requires pos + Sum(ws) <= |bs|
    decreases ws
    ensures |vs| == |ws|
  {
    if ws == [] then []
    else
      SumShift(ws);
      [LeField(bs, pos, ws[0])] + ReadLeFields(bs, pos + ws[0], ws[1..])
  }

  /** Field `k` read by the cursor is the integer at its absolute position. */
  lemma {:induction false} ReadLeFieldsAt(bs: seq<Byte>, pos: nat, ws: seq<nat>, k: nat)
    requires pos + Sum(ws) <= |bs|
    requires k < |ws|
    decreases k, 1
    ensures pos + Start(ws, k) + ws[k] <= |bs|
    ensures ReadLeFields(bs, pos, ws)[k] == LeField(bs, pos + Start(ws, k), ws[k])
  {
    if k == 0 {
      StartBound(ws, k);
      assert ReadLeFields(bs, pos, ws)[0] == LeField(bs, pos, ws[0]);
    } else {
      ReadLeFieldsAtLater(bs, pos, ws, k);
    }
  }

  /** The induction step of `ReadLeFieldsAt`: a later field is found by the
      cursor that has moved past the first one. */
  lemma {:induction false} ReadLeFieldsAtLater(bs: seq<Byte>, pos: nat, ws: seq<nat>, k: nat)
    requires pos + Sum(ws) <= |bs|
    requires 0 < k < |ws|
    decreases k, 0
    ensures pos + Start(ws, k) + ws[k] <= |bs|
    ensures ReadLeFields(bs, pos, ws)[k] == LeField(bs, pos + Start(ws, k), ws[k])
  {
    var next := pos + ws[0];
    ReadLeFieldsTail(bs, pos, ws, k);
    ReadLeFieldsAt(bs, next, ws[1..], k - 1);
    StartShift(ws, k);
    assert next + Start(ws[1..], k - 1) == pos + Start(ws, k);
  }

  /** The cursor reads the first field, then the rest of the layout. */
  lemma ReadLeFieldsHead(bs: seq<Byte>, pos: nat, ws: seq<nat>)
    requires pos + Sum(ws) <= |bs| && ws != []
    ensures pos + ws[0] + Sum(ws[1..]) <= |bs|
    ensures ReadLeFields(bs, pos, ws)
         == [LeField(bs, pos, ws[0])] + ReadLeFields(bs, pos + ws[0], ws[1..])
  {
    SumShift(ws);
  }

  /** Past the first field, the cursor reads the rest of the layout. */
  lemma ReadLeFieldsTail(bs: seq<Byte>, pos: nat, ws: seq<nat>, k: nat)
    requires pos + Sum(ws) <= |bs|
    requires 0 < k < |ws|
    ensures pos + ws[0] + Sum(ws[1..]) <= |bs|
    ensures ReadLeFields(bs, pos, ws)[k] == ReadLeFields(bs, pos + ws[0], ws[1..])[k - 1]
    ensures ws[1..][k - 1] == ws[k]
  {
    SumShift(ws);
  }

  /** Values that fit their declared byte widths. */
  predicate FitsBytes(vs: seq<nat>, ws: seq<nat>) {
    |vs| == |ws| && forall k :: 0 <= k < |ws| ==> vs[k] < Pow256(ws[k])
  }

  /** The byte string a layout reader reads `vs` back from. */
  function WriteLeFields(vs: seq<nat>, ws: seq<nat>): (bs: seq<Byte>)
    requires |vs| == |ws|
    ensures |bs| == Sum(ws)
  {
    if ws == [] then []
    else
      SumShift(ws);
      LeBytes(vs[0], ws[0]) + WriteLeFields(vs[1..], ws[1..])
  }

  /** Reading the fields written after any prefix gives back the values. */
  lemma {:induction false} ReadWriteLeFields(prefix: seq<Byte>, vs: seq<nat>, ws: seq<nat>, rest: seq<Byte>)
    requires FitsBytes(vs, ws)
    decreases ws
    ensures ReadLeFields(prefix + WriteLeFields(vs, ws) + rest, |prefix|, ws) == vs
  {
    if ws != [] {
      var head := LeBytes(vs[0], ws[0]);
      var bs := prefix + WriteLeFields(vs, ws) + rest;
      WrittenBytesHead(prefix, vs, ws, rest);
      FitsBytesTail(vs, ws);
      ReadWriteLeFields(prefix + head, vs[1..], ws[1..], rest);
      assert ReadLeFields(bs, |prefix| + ws[0], ws[1..]) == vs[1..];
      ReadLeFieldsHead(bs, |prefix|, ws);
      assert vs == [vs[0]] + vs[1..];
    }
  }

  /** The first field written is read back, and the rest follows it. */
  lemma WrittenBytesHead(prefix: seq<Byte>, vs: seq<nat>, ws: seq<nat>, rest: seq<Byte>)
    requires FitsBytes(vs, ws) && ws != []
    ensures |prefix| + ws[0] <= |prefix + WriteLeFields(vs, ws) + rest|
    ensures prefix + WriteLeFields(vs, ws) + rest
         == (prefix + LeBytes(vs[0], ws[0])) + WriteLeFields(vs[1..], ws[1..]) + rest
    ensures LeField(prefix + WriteLeFields(vs, ws) + rest, |prefix|, ws[0]) == vs[0]
  {
    var head := LeBytes(vs[0], ws[0]);
    assert WriteLeFields(vs, ws) == head + WriteLeFields(vs[1..], ws[1..]);
    Regroup(prefix, head, WriteLeFields(vs[1..], ws[1..]), rest);
    LeUintOfLeBytes(vs[0], ws[0]);
  }

  lemma FitsBytesTail(vs: seq<nat>, ws: seq<nat>)
    requires FitsBytes(vs, ws) && ws != []
    ensures FitsBytes(vs[1..], ws[1..])
  {
    forall k | 0 <= k < |ws| - 1 ensures vs[1..][k] < Pow256(ws[1..][k]) {
      assert vs[k + 1] < Pow256(ws[k + 1]);
    }
  }
}
