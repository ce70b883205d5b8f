/**
 * The ARM-Thumb branch converter (the BCJ filter of the xz / LZMA SDK) that
 * ROMFS applies to decompressed file data.
 *
 * A Thumb `BL` instruction is a pair of little-endian halfwords whose high
 * bytes match `11110xxx` and `11111xxx`.  Between them they hold a 22-bit
 * halfword offset.  The encoder turns a relative offset into an absolute
 * one (which compresses better); the decoder turns it back.
 *
 * The 32-bit arithmetic of the C code is modelled on integers with its
 * wrap-around made explicit by `Wrap32`; shifts are divisions and
 * multiplications by powers of two, masks are remainders, and the bitwise
 * ors join fields that do not overlap, so they are sums.
 */
module ArmThumb {
  import opened Base

  /** 2^22: the range of the offset field of a `BL` pair. */
  const FieldRange := 0x40_0000

  /** `b & 0xF8`: the byte with its low three bits cleared. */
  function High5(b: byte): byte
  {
    b / 8 * 8
  }

  /** The four bytes at `i` hold a Thumb `BL` pair. */
  predicate IsBranchAt(s: seq<byte>, i: nat)
    requires i + 4 <= |s|
  {
    High5(s[i + 1]) == 0xF0 && High5(s[i + 3]) == 0xF8
  }

  /**
   * The 22-bit offset field of a `BL` pair:
   * `((b1 & 7) << 19) | (b0 << 11) | ((b3 & 7) << 8) | b2`.
   */
  function Offset(b0: byte, b1: byte, b2: byte, b3: byte): (r: nat)
    ensures r < FieldRange
  {
    (b1 as int % 8) * 0x8_0000 + b0 as int * 0x800 + (b3 as int % 8) * 0x100 + b2 as int
  }

  /** `now_pos + (uint32_t)i + 4`, the address the offset is relative to. */
  function Here(nowPos: uint32, i: nat): uint32
  {
    Wrap32(nowPos + Wrap32(i) + 4)
  }

  /**
   * The offset field after conversion: the field is doubled (`src <<= 1`),
   * the position is added (encoder) or subtracted (decoder) modulo 2^32 and
   * the result is halved again (`dest >>= 1`).
   */
  function Convert(offset: nat, here: uint32, isEncoder: bool): uint32
  {
    (if isEncoder then Wrap32(here + offset * 2) else Wrap32(offset * 2 - here)) / 2
  }

  /**
   * The four bytes written back for a converted field `d`; only its low 22
   * bits are kept, and the pattern bits of the odd bytes are restored.
   */
  function Pack(d: uint32): (w: seq<byte>)
    ensures |w| == 4
  {
    [d / 0x800 % 0x100, 0xF0 + d / 0x8_0000 % 8, d % 0x100, 0xF8 + d / 0x100 % 8]
  }

  /** The rewritten form of the `BL` pair at `i`. */
  function Rewrite(s: seq<byte>, i: nat, here: uint32, isEncoder: bool): (w: seq<byte>)
    requires i + 4 <= |s|
    ensures |w| == 4
  {
    Pack(Convert(Offset(s[i], s[i + 1], s[i + 2], s[i + 3]), here, isEncoder))
  }

  /**
   * The buffer after the pair at `i` is rewritten in place.  Nothing outside
   * the four bytes changes, and the result still holds a `BL` pair at `i`.
   */
  function RewriteAt(b: seq<byte>, i: nat, here: uint32, isEncoder: bool): (r: seq<byte>)
    requires i + 4 <= |b|
    ensures |r| == |b|
    ensures forall k | 0 <= k < |b| && (k < i || i + 4 <= k) :: r[k] == b[k]
    ensures IsBranchAt(r, i)
  {
    var w := Rewrite(b, i, here, isEncoder);
    b[i := w[0]][i + 1 := w[1]][i + 2 := w[2]][i + 3 := w[3]]
  }

  /**
   * The loop of `armthumb_code` from index `i` on: while four bytes remain
   * below `size` it steps one halfword, rewriting a matched pair and then
   * stepping over its second halfword as well.
   */
  function Scan(b: seq<byte>, size: nat, i: nat, nowPos: uint32, isEncoder: bool): (r: seq<byte>)
    requires size <= |b|
    ensures |r| == |b|
    decreases size - i
  {
    if size < i + 4 then b
    else if IsBranchAt(b, i) then Scan(RewriteAt(b, i, Here(nowPos, i), isEncoder), size, i + 4, nowPos, isEncoder)
    else Scan(b, size, i + 2, nowPos, isEncoder)
  }

  /** The scan from `i` rewrites the pair that starts at `j`. */
  predicate Matched(b: seq<byte>, size: nat, i: nat, j: nat)
    requires size <= |b|
    decreases size - i
  {
    i + 4 <= size &&
    if IsBranchAt(b, i) then j == i || Matched(b, size, i + 4, j)
    else Matched(b, size, i + 2, j)
  }

  // ---------------------------------------------------------------------
  // The pair arithmetic.

  lemma Split19(x: int)
    ensures x % 0x40_0000 == x / 0x8_0000 % 8 * 0x8_0000 + x % 0x8_0000
  {
  }

  lemma Split11(x: int)
    ensures x % 0x8_0000 == x / 0x800 % 0x100 * 0x800 + x % 0x800
  {
  }

  lemma Split8(x: int)
    ensures x % 0x800 == x / 0x100 % 8 * 0x100 + x % 0x100
  {
  }

  /** Reading back the field of a packed pair gives its low 22 bits. */
  lemma UnpackPack(d: uint32)
    ensures Offset(Pack(d)[0], Pack(d)[1], Pack(d)[2], Pack(d)[3]) == d % FieldRange
  {
    var w := Pack(d);
    assert w[1] as int % 8 == d / 0x8_0000 % 8;
    assert w[3] as int % 8 == d / 0x100 % 8;
    Split19(d);
    Split11(d);
    Split8(d);
  }

  lemma Low0(d: int)
    ensures d % FieldRange / 0x800 % 0x100 == d / 0x800 % 0x100
  {
    var q := d / FieldRange;
    var r := d % FieldRange;
    assert d == q * FieldRange + r;
    assert d / 0x800 == q * 0x800 + r / 0x800;
    assert (q * 0x800 + r / 0x800) % 0x100 == r / 0x800 % 0x100 by {
      assert q * 0x800 + r / 0x800 == (q * 8) * 0x100 + r / 0x800;
    }
  }

  lemma Low1(d: int)
    ensures d % FieldRange / 0x8_0000 % 8 == d / 0x8_0000 % 8
  {
    var q := d / FieldRange;
    var r := d % FieldRange;
    assert d == q * FieldRange + r;
    assert d / 0x8_0000 == q * 8 + r / 0x8_0000;
  }

  lemma Low2(d: int)
    ensures d % FieldRange % 0x100 == d % 0x100
  {
    var q := d / FieldRange;
    var r := d % FieldRange;
    var p := d / 0x100;
    var s := d % 0x100;
    assert d == p * 0x100 + s;
    assert r == (p - q * 0x4000) * 0x100 + s;
    ByteOf(r, p - q * 0x4000, s);
  }

  lemma ByteOf(x: int, k: int, s: int)
    requires x == k * 0x100 + s && 0 <= s < 0x100
    ensures x % 0x100 == s
  {
  }

  lemma Low3(d: int)
    ensures d % FieldRange / 0x100 % 8 == d / 0x100 % 8
  {
    var q := d / FieldRange;
    var r := d % FieldRange;
    assert d == q * FieldRange + r;
    assert r / 0x100 == d / 0x100 - q * 0x4000 by {
      var s := d % 0x100;
      assert r == (d / 0x100 - q * 0x4000) * 0x100 + s;
    }
    var t := d / 0x100;
    assert t - q * 0x4000 == t + (-q * 0x800) * 8;
  }

  /** Packing keeps only the low 22 bits of the converted field. */
  lemma PackLow(d: uint32)
    ensures Pack(d) == Pack(d % FieldRange)
  {
    Low0(d);
    Low1(d);
    Low2(d);
    Low3(d);
  }

  /** Packing the field of a `BL` pair rebuilds the pair. */
  lemma PackUnpack(b: seq<byte>, i: nat)
    requires i + 4 <= |b| && IsBranchAt(b, i)
    ensures Pack(Offset(b[i], b[i + 1], b[i + 2], b[i + 3])) == b[i..i + 4]
  {
    var u := Offset(b[i], b[i + 1], b[i + 2], b[i + 3]);
    var hi := (b[i + 1] as int % 8) * 0x100 + b[i] as int;
    var lo := (b[i + 3] as int % 8) * 0x100 + b[i + 2] as int;
    assert u == hi * 0x800 + lo;
    assert u / 0x800 == hi;
    assert u % 0x800 == lo;
    assert u / 0x8_0000 == b[i + 1] as int % 8;
    assert u / 0x100 % 8 == b[i + 3] as int % 8;
    assert b[i + 1] == 0xF0 + b[i + 1] as int % 8;
    assert b[i + 3] == 0xF8 + b[i + 3] as int % 8;
  }

  /** Halving a wrapped even value and keeping 22 bits ignores the wrap. */
  lemma HalfWrap(x: int)
    requires x % 2 == 0
    ensures Wrap32(x) / 2 % FieldRange == x / 2 % FieldRange
  {
    var y := x / 2;
    var q := x / 0x1_0000_0000;
    assert x == 2 * y;
    assert Wrap32(x) == 2 * (y - q * 0x8000_0000);
    var z := y - q * 0x8000_0000;
    assert Wrap32(x) / 2 == z;
    ModShift(y, -q * 0x200);
  }

  lemma ModShift(y: int, k: int)
    ensures (y + k * FieldRange) % FieldRange == y % FieldRange
  {
  }

  lemma AddThenSub(a: int, u: nat, v: int)
    requires u < FieldRange && v == (a + u) % FieldRange
    ensures (v - a) % FieldRange == u
  {
    var q := (a + u) / FieldRange;
    assert v - a == u - q * FieldRange;
  }

  lemma SubThenAdd(a: int, u: nat, v: int)
    requires u < FieldRange && v == (u - a) % FieldRange
    ensures (a + v) % FieldRange == u
  {
    var p := (u - a) / FieldRange;
    assert a + v == u - p * FieldRange;
  }

  /** The converted field, modulo 2^22, is the field shifted by `here / 2`. */
  lemma ConvertMod(offset: nat, here: uint32, isEncoder: bool)
    requires here % 2 == 0
    ensures Convert(offset, here, isEncoder) % FieldRange
         == (if isEncoder then here / 2 + offset else offset - here / 2) % FieldRange
  {
    var h := here / 2;
    assert here == 2 * h;
    if isEncoder {
      var x := here + offset * 2;
      assert x == 2 * (h + offset);
      HalfWrap(x);
    } else {
      var x := offset * 2 - here;
      assert x == 2 * (offset - h);
      HalfWrap(x);
    }
  }

  lemma EncodeThenDecode(u: nat, here: uint32)
    requires u < FieldRange && here % 2 == 0
    ensures Convert(Convert(u, here, true) % FieldRange, here, false) % FieldRange == u
  {
    var v := Convert(u, here, true) % FieldRange;
    ConvertMod(u, here, true);
    ConvertMod(v, here, false);
    AddThenSub(here / 2, u, v);
  }

  lemma DecodeThenEncode(u: nat, here: uint32)
    requires u < FieldRange && here % 2 == 0
    ensures Convert(Convert(u, here, false) % FieldRange, here, true) % FieldRange == u
  {
    var v := Convert(u, here, false) % FieldRange;
    ConvertMod(u, here, false);
    ConvertMod(v, here, true);
    SubThenAdd(here / 2, u, v);
  }

  /**
   * Decoding undoes encoding, and encoding undoes decoding, of a 22-bit
   * field at the same even position: both add and subtract the same
   * `now_pos + i + 4` modulo 2^32.
   */
  lemma ConvertInverse(u: nat, here: uint32, isEncoder: bool)
    requires u < FieldRange && here % 2 == 0
    ensures Convert(Convert(u, here, isEncoder) % FieldRange, here, !isEncoder) % FieldRange == u
  {
    if isEncoder {
      EncodeThenDecode(u, here);
    } else {
      DecodeThenEncode(u, here);
    }
  }

  /**
   * Rewriting a pair and then rewriting it back in the other direction at
   * the same even position restores the buffer.
   */
  lemma PairInvolution(b: seq<byte>, i: nat, here: uint32, isEncoder: bool)
    requires i + 4 <= |b| && IsBranchAt(b, i) && here % 2 == 0
    ensures RewriteAt(RewriteAt(b, i, here, isEncoder), i, here, !isEncoder) == b
  {
    var t := RewriteAt(b, i, here, isEncoder);
    var u := Offset(b[i], b[i + 1], b[i + 2], b[i + 3]);
    var c := Convert(u, here, isEncoder);
    assert t[i..i + 4] == Pack(c);
    UnpackPack(c);
    assert Offset(t[i], t[i + 1], t[i + 2], t[i + 3]) == c % FieldRange;
    var c' := Convert(c % FieldRange, here, !isEncoder);
    ConvertInverse(u, here, isEncoder);
    PackLow(c');
    PackUnpack(b, i);
    var r := RewriteAt(t, i, here, !isEncoder);
    assert r[i..i + 4] == Pack(c');
    assert r[i..i + 4] == b[i..i + 4];
    assert forall k | 0 <= k < |b| :: r[k] == b[k] by {
      forall k | 0 <= k < |b|
        ensures r[k] == b[k]
      {
        if i <= k < i + 4 {
          assert r[k] == r[i..i + 4][k - i];
        }
      }
    }
  }

  /** `now_pos + i + 4` is even when `now_pos` and `i` are. */
  lemma HereEven(nowPos: uint32, i: nat)
    requires nowPos % 2 == 0 && i % 2 == 0
    ensures Here(nowPos, i) % 2 == 0
  {
    var q := i / 0x1_0000_0000;
    assert Wrap32(i) == i - q * 0x1_0000_0000;
    var x := nowPos + Wrap32(i) + 4;
    var p := x / 0x1_0000_0000;
    assert Wrap32(x) == x - p * 0x1_0000_0000;
  }

  // ---------------------------------------------------------------------
  // The loop.

  /**
   * The body of the loop for a matched pair at `i`: the offset field is
   * read, converted and written back over the same four bytes, in the
   * order the C code writes them.
   */
  method ConvertPair(nowPos: uint32, isEncoder: bool, buffer: array<byte>, i: nat)
    requires i + 4 <= buffer.Length
    modifies buffer
    ensures buffer[..] == RewriteAt(old(buffer[..]), i, Here(nowPos, i), isEncoder)
  {
    var src := Offset(buffer[i], buffer[i + 1], buffer[i + 2], buffer[i + 3]) * 2;
    var dest := if isEncoder then Wrap32(Here(nowPos, i) + src) else Wrap32(src - Here(nowPos, i));
    dest := dest / 2;
    assert dest == Convert(Offset(buffer[i], buffer[i + 1], buffer[i + 2], buffer[i + 3]), Here(nowPos, i), isEncoder);
    buffer[i + 1] := 0xF0 + dest / 0x8_0000 % 8;
    buffer[i + 0] := dest / 0x800 % 0x100;
    buffer[i + 3] := 0xF8 + dest / 0x100 % 8;
    buffer[i + 2] := dest % 0x100;
  }

  /**
   * `armthumb_code`: the filter run in place over the first `size` bytes
   * of `buffer`.  The result is the index at which the scan stopped: even,
   * with fewer than four bytes left before `size`.
   */
  method ArmThumbCode(nowPos: uint32, isEncoder: bool, buffer: array<byte>, size: nat) returns (i: nat)
    requires size <= buffer.Length
    modifies buffer
    ensures buffer[..] == Scan(old(buffer[..]), size, 0, nowPos, isEncoder)
    ensures i % 2 == 0 && i <= size < i + 4
  {
    i := 0;
    ghost var halfwords := 0;
    while i + 4 <= size
      invariant i == 2 * halfwords && i <= size
      invariant Scan(buffer[..], size, i, nowPos, isEncoder) == Scan(old(buffer[..]), size, 0, nowPos, isEncoder)
      decreases size - i
    {
      if High5(buffer[i + 1]) == 0xF0 && High5(buffer[i + 3]) == 0xF8 {
        ConvertPair(nowPos, isEncoder, buffer, i);
        i, halfwords := i + 2, halfwords + 1;
      }
      i, halfwords := i + 2, halfwords + 1;
    }
  }

  // ---------------------------------------------------------------------
  // What the scan promises.

  /** The scan from `i` writes only at indices in `[i, size)`. */
  lemma {:induction false} ScanFrame(b: seq<byte>, size: nat, i: nat, nowPos: uint32, isEncoder: bool)
    requires size <= |b|
    ensures forall k | 0 <= k < |b| && (k < i || size <= k) :: Scan(b, size, i, nowPos, isEncoder)[k] == b[k]
    decreases size - i
  {
    if size < i + 4 {
    } else if IsBranchAt(b, i) {
      ScanFrame(RewriteAt(b, i, Here(nowPos, i), isEncoder), size, i + 4, nowPos, isEncoder);
    } else {
      ScanFrame(b, size, i + 2, nowPos, isEncoder);
    }
  }

  /** Rewriting a pair does not depend on bytes at or after `size`. */
  lemma RewriteAtPrefix(b: seq<byte>, size: nat, i: nat, here: uint32, isEncoder: bool)
    requires i + 4 <= size <= |b|
    ensures RewriteAt(b[..size], i, here, isEncoder) == RewriteAt(b, i, here, isEncoder)[..size]
  {
    var c := b[..size];
    assert c[i] == b[i] && c[i + 1] == b[i + 1] && c[i + 2] == b[i + 2] && c[i + 3] == b[i + 3];
    assert Rewrite(c, i, here, isEncoder) == Rewrite(b, i, here, isEncoder);
  }

  /** The scan never reads a byte at or after `size`. */
  lemma {:induction false} ScanPrefix(b: seq<byte>, size: nat, i: nat, nowPos: uint32, isEncoder: bool)
    requires size <= |b|
    ensures Scan(b, size, i, nowPos, isEncoder)[..size] == Scan(b[..size], size, i, nowPos, isEncoder)
    decreases size - i
  {
    var c := b[..size];
    if size < i + 4 {
    } else {
      assert IsBranchAt(c, i) == IsBranchAt(b, i);
      if IsBranchAt(b, i) {
        var h := Here(nowPos, i);
        var b1 := RewriteAt(b, i, h, isEncoder);
        RewriteAtPrefix(b, size, i, h, isEncoder);
        ScanPrefix(b1, size, i + 4, nowPos, isEncoder);
      } else {
        ScanPrefix(b, size, i + 2, nowPos, isEncoder);
      }
    }
  }

  /** Rewriting a pair reads only the pair's own four bytes. */
  lemma RewriteAtReads(b: seq<byte>, c: seq<byte>, i: nat, here: uint32, isEncoder: bool)
    requires i + 4 <= |b| == |c|
    requires b[i] == c[i] && b[i + 1] == c[i + 1] && b[i + 2] == c[i + 2] && b[i + 3] == c[i + 3]
    ensures forall k | i <= k < i + 4 :: RewriteAt(b, i, here, isEncoder)[k] == RewriteAt(c, i, here, isEncoder)[k]
  {
    assert Rewrite(b, i, here, isEncoder) == Rewrite(c, i, here, isEncoder);
  }

  /**
   * What the scan from `i` leaves in `[i, size)` depends only on what the
   * buffer holds there.
   */
  lemma {:induction false} ScanLocal(b: seq<byte>, c: seq<byte>, size: nat, i: nat, nowPos: uint32, isEncoder: bool)
    requires size <= |b| == |c|
    requires forall k | i <= k < size :: b[k] == c[k]
    ensures forall k | i <= k < size :: Scan(b, size, i, nowPos, isEncoder)[k] == Scan(c, size, i, nowPos, isEncoder)[k]
    decreases size - i
  {
    if size < i + 4 {
    } else if IsBranchAt(b, i) {
      assert IsBranchAt(c, i);
      var h := Here(nowPos, i);
      var b1 := RewriteAt(b, i, h, isEncoder);
      var c1 := RewriteAt(c, i, h, isEncoder);
      RewriteAtReads(b, c, i, h, isEncoder);
      ScanLocal(b1, c1, size, i + 4, nowPos, isEncoder);
      ScanFrame(b1, size, i + 4, nowPos, isEncoder);
      ScanFrame(c1, size, i + 4, nowPos, isEncoder);
    } else {
      assert !IsBranchAt(c, i);
      ScanLocal(b, c, size, i + 2, nowPos, isEncoder);
      ScanFrame(b, size, i + 2, nowPos, isEncoder);
      ScanFrame(c, size, i + 2, nowPos, isEncoder);
    }
  }

  /**
   * The scan from `i` keeps the pattern bits of every byte an odd distance
   * after `i`: there it changes at most the low three bits.
   */
  lemma {:induction false} ScanKeepsHigh5(b: seq<byte>, size: nat, i: nat, m: nat, nowPos: uint32, isEncoder: bool)
    requires size <= |b| && i + 2 * m + 1 < |b|
    ensures High5(Scan(b, size, i, nowPos, isEncoder)[i + 2 * m + 1]) == High5(b[i + 2 * m + 1])
    decreases size - i
  {
    var k := i + 2 * m + 1;
    if size < i + 4 {
    } else if IsBranchAt(b, i) {
      var b1 := RewriteAt(b, i, Here(nowPos, i), isEncoder);
      if m < 2 {
        ScanFrame(b1, size, i + 4, nowPos, isEncoder);
      } else {
        ScanKeepsHigh5(b1, size, i + 4, m - 2, nowPos, isEncoder);
      }
    } else if m == 0 {
      ScanFrame(b, size, i + 2, nowPos, isEncoder);
    } else {
      ScanKeepsHigh5(b, size, i + 2, m - 1, nowPos, isEncoder);
    }
  }

  /** After the scan from `i`, the halfword at `i` still starts a pair iff it did before. */
  lemma ScanKeepsBranchAt(b: seq<byte>, size: nat, i: nat, nowPos: uint32, isEncoder: bool)
    requires i + 4 <= size <= |b|
    ensures IsBranchAt(Scan(b, size, i, nowPos, isEncoder), i) == IsBranchAt(b, i)
  {
    ScanKeepsHigh5(b, size, i, 0, nowPos, isEncoder);
    ScanKeepsHigh5(b, size, i, 1, nowPos, isEncoder);
  }

  /**
   * Encoding and then decoding a buffer from the same even index at the
   * same even `now_pos`, or decoding and then encoding it, restores it.
   */
  lemma {:induction false} ScanRoundTrip(b: seq<byte>, size: nat, i: nat, nowPos: uint32, isEncoder: bool)
    requires size <= |b| && i % 2 == 0 && nowPos % 2 == 0
    ensures Scan(Scan(b, size, i, nowPos, isEncoder), size, i, nowPos, !isEncoder) == b
    decreases size - i
  {
    var t := Scan(b, size, i, nowPos, isEncoder);
    if size < i + 4 {
    } else if IsBranchAt(b, i) {
      var h := Here(nowPos, i);
      HereEven(nowPos, i);
      var b1 := RewriteAt(b, i, h, isEncoder);
      ScanKeepsBranchAt(b, size, i, nowPos, isEncoder);
      var u := Scan(b, size, i + 4, nowPos, isEncoder);
      RestoredPair(b, size, i, nowPos, isEncoder);
      assert Scan(t, size, i, nowPos, !isEncoder) == Scan(u, size, i + 4, nowPos, !isEncoder);
      EvenPlus(i, 2);
      ScanRoundTrip(b, size, i + 4, nowPos, isEncoder);
    } else {
      ScanKeepsBranchAt(b, size, i, nowPos, isEncoder);
      EvenPlus(i, 1);
      ScanRoundTrip(b, size, i + 2, nowPos, isEncoder);
    }
  }

  lemma EvenPlus(i: int, n: int)
    requires i % 2 == 0
    ensures (i + 2 * n) % 2 == 0
  {
  }

  /**
   * The step of `ScanRoundTrip` over a matched pair: scanning from `i`
   * and then rewriting the pair at `i` back gives the scan from `i + 4` of
   * the untouched buffer.
   */
  lemma RestoredPair(b: seq<byte>, size: nat, i: nat, nowPos: uint32, isEncoder: bool)
    requires i + 4 <= size <= |b| && IsBranchAt(b, i) && Here(nowPos, i) % 2 == 0
    ensures RewriteAt(Scan(b, size, i, nowPos, isEncoder), i, Here(nowPos, i), !isEncoder)
         == Scan(b, size, i + 4, nowPos, isEncoder)
  {
    var h := Here(nowPos, i);
    var b1 := RewriteAt(b, i, h, isEncoder);
    var t := Scan(b1, size, i + 4, nowPos, isEncoder);
    assert t == Scan(b, size, i, nowPos, isEncoder);
    var u := Scan(b, size, i + 4, nowPos, isEncoder);
    var r := RewriteAt(t, i, h, !isEncoder);
    ScanFrame(b1, size, i + 4, nowPos, isEncoder);
    ScanFrame(b, size, i + 4, nowPos, isEncoder);
    ScanLocal(b1, b, size, i + 4, nowPos, isEncoder);
    RewriteAtReads(t, b1, i, h, !isEncoder);
    PairInvolution(b, i, h, isEncoder);
    assert forall k | i <= k < i + 4 :: r[k] == b[k] by {
      assert forall k | i <= k < i + 4 :: r[k] == RewriteAt(b1, i, h, !isEncoder)[k];
    }
    assert forall k | 0 <= k < |b| :: r[k] == u[k];
  }

  /** A pair the scan from `i` rewrites lies in `[i, size)`, an even distance after `i`. */
  lemma {:induction false} MatchedIsBranch(b: seq<byte>, size: nat, i: nat, j: nat)
    requires size <= |b| && Matched(b, size, i, j)
    ensures i <= j && j + 4 <= size && IsBranchAt(b, j)
    ensures (j - i) % 2 == 0
    decreases size - i
  {
    if IsBranchAt(b, i) && j != i {
      MatchedIsBranch(b, size, i + 4, j);
    } else if !IsBranchAt(b, i) {
      MatchedIsBranch(b, size, i + 2, j);
    }
  }

  /** Which pairs the scan from `i` matches depends only on `[i, size)`. */
  lemma {:induction false} MatchedLocal(b: seq<byte>, c: seq<byte>, size: nat, i: nat, j: nat)
    requires size <= |b| == |c|
    requires forall k | i <= k < size :: b[k] == c[k]
    ensures Matched(b, size, i, j) == Matched(c, size, i, j)
    decreases size - i
  {
    if size < i + 4 {
    } else if IsBranchAt(b, i) {
      assert IsBranchAt(c, i);
      MatchedLocal(b, c, size, i + 4, j);
    } else {
      assert !IsBranchAt(c, i);
      MatchedLocal(b, c, size, i + 2, j);
    }
  }

  /** The scan matches the same pairs in its output as in its input. */
  lemma {:induction false} ScanKeepsWindows(b: seq<byte>, size: nat, i: nat, j: nat, nowPos: uint32, isEncoder: bool)
    requires size <= |b|
    ensures Matched(Scan(b, size, i, nowPos, isEncoder), size, i, j) == Matched(b, size, i, j)
    decreases size - i
  {
    var t := Scan(b, size, i, nowPos, isEncoder);
    if size < i + 4 {
    } else {
      ScanKeepsBranchAt(b, size, i, nowPos, isEncoder);
      if IsBranchAt(b, i) {
        var b1 := RewriteAt(b, i, Here(nowPos, i), isEncoder);
        ScanKeepsWindows(b1, size, i + 4, j, nowPos, isEncoder);
        MatchedLocal(b1, b, size, i + 4, j);
      } else {
        ScanKeepsWindows(b, size, i + 2, j, nowPos, isEncoder);
      }
    }
  }

  /** A byte that lies in no pair the scan from `i` matches is left unchanged. */
  lemma {:induction false} ScanOutsideWindows(b: seq<byte>, size: nat, i: nat, k: nat, nowPos: uint32, isEncoder: bool)
    requires size <= |b| && k < |b|
    requires forall j: nat | Matched(b, size, i, j) :: !(j <= k < j + 4)
    ensures Scan(b, size, i, nowPos, isEncoder)[k] == b[k]
    decreases size - i
  {
    if size < i + 4 {
    } else if IsBranchAt(b, i) {
      assert Matched(b, size, i, i);
      var b1 := RewriteAt(b, i, Here(nowPos, i), isEncoder);
      var next := i + 4;
      if k < i {
        ScanFrame(b1, size, next, nowPos, isEncoder);
      } else {
        forall j: nat | Matched(b1, size, next, j)
          ensures !(j <= k < j + 4)
        {
          MatchedLocal(b1, b, size, next, j);
          assert Matched(b, size, i, j);
        }
        ScanOutsideWindows(b1, size, next, k, nowPos, isEncoder);
      }
    } else {
      var next := i + 2;
      forall j: nat | Matched(b, size, next, j)
        ensures !(j <= k < j + 4)
      {
        assert Matched(b, size, i, j);
      }
      ScanOutsideWindows(b, size, next, k, nowPos, isEncoder);
    }
  }
}
