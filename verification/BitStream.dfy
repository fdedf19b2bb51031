/** Bit streams over bytes: bits are buffered in a byte, most significant first. */
module BitStream {
  import opened Bounds
  import opened Words

  const UINT64_RANGE := 0x1_0000_0000_0000_0000

  // ----- Numbers as bits --------------------------------------------------------------------------------------

  /** The `n` least significant bits of a number, most significant first. */
  ghost function LowBits(x: nat, n: nat): (r: seq<bool>)
    ensures |r| == n
    decreases n
  {
    if n == 0 then [] else LowBits(x / 2, n - 1) + [x % 2 == 1]
  }

  ghost function FromBits(s: seq<bool>): nat {
    if s == [] then 0 else 2 * FromBits(s[..|s| - 1]) + (if s[|s| - 1] then 1 else 0)
  }

  lemma ModHalves(x: nat, p: nat)
    requires p > 0
    ensures x % (2 * p) == 2 * ((x / 2) % p) + x % 2
  {
    var q, r := (x / 2) / p, (x / 2) % p;
    assert x / 2 == q * p + r;
    assert x == q * (2 * p) + (2 * r + x % 2);
    DivUnique(x, 2 * p, q, 2 * r + x % 2);
  }

  lemma {:induction false} LowBitsValue(x: nat, n: nat)
    ensures FromBits(LowBits(x, n)) == x % Pow2(n)
    decreases n
  {
    if n > 0 {
      var s := LowBits(x, n);
      assert s[..n - 1] == LowBits(x / 2, n - 1);
      LowBitsValue(x / 2, n - 1);
      ModHalves(x, Pow2(n - 1));
    }
  }

  /** A number above and below a power of two gives the bits of both. */
  lemma {:induction false} LowBitsJoin(h: nat, l: nat, n: nat, k: nat)
    requires l < Pow2(k)
    ensures h * Pow2(k) >= 0 && LowBits(h * Pow2(k) + l, n + k) == LowBits(h, n) + LowBits(l, k)
    decreases k
  {
    NonNegative(h, Pow2(k));
    if k == 0 {
      assert h * Pow2(0) == h;
      assert LowBits(h, n) + [] == LowBits(h, n);
    } else {
      var p := Pow2(k - 1);
      assert h * (2 * p) == 2 * (h * p);
      NonNegative(h, p);
      Halve(h * p, l);
      LowBitsJoin(h, l / 2, n, k - 1);
    }
  }

  lemma Halve(y: nat, l: nat)
    ensures (2 * y + l) / 2 == y + l / 2 && (2 * y + l) % 2 == l % 2
  {
  }

  /** Only the low bits of a number matter. */
  lemma LowBitsSplit(x: nat, n: nat, k: nat)
    ensures x / Pow2(k) >= 0 && LowBits(x, n + k) == LowBits(x / Pow2(k), n) + LowBits(x, k)
  {
    hide Pow2, LowBits;
    var p := Pow2(k);
    DivBounds(x, p);
    LowBitsJoin(x / p, x % p, n, k);
    assert x == (x / p) * p + x % p;
    LowBitsModulo(x, k);
  }

  lemma DivBounds(x: nat, p: nat)
    requires p > 0
    ensures x / p >= 0 && 0 <= x % p < p
  {
  }

  lemma {:induction false} LowBitsModulo(x: nat, n: nat)
    ensures LowBits(x % Pow2(n), n) == LowBits(x, n)
    decreases n
  {
    if n > 0 {
      var p := Pow2(n - 1);
      ModHalves(x, p);
      DivBounds(x / 2, p);
      LowBitsModulo(x / 2, n - 1);
    }
  }

  lemma {:induction false} FromBitsJoin(s: seq<bool>, t: seq<bool>)
    ensures FromBits(s + t) == FromBits(s) * Pow2(|t|) + FromBits(t)
    decreases |t|
  {
    if t == [] {
      assert s + t == s;
    } else {
      var t' := t[..|t| - 1];
      FromBitsJoin(s, t');
      assert (s + t)[..|s + t| - 1] == s + t';
      var p := Pow2(|t'|);
      assert FromBits(s) * (2 * p) == 2 * (FromBits(s) * p);
    }
  }

  lemma {:induction false} FromBitsBound(s: seq<bool>)
    ensures FromBits(s) < Pow2(|s|)
  {
    if s != [] { FromBitsBound(s[..|s| - 1]); }
  }

  // ----- Bytes --------------------------------------------------------------------------------------------------

  type Byte = x: int | 0 <= x < 256

  ghost function BytesBits(s: seq<Byte>): (r: seq<bool>)
    ensures |r| == 8 * |s|
  {
    if s == [] then [] else BytesBits(s[..|s| - 1]) + LowBits(s[|s| - 1], 8)
  }

  lemma BytesSnoc(s: seq<Byte>, b: Byte)
    ensures BytesBits(s + [b]) == BytesBits(s) + LowBits(b, 8)
  {
    assert (s + [b])[..|s|] == s;
  }

  lemma {:induction false} BitAt(s: seq<Byte>, i: nat, k: nat)
    requires i < |s| && k < 8
    ensures BytesBits(s)[8 * i + k] == LowBits(s[i], 8)[k]
  {
    hide LowBits;
    var t := s[..|s| - 1];
    if i < |t| { BitAt(t, i, k); }
  }

  // ----- Shifts ---------------------------------------------------------------------------------------------------

  lemma Scaled(a: nat, q: nat, p: nat)
    requires p > 0 && q > 0
    ensures q * p > 0 && (a * p) % (q * p) == (a % q) * p && (a * p) / (q * p) == a / q
  {
    var d, r := a / q, a % q;
    ProductBelow(0, q, p);
    ProductBelow(r, q, p);
    ThreeDigits(d, r, 0, q, p);
    DivUnique(a * p, q * p, d, r * p);
  }

  /** A multiple of `p` below `q * p` stays below it with anything below `p` added. */
  lemma BelowMultiple(h: nat, x: nat, q: nat, p: nat)
    requires x < p && h * p < q * p
    ensures h * p + x < q * p
  {
    assert (h - q) * p == h * p - q * p && (q - 1 - h) * p == q * p - p - h * p;
    if h < q { NonNegative(q - 1 - h, p); } else { NonNegative(h - q, p); }
  }

  lemma ProductBelow(d: nat, q: nat, p: nat)
    requires d < q && 0 < p
    ensures 0 <= d * p < q * p
  {
    NonNegative(d, p);
    NonNegative(q - 1 - d, p);
    assert (q - 1 - d) * p == q * p - p - d * p;
  }

  /** The upper digits of a remainder. */
  lemma DivOfMod(a: nat, p: nat, q: nat)
    requires p > 0 && q > 0
    ensures q * p > 0 && (a % (q * p)) / p == (a / p) % q
  {
    var h, l := a / p, a % p;
    var hh, hl := h / q, h % q;
    ProductBelow(0, q, p);
    ProductBelow(hl, q, p);
    BelowMultiple(hl, l, q, p);
    ThreeDigits(hh, hl, l, q, p);
    DivUnique(a, q * p, hh, hl * p + l);
    DivUnique(hl * p + l, p, hl, l);
  }

  lemma ThreeDigits(a: int, b: int, c: int, q: int, p: int)
    ensures (a * q + b) * p + c == a * (q * p) + (b * p + c)
  {
  }

  /** `x << k` in a word of `w` bits. */
  function ShiftLeft(x: nat, k: nat, w: nat): nat {
    NonNegative(x, Pow2(k));
    (x * Pow2(k)) % Pow2(w)
  }

  function ShiftRight(x: nat, k: nat): nat {
    DivBounds(x, Pow2(k));
    x / Pow2(k)
  }

  /** Shifting up drops the bits above. */
  lemma ShiftLeftDrops(x: nat, k: nat, w: nat)
    requires k <= w
    ensures ShiftLeft(x, k, w) == (x % Pow2(w - k)) * Pow2(k)
  {
    hide Pow2;
    Pow2Add(w - k, k);
    Scaled(x, Pow2(w - k), Pow2(k));
  }

  /** Shifting up and further down picks bits from the middle of a word. */
  lemma Middle(x: nat, up: nat, w: nat, n: nat)
    requires up + n <= w
    ensures ShiftRight(ShiftLeft(x, up, w), w - n) == ShiftRight(x, w - up - n) % Pow2(n)
  {
    hide Pow2;
    var k := w - up - n;
    var p, q, u := Pow2(k), Pow2(n), Pow2(up);
    ShiftLeftDrops(x, up, w);
    Pow2Add(n, k);
    Pow2Add(k, up);
    DivBounds(x, Pow2(w - up));
    Scaled(x % Pow2(w - up), p, u);
    DivOfMod(x, p, q);
  }

  lemma {:induction false} BitsOfMiddle(x: nat, skip: nat, n: nat, k: nat)
    ensures LowBits(x, skip + n + k)[skip..skip + n] == LowBits(ShiftRight(x, k) % Pow2(n), n)
  {
    hide Pow2, LowBits;
    LowBitsSplit(x, skip + n, k);
    LowBitsSplit(ShiftRight(x, k), skip, n);
    LowBitsModulo(ShiftRight(x, k), n);
  }

  // ----- Writing --------------------------------------------------------------------------------------------------

  /** The first of the `n` low bits of a number, moved to the top of `room` bits. */
  function Chunk(data: nat, n: nat, room: nat): nat
    requires n <= 64 && room <= 64
  {
    ShiftRight(ShiftLeft(data, 64 - n, 64), 64 - room)
  }

  lemma WideChunk(data: nat, n: nat, room: nat)
    requires room <= n <= 64
    ensures Chunk(data, n, room) < Pow2(room) && LowBits(Chunk(data, n, room), room) == LowBits(data, n)[..room]
  {
    hide Pow2, LowBits, ShiftLeft, ShiftRight;
    Middle(data, 64 - n, 64, room);
    BitsOfMiddle(data, 0, room, n - room);
    DivBounds(ShiftRight(data, n - room), Pow2(room));
  }

  lemma NarrowChunkValue(data: nat, n: nat, room: nat)
    requires n <= room <= 64
    ensures Chunk(data, n, room) == (data % Pow2(n)) * Pow2(room - n)
  {
    hide Pow2;
    var d := data % Pow2(n);
    ShiftLeftDrops(data, 64 - n, 64);
    Pow2Add(room - n, 64 - room);
    Cancelled(d, Pow2(room - n), Pow2(64 - room));
  }

  lemma Cancelled(d: int, p: nat, z: nat)
    requires d >= 0 && z > 0
    ensures (d * (p * z)) / z == d * p
  {
    NonNegative(d, p);
    assert d * (p * z) == z * (d * p);
    MultipleOf(z, d * p);
  }

  lemma NarrowChunk(data: nat, n: nat, room: nat)
    requires n <= room <= 64
    ensures Chunk(data, n, room) < Pow2(room) && LowBits(Chunk(data, n, room), room)[..n] == LowBits(data, n)
    ensures Chunk(data, n, room) % Pow2(room - n) == 0
  {
    hide Pow2, LowBits, Chunk;
    var d, p := data % Pow2(n), Pow2(room - n);
    DivBounds(data, Pow2(n));
    NarrowChunkValue(data, n, room);
    Pow2Add(n, room - n);
    ProductBelow(d, Pow2(n), p);
    MultipleOf(p, d);
    LowBitsJoin(d, 0, n, room - n);
    LowBitsModulo(data, n);
  }

  /** Or-ing a number into the free low bits of a byte adds its bits. */
  lemma FillByte(buffer: Byte, offset: nat, x: nat)
    requires offset < 8 && buffer % Pow2(8 - offset) == 0 && x < Pow2(8 - offset)
    ensures BitOr(buffer, x) == buffer + x < 256
    ensures LowBits(buffer + x, 8) == LowBits(buffer, 8)[..offset] + LowBits(x, 8 - offset)
  {
    hide Pow2, LowBits, BitOr;
    var room := 8 - offset;
    var p := Pow2(room);
    var h := buffer / p;
    DivBounds(buffer, p);
    OrAdds(buffer, x, room);
    assert buffer == h * p;
    Pow2Values();
    Pow2Add(offset, room);
    BelowMultiple(h, x, Pow2(offset), p);
    LowBitsJoin(h, x, offset, room);
    LowBitsSplit(buffer, offset, room);
  }

  /** Or-ing a chunk into the free low bits of a byte appends its bits. */
  lemma AppendChunk(buffer: Byte, offset: nat, data: nat, n: nat)
    requires offset < 8 && 0 < n <= 64 && buffer % Pow2(8 - offset) == 0
    ensures var x, k := Chunk(data, n, 8 - offset), Min(8 - offset, n);
            && BitOr(buffer, x) < 256 && BitOr(buffer, x) % Pow2(8 - offset - k) == 0
            && LowBits(BitOr(buffer, x), 8)[..offset + k] == LowBits(buffer, 8)[..offset] + LowBits(data, n)[..k]
            && LowBits(data, n)[k..] == LowBits(data, n - k)
  {
    hide Pow2, LowBits, Chunk, BitOr;
    var room := 8 - offset;
    var x, k := Chunk(data, n, room), Min(room, n);
    if room <= n { WideChunk(data, n, room); } else { NarrowChunk(data, n, room); }
    FillByte(buffer, offset, x);
    LowBitsSplit(data, k, n - k);
    FreeBits(buffer, x, room, room - k);
  }

  lemma FreeBits(buffer: nat, x: nat, room: nat, free: nat)
    requires free <= room && buffer % Pow2(room) == 0 && (free == 0 || x % Pow2(free) == 0)
    ensures (buffer + x) % Pow2(free) == 0
  {
    if free == 0 {
      assert Pow2(0) == 1;
    } else {
      Pow2Add(room - free, free);
      SumOfMultiples(buffer, x, Pow2(room - free), Pow2(free));
    }
  }

  lemma SumOfMultiples(y: nat, x: nat, q: nat, p: nat)
    requires p > 0 && q * p > 0 && y % (q * p) == 0 && x % p == 0
    ensures (y + x) % p == 0
  {
    var a, b := y / (q * p), x / p;
    assert x == b * p;
    assert y == a * (q * p) == (a * q) * p;
    assert (a * q) * p + b * p == (a * q + b) * p;
    DivUnique(y + x, p, a * q + b, 0);
  }

  /** Free bits are zeros. */
  lemma ZerosBelow(buffer: Byte, offset: nat)
    requires offset <= 8 && buffer % Pow2(8 - offset) == 0
    ensures LowBits(buffer, 8) == LowBits(buffer, 8)[..offset] + LowBits(0, 8 - offset)
  {
    hide Pow2, LowBits;
    if offset < 8 {
      FillByte(buffer, offset, 0);
    }
  }

  lemma NothingBuffered(room: nat)
    ensures 0 % Pow2(room) == 0 && LowBits(0, 0) == [] && BytesBits([]) == []
  {
    hide Pow2;
    MultipleOf(Pow2(room), 0);
  }

  lemma Moved(a: seq<bool>, b: seq<bool>, c: seq<bool>, d: seq<bool>)
    ensures (a + (b + c)) + d == (a + b) + (c + d)
  {
  }

  /** Buffers bits until they make a byte. */
  class BitStreamWriter {
    var out: seq<Byte>
    var buffer: Byte
    var offset: nat

    /** The buffer's bits that are not in use are zeros. */
    ghost predicate Padded()
      reads this
    {
      offset <= 8 && buffer % Pow2(8 - offset) == 0
    }

    ghost predicate Valid()
      reads this
    {
      Padded() && offset < 8
    }

    /** All bits written so far. */
    ghost function Bits(): seq<bool>
      requires Padded()
      reads this
    {
      BytesBits(out) + LowBits(buffer, 8)[..offset]
    }

    constructor ()
      ensures Valid() && Bits() == []
    {
      hide Pow2, LowBits, BytesBits;
      out, buffer, offset := [], 0, 0;
      NothingBuffered(8);
    }

    /** Writes the `nbits` least significant bits; more than 64 are an error. */
    method Write(data: nat, nbits: nat) returns (ok: bool)
      requires Valid()
      modifies this
      ensures Valid() && (ok <==> nbits <= 64)
      ensures Bits() == if ok then old(Bits()) + LowBits(data, nbits) else old(Bits())
    {
      hide Pow2, LowBits, BytesBits, Chunk, BitOr;
      if nbits > 64 {
        return false;
      }
      var n := nbits;
      ghost var before := Bits();
      NothingBuffered(0);
      while n > 0
        invariant Valid() && 0 <= n <= nbits && Bits() + LowBits(data, n) == before + LowBits(data, nbits)
      {
        ghost var whole, low, left := BytesBits(out), LowBits(buffer, 8)[..offset], LowBits(data, n);
        AppendChunk(buffer, offset, data, n);
        var bits := Min(8 - offset, n);
        buffer := BitOr(buffer, Chunk(data, n, 8 - offset));
        offset := offset + bits;
        n := n - bits;
        Moved(whole, low, left[..bits], LowBits(data, n));
        assert left == left[..bits] + LowBits(data, n);
        if offset == 8 {
          Flush();
        }
      }
      return true;
    }

    /** Hands on the buffered bits, filled up with zeros to a byte. */
    method Flush()
      requires Padded()
      modifies this
      ensures Valid() && offset == 0 && Bits() == BytesBits(out)
      ensures Bits() == old(Bits()) + LowBits(0, if old(offset) == 0 then 0 else 8 - old(offset))
    {
      hide Pow2, LowBits, BytesBits;
      NothingBuffered(8);
      if offset == 0 {
        return;
      }
      ZerosBelow(buffer, offset);
      BytesSnoc(out, buffer);
      out := out + [buffer];
      buffer, offset := 0, 0;
    }
  }

  // ----- Reading --------------------------------------------------------------------------------------------------

  /** Some bits of a byte, shifted down. */
  function Extract(buffer: Byte, offset: nat, n: nat): nat
    requires n <= 8
  {
    ShiftRight(ShiftLeft(buffer, offset, 8), 8 - n)
  }

  lemma Extracted(buffer: Byte, offset: nat, n: nat)
    requires offset + n <= 8
    ensures Extract(buffer, offset, n) == FromBits(LowBits(buffer, 8)[offset..offset + n]) < Pow2(n)
  {
    hide Pow2, LowBits, FromBits, ShiftLeft, ShiftRight;
    var k := 8 - offset - n;
    Middle(buffer, offset, 8, n);
    BitsOfMiddle(buffer, offset, n, k);
    var x := ShiftRight(buffer, k) % Pow2(n);
    DivBounds(ShiftRight(buffer, k), Pow2(n));
    LowBitsValue(x, n);
    LowBitsModulo(x, n);
    FromBitsBound(LowBits(x, n));
    DivUnique(x, Pow2(n), 0, x);
  }

  /** Shifting in the bits that follow. */
  lemma ShiftIn(s: seq<bool>, t: seq<bool>)
    requires |s| + |t| <= 64
    ensures BitOr(ShiftLeft(FromBits(s), |t|, 64), FromBits(t)) == FromBits(s + t)
  {
    hide Pow2, FromBits, BitOr;
    FromBitsBound(s);
    FromBitsBound(t);
    var p, q := Pow2(|t|), Pow2(|s|);
    Pow2Add(64 - |t|, |t|);
    Pow2Monotone(|s|, 64 - |t|);
    ProductBelow(FromBits(s), Pow2(64 - |t|), p);
    DivUnique(FromBits(s) * p, Pow2(64), 0, FromBits(s) * p);
    MultipleOf(p, FromBits(s));
    OrAdds(FromBits(s) * p, FromBits(t), |t|);
    FromBitsJoin(s, t);
  }

  class BitStreamReader {
    const bytes: seq<Byte>
    var next: nat
    var buffer: Byte
    var offset: nat

    ghost predicate Buffered()
      reads this
    {
      next <= |bytes| && offset <= 8 && (offset < 8 ==> next > 0 && buffer == bytes[next - 1])
    }

    /** A byte is buffered only to read from it. */
    ghost predicate Valid()
      reads this
    {
      Buffered() && offset > 0
    }

    ghost function Bits(): (r: seq<bool>)
      ensures |r| == 8 * |bytes|
    {
      BytesBits(bytes)
    }

    /** The bits of the buffered byte that are read next. */
    lemma NextBits(n: nat)
      requires Buffered() && offset + n <= 8 && offset < 8
      ensures Pos() + n <= |Bits()| && Extract(buffer, offset, n) == FromBits(Bits()[Pos()..Pos() + n])
    {
      hide BytesBits, LowBits, FromBits, Extract;
      ByteAt(bytes, next - 1);
      Within(BytesBits(bytes), 8 * (next - 1), LowBits(buffer, 8), offset, n);
      Extracted(buffer, offset, n);
    }

    lemma Longer(data: nat, start: nat, n: nat)
      requires Buffered() && start <= Pos() && Pos() + n <= |Bits()| && Pos() + n <= start + 64
      requires data == FromBits(Bits()[start..Pos()])
      ensures BitOr(ShiftLeft(data, n, 64), FromBits(Bits()[Pos()..Pos() + n])) == FromBits(Bits()[start..Pos() + n])
    {
      hide FromBits, BitOr, ShiftLeft, Bits;
      var all, here := Bits(), Pos();
      ShiftIn(all[start..here], all[here..here + n]);
      assert all[start..here] + all[here..here + n] == all[start..here + n];
    }

    /** The number of bits read so far. */
    ghost function Pos(): (r: nat)
      requires Buffered()
      reads this
      ensures r <= |Bits()|
    {
      8 * next - (8 - offset)
    }

    constructor (bytes: seq<Byte>)
      ensures this.bytes == bytes && Valid() && next == 0 && Pos() == 0
    {
      this.bytes, next, buffer, offset := bytes, 0, 0, 8;
    }

    /** Reads `nbits` bits as a number; reading past the end fails, and so does reading more than 64. */
    method Read(nbits: nat) returns (ok: bool, data: nat)
      requires Valid()
      modifies this
      ensures Valid()
      ensures ok <==> nbits <= 64 && old(Pos()) + nbits <= |Bits()|
      ensures nbits > 64 ==> Pos() == old(Pos())
      ensures ok ==> Pos() == old(Pos()) + nbits && data == FromBits(Bits()[old(Pos())..Pos()])
    {
      hide FromBits, Bits, Extract, BitOr, ShiftLeft;
      if nbits > 64 {
        return false, 0;
      }
      ghost var all, start := Bits(), Pos();
      data := 0;
      NoBits(all, start);
      var n := nbits;
      while n > 0
        invariant Valid() && 0 <= n <= nbits && Pos() == start + nbits - n
        invariant data == FromBits(all[start..Pos()])
      {
        if offset == 8 {
          if next == |bytes| {
            return false, 0;
          }
          buffer, next, offset := bytes[next], next + 1, 0;
        }
        var bits := Min(8 - offset, n);
        NextBits(bits);
        Longer(data, start, bits);
        data := BitOr(ShiftLeft(data, bits, 64), Extract(buffer, offset, bits));
        offset, n := offset + bits, n - bits;
      }
      ok := true;
    }
  }

  lemma NoBits(s: seq<bool>, from: nat)
    requires from <= |s|
    ensures FromBits(s[from..from]) == 0
  {
  }

  ghost predicate Agree(s: seq<bool>, at: nat, t: seq<bool>, k: nat)
    requires at + |t| <= |s| && k < |t|
  {
    s[at + k] == t[k]
  }

  lemma ByteAt(bytes: seq<Byte>, i: nat)
    requires i < |bytes|
    ensures 8 * i + 8 <= |BytesBits(bytes)|
    ensures forall k: nat :: k < 8 ==> Agree(BytesBits(bytes), 8 * i, LowBits(bytes[i], 8), k)
  {
    hide BytesBits, LowBits;
    forall k: nat | k < 8 ensures Agree(BytesBits(bytes), 8 * i, LowBits(bytes[i], 8), k) {
      BitAt(bytes, i, k);
    }
  }

  lemma Within(s: seq<bool>, at: nat, t: seq<bool>, from: nat, n: nat)
    requires at + |t| <= |s| && from + n <= |t| && forall k: nat :: k < |t| ==> Agree(s, at, t, k)
    ensures s[at + from..at + from + n] == t[from..from + n]
  {
    var a, b := s[at + from..at + from + n], t[from..from + n];
    forall k: nat | k < n ensures a[k] == b[k] {
      assert Agree(s, at, t, from + k);
    }
    assert a == b;
  }
}
