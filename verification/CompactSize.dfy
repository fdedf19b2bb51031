/** Sizes in one to nine bytes, as they precede serialized collections. */
module CompactSize {
  import opened Words
  import opened BitStream

  const MAX_SIZE := 0x1000_0000

  /** The bytes left after a size, or why there is none. */
  datatype Reading = Size(n: nat, rest: seq<Byte>) | EndOfData | NonCanonical | TooLarge

  /** A number in a given number of bytes, least significant first. */
  function LittleEndian(x: nat, bytes: nat): (r: seq<Byte>)
    ensures |r| == bytes
    decreases bytes
  {
    if bytes == 0 then [] else [x % 256] + LittleEndian(x / 256, bytes - 1)
  }

  function FromLittleEndian(s: seq<Byte>): nat {
    if s == [] then 0 else s[0] + 256 * FromLittleEndian(s[1..])
  }

  lemma {:induction false} LittleEndianReadsBack(x: nat, bytes: nat)
    requires x < Pow2(8 * bytes)
    ensures FromLittleEndian(LittleEndian(x, bytes)) == x
    decreases bytes
  {
    if bytes > 0 {
      NextByte(bytes);
      LittleEndianReadsBack(x / 256, bytes - 1);
      assert LittleEndian(x, bytes)[1..] == LittleEndian(x / 256, bytes - 1);
    }
  }

  lemma {:induction false} BytesReadBack(s: seq<Byte>)
    ensures FromLittleEndian(s) < Pow2(8 * |s|) && LittleEndian(FromLittleEndian(s), |s|) == s
  {
    if s != [] {
      BytesReadBack(s[1..]);
      NextByte(|s|);
      assert s == [s[0]] + s[1..];
    }
  }

  lemma NextByte(bytes: nat)
    requires bytes > 0
    ensures Pow2(8 * bytes) == 256 * Pow2(8 * (bytes - 1))
  {
    hide Pow2;
    Pow2Values();
    Pow2Add(8, 8 * (bytes - 1));
  }

  function WriteCompactSize(n: nat): seq<Byte> {
    if n < 253 then [n]
    else if n <= 0xFFFF then [253] + LittleEndian(n, 2)
    else if n <= 0xFFFF_FFFF then [254] + LittleEndian(n, 4)
    else [255] + LittleEndian(n, 8)
  }

  /** A size read from some bytes, which is to be at least `least`. */
  function ReadBytes(s: seq<Byte>, bytes: nat, least: nat): Reading {
    if |s| < bytes then EndOfData
    else
      var n := FromLittleEndian(s[..bytes]);
      if n < least then NonCanonical else Size(n, s[bytes..])
  }

  function ReadCompactSize(s: seq<Byte>): Reading {
    if s == [] then EndOfData
    else
      var r := if s[0] < 253 then Size(s[0], s[1..])
               else if s[0] == 253 then ReadBytes(s[1..], 2, 253)
               else if s[0] == 254 then ReadBytes(s[1..], 4, 0x1_0000)
               else ReadBytes(s[1..], 8, 0x1_0000_0000);
      if r.Size? && r.n > MAX_SIZE then TooLarge else r
  }

  lemma ReadBytesBack(n: nat, bytes: nat, least: nat, rest: seq<Byte>)
    requires least <= n < Pow2(8 * bytes)
    ensures ReadBytes(LittleEndian(n, bytes) + rest, bytes, least) == Size(n, rest)
  {
    var s := LittleEndian(n, bytes) + rest;
    assert s[..bytes] == LittleEndian(n, bytes) && s[bytes..] == rest;
    LittleEndianReadsBack(n, bytes);
  }

  /** What is written reads back, unless it is too large to be read. */
  lemma SizeReadsBack(n: nat, rest: seq<Byte>)
    requires n < UINT64_RANGE
    ensures ReadCompactSize(WriteCompactSize(n) + rest) == if n <= MAX_SIZE then Size(n, rest) else TooLarge
  {
    hide LittleEndian, FromLittleEndian, ReadBytes, Pow2;
    Pow2Values();
    Pow2Add(32, 32);
    var s := WriteCompactSize(n) + rest;
    if n < 253 {
      assert s[1..] == rest;
    } else {
      var bytes := if n <= 0xFFFF then 2 else if n <= 0xFFFF_FFFF then 4 else 8;
      assert s[1..] == LittleEndian(n, bytes) + rest;
      ReadBytesBack(n, bytes, if bytes == 2 then 253 else if bytes == 4 then 0x1_0000 else 0x1_0000_0000, rest);
    }
  }

  lemma ReadBytesCanonical(s: seq<Byte>, bytes: nat, least: nat)
    requires ReadBytes(s, bytes, least).Size?
    ensures var r := ReadBytes(s, bytes, least);
            least <= r.n < Pow2(8 * bytes) && s == LittleEndian(r.n, bytes) + r.rest
  {
    BytesReadBack(s[..bytes]);
    assert s == s[..bytes] + s[bytes..];
  }

  /** Only what would have been written is read. */
  lemma ReadIsCanonical(s: seq<Byte>)
    requires ReadCompactSize(s).Size?
    ensures var r := ReadCompactSize(s); r.n <= MAX_SIZE && s == WriteCompactSize(r.n) + r.rest
  {
    hide LittleEndian, FromLittleEndian, ReadBytes, Pow2;
    Pow2Values();
    var r := ReadCompactSize(s);
    assert s == [s[0]] + s[1..];
    if s[0] >= 253 {
      var bytes := if s[0] == 253 then 2 else if s[0] == 254 then 4 else 8;
      var least := if s[0] == 253 then 253 else if s[0] == 254 then 0x1_0000 else 0x1_0000_0000;
      ReadBytesCanonical(s[1..], bytes, least);
      assert [s[0]] + (LittleEndian(r.n, bytes) + r.rest) == [s[0]] + LittleEndian(r.n, bytes) + r.rest;
    }
  }
}
