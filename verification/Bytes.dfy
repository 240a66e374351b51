/** Bytes, machine integers and the few chunk operations (chunk.h, align.h, bio_reader.c,
    bio_writer.c) the modelled code relies on. */
module Bytes {

  type Byte = b: int | 0 <= b < 0x100
  type U16 = x: int | 0 <= x < 0x1_0000
  type U32 = x: int | 0 <= x < 0x1_0000_0000

  datatype Option<+T> = None | Some(value: T)

  /** Truncation to uint8_t, uint16_t and uint32_t. */
  function ToU8(x: int): (r: Byte)
    ensures 0 <= x < 0x100 ==> r == x
  {
    x % 0x100
  }

  function ToU16(x: int): (r: U16)
    ensures 0 <= x < 0x1_0000 ==> r == x
  {
    x % 0x1_0000
  }

  function ToU32(x: int): (r: U32)
    ensures 0 <= x < 0x1_0000_0000 ==> r == x
  {
    x % 0x1_0000_0000
  }

  function Min(a: int, b: int): int { if a < b then a else b }

  function Max(a: int, b: int): int { if a > b then a else b }

  /** pad_len of align.h */
  function PadLen(size: nat, alignment: nat): (n: nat)
    requires alignment > 0
    ensures n < alignment && (size + n) % alignment == 0
  {
    var remainder := size % alignment;
    PadLenAligns(size, alignment);
    if remainder > 0 then alignment - remainder else 0
  }

  lemma PadLenAligns(size: nat, alignment: nat)
    requires alignment > 0
    ensures size % alignment > 0 ==> (size + (alignment - size % alignment)) % alignment == 0
  {
    var q := size / alignment;
    assert size == q * alignment + size % alignment;
    assert (q + 1) * alignment == q * alignment + alignment;
    DivModUnique((q + 1) * alignment, alignment, q + 1, 0);
  }

  lemma DivModUnique(x: int, n: int, q: int, r: int)
    requires 0 <= r < n && x == q * n + r
    ensures x / n == q && x % n == r
  {
    var d := q - x / n;
    assert x == (x / n) * n + x % n;
    assert d * n == x % n - r;
    assert d >= 1 ==> d * n >= n;
    assert d <= -1 ==> d * n <= -n;
  }

  /** chunk_skip: an empty chunk when nothing would be left */
  function Skip(s: seq<Byte>, n: nat): (r: seq<Byte>) {
    if |s| > n then s[n..] else []
  }

  /** Big-endian encodings as written by bio_writer_t. */
  function Be16(x: U16): (s: seq<Byte>)
    ensures |s| == 2
  {
    [x / 0x100, x % 0x100]
  }

  function Be32(x: U32): (s: seq<Byte>)
    ensures |s| == 4
  {
    Be16(x / 0x1_0000) + Be16(x % 0x1_0000)
  }

  function FromBe16(s: seq<Byte>): (x: U16)
    requires |s| >= 2
  {
    (s[0] as int) * 0x100 + s[1]
  }

  function FromBe32(s: seq<Byte>): (x: U32)
    requires |s| >= 4
  {
    (FromBe16(s[..2]) as int) * 0x1_0000 + FromBe16(s[2..4])
  }

  lemma Be32RoundTrip(x: U32, rest: seq<Byte>)
    ensures FromBe32(Be32(x) + rest) == x
  {
    var s := Be32(x) + rest;
    assert s[..2] == Be16(x / 0x1_0000) + [] && s[2..4] == Be16(x % 0x1_0000) + [];
    Be16RoundTrip(x / 0x1_0000, []);
    Be16RoundTrip(x % 0x1_0000, []);
  }

  lemma Be16RoundTrip(x: U16, rest: seq<Byte>)
    ensures FromBe16(Be16(x) + rest) == x
  {
  }

  /** The number a chunk stands for in network byte order */
  ghost function Number(s: seq<Byte>): nat {
    if s == [] then 0 else 0x100 * Number(s[..|s| - 1]) + s[|s| - 1]
  }

  lemma NumberOfTwo(a: Byte, b: Byte)
    ensures Number([a, b]) == 0x100 * a + b
  {
    assert [a, b][..1] == [a] && [a][..0] == [];
    assert Number([a]) == a;
  }

  lemma NumberOfThree(s: seq<Byte>)
    requires |s| == 3
    ensures Number(s) == 0x1_0000 * s[0] as int + FromBe16(s[1..])
  {
    assert s[..2] == [s[0], s[1]];
    NumberOfTwo(s[0], s[1]);
  }

  lemma NumberOfFour(s: seq<Byte>)
    requires |s| == 4
    ensures Number(s) == FromBe32(s)
  {
    assert s[..3][..2] == s[..2] && s[..3][2] == s[2];
    assert Number(s) == 0x100 * Number(s[..3]) + s[3] && Number(s[..3]) == 0x100 * Number(s[..2]) + s[2];
    NumberOfTwo(s[0], s[1]);
    assert s[..2] == [s[0], s[1]];
  }

  /** The encodings are the big-endian ones. */
  lemma BigEndian(x: U32, y: U16)
    ensures Number(Be32(x)) == x && Number(Be16(y)) == y
    ensures forall s: seq<Byte> | |s| == 2 :: FromBe16(s) == Number(s)
  {
    var s := Be32(x);
    assert s[..3][..2] == s[..2] == Be16(x / 0x1_0000) && s[..3][2] == s[2] && s[..3] == s[..3];
    NumberOfTwo(s[0], s[1]);
    assert s[..2] == [s[0], s[1]];
    assert Number(s) == 0x100 * Number(s[..3]) + s[3] && Number(s[..3]) == 0x100 * Number(s[..2]) + s[2];
    NumberOfTwo(y / 0x100, y % 0x100);
    forall s: seq<Byte> | |s| == 2 ensures FromBe16(s) == Number(s) {
      NumberOfTwo(s[0], s[1]);
      assert s == [s[0], s[1]];
    }
  }

  function Zeros(n: nat): (s: seq<Byte>)
    ensures |s| == n && forall i | 0 <= i < n :: s[i] == 0
  {
    seq(n, i => 0)
  }

  ghost predicate IsSuffix(s: seq<Byte>, t: seq<Byte>) { |s| <= |t| && s == t[|t| - |s|..] }
}
