/** Bytes, 4096-byte blocks and the two integer byte orders the on-disk formats use. */
module Bytes {

  const BLOCK_SIZE: nat := 4096

  type Byte = x: int | 0 <= x < 0x100
  type U32 = x: int | 0 <= x < 0x1_0000_0000
  type Block = b: seq<Byte> | |b| == BLOCK_SIZE witness seq(BLOCK_SIZE, _ => 0)

  /** The content of a whole device, one entry per block address. */
  type Image = seq<Block>

  function Zero(): Block { seq(BLOCK_SIZE, _ => 0) }

  datatype Result<T> = Ok(value: T) | Err(error: Error)

  datatype Error =
    | IOError
    | OutOfRange
    | BadLength
    | TooLarge
    | NoSpace
    | TooBig
    | InvalidBlock
    | InvalidArg
    | NotFound
    | NotDir
    | IsDir
    | Exists
    | NotEmpty
    | NameTooLong
    | Loop
    | BadFS
    | Pinned

  function Min(a: int, b: int): int { if a <= b then a else b }

  // ---------------------------------------------------------------- words

  /** The 32-bit word with the given bytes, most significant first. */
  function Word(b3: Byte, b2: Byte, b1: Byte, b0: Byte): U32 {
    var x3: int, x2: int, x1: int := b3, b2, b1;
    x3 * 0x100_0000 + x2 * 0x1_0000 + x1 * 0x100 + b0
  }

  function Byte3(v: U32): Byte { v / 0x100_0000 }
  function Byte2(v: U32): Byte { v / 0x1_0000 % 0x100 }
  function Byte1(v: U32): Byte { v / 0x100 % 0x100 }
  function Byte0(v: U32): Byte { v % 0x100 }

  lemma WordSplit(v: U32)
    ensures Word(Byte3(v), Byte2(v), Byte1(v), Byte0(v)) == v
  {
    var a, b, c := v / 0x100, v / 0x1_0000, v / 0x100_0000;
    assert b == a / 0x100 && c == b / 0x100;
    assert v == a * 0x100 + v % 0x100 && a == b * 0x100 + a % 0x100 && b == c * 0x100 + b % 0x100;
  }

  /** Four consecutive bytes replaced, as every PutUint32 does. */
  function Put4(b: seq<Byte>, pos: nat, c0: Byte, c1: Byte, c2: Byte, c3: Byte): (r: seq<Byte>)
    requires pos + 4 <= |b|
    ensures |r| == |b|
    ensures r[pos] == c0 && r[pos + 1] == c1 && r[pos + 2] == c2 && r[pos + 3] == c3
    ensures forall q :: 0 <= q < |b| && (q < pos || pos + 4 <= q) ==> r[q] == b[q]
  {
    b[pos := c0][pos + 1 := c1][pos + 2 := c2][pos + 3 := c3]
  }

  // ---------------------------------------------------------------- big endian (journal)

  function GetBE32(b: seq<Byte>, pos: nat): U32
    requires pos + 4 <= |b|
  {
    Word(b[pos], b[pos + 1], b[pos + 2], b[pos + 3])
  }

  function PutBE32(b: seq<Byte>, pos: nat, v: U32): (r: seq<Byte>)
    requires pos + 4 <= |b|
    ensures |r| == |b|
    ensures forall q :: 0 <= q < |b| && (q < pos || pos + 4 <= q) ==> r[q] == b[q]
  {
    Put4(b, pos, Byte3(v), Byte2(v), Byte1(v), Byte0(v))
  }

  /** A written word is read back, and every word that does not overlap it is unchanged. */
  lemma BE32RoundTrip(b: seq<Byte>, pos: nat, v: U32)
    requires pos + 4 <= |b|
    ensures GetBE32(PutBE32(b, pos, v), pos) == v
    ensures forall q: nat :: q + 4 <= |b| && (q + 4 <= pos || pos + 4 <= q) ==>
              GetBE32(PutBE32(b, pos, v), q) == GetBE32(b, q)
  {
    WordSplit(v);
  }

  // ------------------------------------------------- little endian (inodes, pointers, directories)

  function GetLE32(b: seq<Byte>, pos: nat): U32
    requires pos + 4 <= |b|
  {
    Word(b[pos + 3], b[pos + 2], b[pos + 1], b[pos])
  }

  function PutLE32(b: seq<Byte>, pos: nat, v: U32): (r: seq<Byte>)
    requires pos + 4 <= |b|
    ensures |r| == |b|
    ensures forall q :: 0 <= q < |b| && (q < pos || pos + 4 <= q) ==> r[q] == b[q]
  {
    Put4(b, pos, Byte0(v), Byte1(v), Byte2(v), Byte3(v))
  }

  lemma LE32RoundTrip(b: seq<Byte>, pos: nat, v: U32)
    requires pos + 4 <= |b|
    ensures GetLE32(PutLE32(b, pos, v), pos) == v
    ensures forall q: nat :: q + 4 <= |b| && (q + 4 <= pos || pos + 4 <= q) ==>
              GetLE32(PutLE32(b, pos, v), q) == GetLE32(b, q)
  {
    WordSplit(v);
  }
}
