/**
 * StructUtils: reading and writing single bits of a byte, and the length
 * check RawDeserialize makes before copying bytes into a struct.
 */
module StructUtils {
  import opened Text

  type Byte = bv8

  function Pow2(n: nat): (r: nat)
    ensures r >= 1
  {
    if n == 0 then 1 else 2 * Pow2(n - 1)
  }

  /** The eight one-bit bytes, bit 0 first. */
  const OneBit: seq<Byte> := [0x01, 0x02, 0x04, 0x08, 0x10, 0x20, 0x40, 0x80]

  /**
   * GetBitmask(bit) = (byte)(1 << bit): C# masks an int shift count to its
   * low five bits, so the one lands at bit `bit % 32` of the 32-bit result,
   * and the cast to byte keeps the low eight bits: the one-bit byte when that
   * position is below 8 and 0 otherwise (MaskIsShift states the arithmetic).
   */
  function GetBitmask(bit: int): Byte
  {
    var s := bit % 32;
    if s < 8 then OneBit[s] else 0
  }

  /** Bit `b` (0 to 7) of a byte is set. */
  predicate Bit(d: Byte, b: nat)
    requires b < 8
  {
    d & OneBit[b] != 0
  }

  function GetBitAsBool(data: Byte, bit: int): bool
  {
    data & GetBitmask(bit) != 0
  }

  function SetBitAsBool(data: Byte, bit: int, value: bool): Byte
  {
    if value then data | GetBitmask(bit) else data & !GetBitmask(bit)
  }

  lemma {:induction false} Pow2Wide(n: nat)
    requires n >= 8
    ensures Pow2(n) == 256 * Pow2(n - 8)
  {
    if n > 8 {
      Pow2Wide(n - 1);
    }
  }

  /** The mask, read as a number, is the low byte of 2^(bit % 32): the value of (byte)(1 << bit). */
  lemma MaskIsShift(bit: int)
    ensures GetBitmask(bit) as int == Pow2(bit % 32) % 256
  {
    var s := bit % 32;
    if s >= 8 {
      Pow2Wide(s);
      assert Pow2(s) % 256 == 0;
    } else {
      OneBitIsPow2(s);
    }
  }

  /** The one-bit byte for position b is 2^b. */
  lemma OneBitIsPow2(b: nat)
    requires b < 8
    ensures OneBit[b] as int == Pow2(b) && Pow2(b) < 256
  {
    if b == 0 {
    } else if b == 1 {
    } else if b == 2 {
    } else if b == 3 {
      assert Pow2(3) == 8;
    } else if b == 4 {
      assert Pow2(4) == 16;
    } else if b == 5 {
      assert Pow2(5) == 32;
    } else if b == 6 {
      assert Pow2(6) == 64;
    } else {
      assert Pow2(7) == 128;
    }
  }

  /** Distinct one-bit bytes share no bit. */
  lemma OneBitDisjoint(b: nat, c: nat)
    requires b < 8 && c < 8 && b != c
    ensures OneBit[b] & OneBit[c] == 0
  {
  }

  /** Setting or clearing the bits of a mask leaves the bits of a disjoint mask alone. */
  lemma DisjointMasks(d: Byte, m: Byte, o: Byte, v: bool)
    requires m & o == 0
    ensures ((if v then d | m else d & !m) & o != 0) == (d & o != 0)
  {
  }

  /** After setting or clearing the bits of a non-zero mask, testing that mask gives the value. */
  lemma SetMask(d: Byte, m: Byte, v: bool)
    requires m != 0
    ensures ((if v then d | m else d & !m) & m != 0) == v
  {
  }

  /** GetBitAsBool(d, b) is bit b of d, for 0 <= b <= 7. */
  lemma GetIsBit(d: Byte, b: nat)
    requires b < 8
    ensures GetBitAsBool(d, b) <==> Bit(d, b)
  {
  }

  /** Setting a bit and reading it back gives the value set. */
  lemma SetThenGet(d: Byte, b: nat, v: bool)
    requires b < 8
    ensures GetBitAsBool(SetBitAsBool(d, b, v), b) == v
  {
    assert OneBit[b] != 0;
    SetMask(d, GetBitmask(b), v);
  }

  /** Setting a bit leaves the other seven as they were. */
  lemma SetKeepsOthers(d: Byte, b: nat, v: bool, c: nat)
    requires b < 8 && c < 8 && c != b
    ensures Bit(SetBitAsBool(d, b, v), c) == Bit(d, c)
  {
    OneBitDisjoint(b, c);
    DisjointMasks(d, GetBitmask(b), OneBit[c], v);
  }

  /** Setting the same bit to the same value twice is setting it once. */
  lemma SetIdempotent(d: Byte, bit: int, v: bool)
    ensures SetBitAsBool(SetBitAsBool(d, bit, v), bit, v) == SetBitAsBool(d, bit, v)
  {
  }

  /** Setting a bit to the value it already has changes nothing. */
  lemma SetToCurrent(d: Byte, bit: int)
    ensures SetBitAsBool(d, bit, GetBitAsBool(d, bit)) == d
  {
  }

  /**
   * A shift count whose low five bits are 8 or more (8 to 31, and so also
   * 40, -1, ...) gives the mask 0: the bit always reads false and setting
   * it changes nothing.
   */
  lemma HighBitIgnored(d: Byte, bit: int, v: bool)
    requires bit % 32 >= 8
    ensures !GetBitAsBool(d, bit)
    ensures SetBitAsBool(d, bit, v) == d
  {
  }

  /** The shift count only matters modulo 32. */
  lemma BitModulo(d: Byte, bit: int)
    ensures GetBitAsBool(d, bit) == GetBitAsBool(d, bit + 32)
  {
    assert (bit + 32) % 32 == bit % 32;
  }

  // ---------------------------------------------------------------------
  // RawDeserialize

  /** What RawDeserialize<T> gets to, with Marshal.SizeOf(typeof(T)) as `rawSize`. */
  datatype Deserialized =
    | DefaultValue                 // default(T) for null input
    | NotEnoughData(message: string)  // the ArgumentException
    | CopyOutOfRange               // Marshal.Copy rejects a negative position
    | Copied(bytes: seq<Byte>)     // the bytes PtrToStructure reads

  function NotEnoughDataMessage(available: int, rawSize: nat): string
  {
    "Not enough data to fill struct. Array length from position: " + IntToString(available)
    + ", Struct length: " + IntToString(rawSize)
  }

  function RawDeserialize(rawData: seq<Byte>, isNull: bool, position: int, rawSize: nat): Deserialized
  {
    if isNull then DefaultValue
    else if rawSize > |rawData| - position then NotEnoughData(NotEnoughDataMessage(|rawData| - position, rawSize))
    else if position < 0 then CopyOutOfRange
    else Copied(rawData[position..position + rawSize])
  }

  /**
   * A struct's bytes laid out at a position come back exactly, whatever lies
   * around them; with only k < rawSize of them left from the position on, the
   * ArgumentException names k and the struct's size; null input gives the
   * default value.
   */
  lemma RawDeserializeRoundTrip(before: seq<Byte>, raw: seq<Byte>, after: seq<Byte>, k: nat)
    ensures RawDeserialize(before + raw + after, false, |before|, |raw|) == Copied(raw)
    ensures k < |raw| ==>
      RawDeserialize(before + raw[..k], false, |before|, |raw|) == NotEnoughData(NotEnoughDataMessage(k, |raw|))
    ensures RawDeserialize(before + raw + after, true, |before|, |raw|) == DefaultValue
  {
    assert (before + raw + after)[|before|..|before| + |raw|] == raw;
  }
}
