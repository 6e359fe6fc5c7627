// Fixed-width unsigned words and their big-endian ("network order") byte layout.
module Words {

  const TWO8 := 0x100
  const TWO16 := 0x1_0000
  const TWO24 := 0x100_0000
  const TWO32 := 0x1_0000_0000
  const TWO64 := 0x1_0000_0000_0000_0000

  type byte = x: int | 0 <= x < TWO8
  type uint16 = x: int | 0 <= x < TWO16
  type uint24 = x: int | 0 <= x < TWO24
  type uint32 = x: int | 0 <= x < TWO32
  type uint64 = x: int | 0 <= x < TWO64

  datatype Option<+T> = None | Some(value: T)

  // Conversion of a mathematical integer to an unsigned word.
  function Wrap16(x: int): uint16 { x % TWO16 }
  function Wrap32(x: int): uint32 { x % TWO32 }
  function Wrap64(x: int): uint64 { x % TWO64 }

  // Wrapping at every step and wrapping once at the end agree.
  lemma WrapAdds(x: int, y: int)
    ensures Wrap16(Wrap16(x) + y) == Wrap16(x + y)
    ensures Wrap32(Wrap32(x) + y) == Wrap32(x + y)
    ensures Wrap64(Wrap64(x) + y) == Wrap64(x + y)
  {
    Wrap16Adds(x, y);
    Wrap32Adds(x, y);
    Wrap64Adds(x, y);
  }

  lemma Wrap16Adds(x: int, y: int)
    ensures Wrap16(Wrap16(x) + y) == Wrap16(x + y)
  {
    assert x + y == Wrap16(x) + y + x / TWO16 * TWO16;
  }

  lemma Wrap32Adds(x: int, y: int)
    ensures Wrap32(Wrap32(x) + y) == Wrap32(x + y)
  {
    assert x + y == Wrap32(x) + y + x / TWO32 * TWO32;
  }

  lemma Wrap64Adds(x: int, y: int)
    ensures Wrap64(Wrap64(x) + y) == Wrap64(x + y)
  {
    assert x + y == Wrap64(x) + y + x / TWO64 * TWO64;
  }

  lemma LowHalfOfWrap32(x: int)
    ensures Wrap32(x) % TWO16 == Wrap16(x)
  {
    assert x == x / TWO32 * TWO16 * TWO16 + Wrap32(x);
  }

  // Conversion to int16_t.
  function Signed16(x: int): int {
    if x % TWO16 < 0x8000 then x % TWO16 else x % TWO16 - TWO16
  }

  function Put16(x: uint16): (b: seq<byte>)
    ensures |b| == 2
  {
    [x / 0x100, x % 0x100]
  }

  function Get16(b: seq<byte>): uint16
    requires |b| == 2
  {
    b[0] as int * 0x100 + b[1]
  }

  function Put24(x: uint24): (b: seq<byte>) { [x / 0x1_0000, x / 0x100 % 0x100, x % 0x100] }

  function Put32(x: uint32): (b: seq<byte>)
    ensures |b| == 4
  {
    Put16(x / TWO16) + Put16(x % TWO16)
  }

  function Get32(b: seq<byte>): uint32
    requires |b| == 4
  {
    Get16(b[..2]) as int * TWO16 + Get16(b[2..])
  }

  // The number that bytes stand for in network order, the most significant first.
  function BigEndian(b: seq<byte>): nat {
    if b == [] then 0 else BigEndian(b[..|b| - 1]) * 256 + b[|b| - 1]
  }

  lemma BigEndian2(b: seq<byte>)
    requires |b| == 2
    ensures BigEndian(b) == b[0] as int * 256 + b[1]
  {
    assert b[..1][..0] == [] && BigEndian(b[..1]) == b[0];
  }

  lemma BigEndian4(b: seq<byte>)
    requires |b| == 4
    ensures BigEndian(b) == ((b[0] as int * 256 + b[1]) * 256 + b[2]) * 256 + b[3]
  {
    BigEndian2(b[..2]);
    assert b[..3][..2] == b[..2] && BigEndian(b[..3]) == BigEndian(b[..2]) * 256 + b[2];
  }

  /** Words are written and read in network order. */
  lemma NetworkOrder(x: uint16, y: uint24, z: uint32)
    ensures |Put16(x)| == 2 && BigEndian(Put16(x)) == x
    ensures |Put24(y)| == 3 && BigEndian(Put24(y)) == y
    ensures |Put32(z)| == 4 && BigEndian(Put32(z)) == z
  {
    BigEndian2(Put16(x));
    BigEndian2(Put24(y)[..2]);
    assert BigEndian(Put24(y)) == BigEndian(Put24(y)[..2]) * 256 + y % 0x100;
    BigEndian4(Put32(z));
  }

  lemma ReadInNetworkOrder(b: seq<byte>)
    ensures |b| == 2 ==> Get16(b) == BigEndian(b)
    ensures |b| == 4 ==> Get32(b) == BigEndian(b)
  {
    if |b| == 2 {
      BigEndian2(b);
    } else if |b| == 4 {
      BigEndian4(b);
    }
  }

  lemma Word16RoundTrip(x: uint16)
    ensures Get16(Put16(x)) == x
  {
  }

  lemma Word32RoundTrip(x: uint32)
    ensures Get32(Put32(x)) == x
  {
    assert Put32(x)[..2] == Put16(x / TWO16) && Put32(x)[2..] == Put16(x % TWO16);
    Word16RoundTrip(x / TWO16);
    Word16RoundTrip(x % TWO16);
  }

  lemma Bytes16RoundTrip(b: seq<byte>)
    requires |b| == 2
    ensures Put16(Get16(b)) == b
  {
  }

  lemma Bytes32RoundTrip(b: seq<byte>)
    requires |b| == 4
    ensures Put32(Get32(b)) == b
  {
    var hi, lo := Get16(b[..2]), Get16(b[2..]);
    assert Get32(b) / TWO16 == hi && Get32(b) % TWO16 == lo;
    Bytes16RoundTrip(b[..2]);
    Bytes16RoundTrip(b[2..]);
    assert b == b[..2] + b[2..];
  }

  // ---- Clock readings are nanoseconds; waits are milliseconds kept in 32 bits ----

  const NANOS_PER_MILLI := 1_000_000

  // duration_cast to milliseconds truncates toward zero; the result is then cast to uint32_t.
  function Millis(nanos: int): int {
    if nanos >= 0 then nanos / NANOS_PER_MILLI else -(-nanos / NANOS_PER_MILLI)
  }

  function Millis32(nanos: int): uint32 { Wrap32(Millis(nanos)) }

  /** The whole milliseconds in a time span; for a negative one, those in its length. */
  lemma MillisIs(nanos: int)
    ensures 0 <= nanos ==> Millis(nanos) * 1_000_000 <= nanos < (Millis(nanos) + 1) * 1_000_000
    ensures Millis(-nanos) == -Millis(nanos)
    ensures 0 <= nanos < 0x1_0000_0000 * 1_000_000 ==> Millis32(nanos) == Millis(nanos)
  {
  }
}
