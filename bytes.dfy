/** Byte-level vocabulary shared by the container format, the writer and the reader:
    Java's fixed-width integers, the big-endian encodings that DataOutputStream writes and
    RandomAccessFile reads, and the Option/Result wrappers that stand for null and for
    thrown exceptions. */
module Bytes {

  /** A Java byte, taken unsigned: 0x00..0xFF. */
  newtype byte = b: int | 0 <= b < 256

  datatype Option<+T> = None | Some(value: T)

  /** Either the value an operation returns or the exception it throws. */
  datatype Result<+T, +E> = Ok(value: T) | Err(error: E)

  const INT_MIN: int := -0x8000_0000
  const INT_MAX: int := 0x7FFF_FFFF
  const LONG_MIN: int := -0x8000_0000_0000_0000
  const LONG_MAX: int := 0x7FFF_FFFF_FFFF_FFFF

  function Min(a: int, b: int): int { if a <= b then a else b }

  /** 256^n: the number of values n bytes can hold. */
  function Pow256(n: nat): (p: nat)
    ensures p >= 1
  {
    if n == 0 then 1 else 256 * Pow256(n - 1)
  }

  /** Java's long arithmetic: a sum or difference of longs, computed exactly, narrowed back
      to a 64-bit two's-complement long. Such a value is at most one wrap away from the
      long range. */
  function ToLong(x: int): (r: int)
    requires LONG_MIN - 0x1_0000_0000_0000_0000 <= x <= LONG_MAX + 0x1_0000_0000_0000_0000
    ensures LONG_MIN <= r <= LONG_MAX
    ensures r == x || r == x - 0x1_0000_0000_0000_0000 || r == x + 0x1_0000_0000_0000_0000
    ensures LONG_MIN <= x <= LONG_MAX ==> r == x
  {
    if x > LONG_MAX then x - 0x1_0000_0000_0000_0000
    else if x < LONG_MIN then x + 0x1_0000_0000_0000_0000
    else x
  }

  /** Java's `(int)` cast of a long: the low 32 bits, read as two's complement. */
  function ToInt(x: int): (r: int)
    ensures INT_MIN <= r <= INT_MAX
    ensures (x - r) % 0x1_0000_0000 == 0
    ensures INT_MIN <= x <= INT_MAX ==> r == x
  {
    var m := x % 0x1_0000_0000;
    if m > INT_MAX then m - 0x1_0000_0000 else m
  }

  /** The int a Java `byte` widens to: bytes 0x80..0xFF become -128..-1. */
  function SignedByte(b: byte): (r: int)
    ensures -128 <= r <= 127
    ensures (r - b as int) % 256 == 0
  {
    if b < 0x80 then b as int else b as int - 256
  }

  /** The n low-order bytes of x, most significant first; for negative x this is the
      two's-complement pattern (x is taken modulo 256^n). */
  function ToBE(x: int, n: nat): (s: seq<byte>)
    ensures |s| == n
    decreases n
  {
    if n == 0 then [] else ToBE(x / 256, n - 1) + [(x % 256) as byte]
  }

  /** The unsigned value of a big-endian byte string. */
  function FromBE(s: seq<byte>): (x: nat)
    ensures x < Pow256(|s|)
  {
    if s == [] then 0
    else
      var hi := FromBE(s[..|s| - 1]);
      assert hi * 256 <= (Pow256(|s| - 1) - 1) * 256;
      hi * 256 + s[|s| - 1] as int
  }

  /** The values of 256^4 and 256^8 that Java's int and long widths stand for. */
  lemma Pow256Widths()
    ensures Pow256(4) == 0x1_0000_0000 && Pow256(8) == 0x1_0000_0000_0000_0000
  {
  }

  /** DataOutputStream.writeInt. */
  function WriteInt(v: int): seq<byte> { ToBE(v, 4) }

  /** DataOutputStream.writeLong. */
  function WriteLong(v: int): seq<byte> { ToBE(v, 8) }

  /** RandomAccessFile.readInt on four bytes: their unsigned value read as two's complement. */
  function ReadInt(s: seq<byte>): (v: int)
    requires |s| == 4
    ensures INT_MIN <= v <= INT_MAX
    ensures v == FromBE(s) || v == FromBE(s) - 0x1_0000_0000
  {
    Pow256Widths();
    var u := FromBE(s);
    if u > INT_MAX then u - 0x1_0000_0000 else u
  }

  /** RandomAccessFile.readLong on eight bytes. */
  function ReadLong(s: seq<byte>): (v: int)
    requires |s| == 8
    ensures LONG_MIN <= v <= LONG_MAX
    ensures v == FromBE(s) || v == FromBE(s) - 0x1_0000_0000_0000_0000
  {
    Pow256Widths();
    var u := FromBE(s);
    if u > LONG_MAX then u - 0x1_0000_0000_0000_0000 else u
  }

  lemma DivModByte(hi: int, b: int)
    requires 0 <= b < 256
    ensures (hi * 256 + b) / 256 == hi && (hi * 256 + b) % 256 == b
  {
  }

  /** Decoding the encoding of a value that fits in n bytes gives the value back. */
  lemma {:induction false} FromBEToBE(x: int, n: nat)
    requires 0 <= x < Pow256(n)
    ensures FromBE(ToBE(x, n)) == x
    decreases n
  {
    if n > 0 {
      var s := ToBE(x, n);
      var q, r := x / 256, x % 256;
      DivModByte(q, r);
      assert x == q * 256 + r;
      assert q < Pow256(n - 1);
      assert s[..n - 1] == ToBE(q, n - 1) && s[n - 1] as int == r;
      FromBEToBE(q, n - 1);
      assert FromBE(s) == FromBE(s[..n - 1]) * 256 + s[n - 1] as int;
    }
  }

  /** Encoding a decoded byte string gives the bytes back. */
  lemma {:induction false} ToBEFromBE(s: seq<byte>)
    ensures ToBE(FromBE(s), |s|) == s
  {
    if s != [] {
      var n := |s|;
      var hi := FromBE(s[..n - 1]);
      DivModByte(hi, s[n - 1] as int);
      ToBEFromBE(s[..n - 1]);
      assert ToBE(FromBE(s), n) == ToBE(hi, n - 1) + [s[n - 1]];
      assert s == s[..n - 1] + [s[n - 1]];
    }
  }

  /** The encoding only depends on x modulo 256^n. */
  lemma {:induction false} ToBEShift(x: int, n: nat)
    ensures ToBE(x + Pow256(n), n) == ToBE(x, n)
    decreases n
  {
    if n > 0 {
      var p := Pow256(n - 1);
      DivModByte(x / 256 + p, x % 256);
      assert x + Pow256(n) == (x / 256 + p) * 256 + x % 256;
      ToBEShift(x / 256, n - 1);
    }
  }

  /** readInt(writeInt(v)) == v for every Java int. */
  lemma ReadIntWriteInt(v: int)
    requires INT_MIN <= v <= INT_MAX
    ensures ReadInt(WriteInt(v)) == v
  {
    Pow256Widths();
    if v < 0 {
      ToBEShift(v, 4);
      FromBEToBE(v + 0x1_0000_0000, 4);
    } else {
      FromBEToBE(v, 4);
    }
  }

  /** readLong(writeLong(v)) == v for every Java long. */
  lemma ReadLongWriteLong(v: int)
    requires LONG_MIN <= v <= LONG_MAX
    ensures ReadLong(WriteLong(v)) == v
  {
    Pow256Widths();
    if v < 0 {
      ToBEShift(v, 8);
      FromBEToBE(v + 0x1_0000_0000_0000_0000, 8);
    } else {
      FromBEToBE(v, 8);
    }
  }

  /** writeInt(readInt(s)) == s: four bytes are the encoding of the int they read as. */
  lemma WriteIntReadInt(s: seq<byte>)
    requires |s| == 4
    ensures WriteInt(ReadInt(s)) == s
  {
    Pow256Widths();
    ToBEFromBE(s);
    if FromBE(s) > INT_MAX {
      ToBEShift(FromBE(s) - 0x1_0000_0000, 4);
    }
  }

  /** writeLong(readLong(s)) == s. */
  lemma WriteLongReadLong(s: seq<byte>)
    requires |s| == 8
    ensures WriteLong(ReadLong(s)) == s
  {
    Pow256Widths();
    ToBEFromBE(s);
    if FromBE(s) > LONG_MAX {
      ToBEShift(FromBE(s) - 0x1_0000_0000_0000_0000, 8);
    }
  }
}
