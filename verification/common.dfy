/** Shared vocabulary: bytes, optional values, results with failure propagation,
    and the big-endian integer layouts that Java's DataInput/DataOutput streams use. */
module Common {

  /** One octet as read from or written to a stream (its unsigned value). */
  type byte = x: int | 0 <= x < 256

  /** A byte string; Java `String` values are modelled by their encoded bytes. */
  type Bytes = seq<byte>

  /** A value that may be absent; `None` plays the role of Java's `null`. */
  datatype Option<+T> = None | Some(value: T)

  /** Success or failure; a failure stands for a thrown exception. */
  datatype Result<+T, +E> = Ok(value: T) | Err(error: E) {

    predicate IsFailure() {
      Err?
    }

    function PropagateFailure<U>(): Result<U, E>
      requires Err?
    {
      Err(error)
    }

    function Extract(): T
      requires Ok?
    {
      value
    }
  }

  /** The bytes of a literal written in ASCII (every character below 128 is its own byte). */
  function Lit(s: string): (r: Bytes)
    ensures |r| == |s|
    ensures forall i :: 0 <= i < |s| && s[i] < 128 as char ==> r[i] == s[i] as int
  {
    seq(|s|, i requires 0 <= i < |s| => s[i] as int % 256)
  }

  /** The command words of both protocols, as bytes, are pairwise different. */
  lemma WordsDiffer()
    ensures Lit("get") != Lit("set") && Lit("get") != Lit("stats") && Lit("get") != Lit("exit")
    ensures Lit("set") != Lit("stats") && Lit("set") != Lit("exit") && Lit("stats") != Lit("exit")
    ensures Lit("multiget") != Lit("multiset")
    ensures Lit("get") != Lit("multiset") && Lit("multiget") != Lit("set")
    ensures Lit("multiget") != Lit("stats") && Lit("multiget") != Lit("exit")
    ensures Lit("multiset") != Lit("stats") && Lit("multiset") != Lit("exit")
  {
    assert Lit("get")[0] == 'g' as int && Lit("set")[0] == 's' as int && Lit("exit")[0] == 'e' as int;
    assert Lit("stats")[1] == 't' as int && Lit("set")[1] == 'e' as int;
    assert Lit("multiget")[5] == 'g' as int && Lit("multiset")[5] == 's' as int;
    assert Lit("multiget")[0] == 'm' as int && Lit("multiset")[0] == 'm' as int;
  }

  /** True when `needle` occurs as a contiguous slice of `hay`. */
  predicate Contains<T(==)>(hay: seq<T>, needle: seq<T>) {
    exists i :: 0 <= i <= |hay| && needle <= hay[i..]
  }

  lemma ContainsAt<T>(hay: seq<T>, needle: seq<T>, i: nat)
    requires i + |needle| <= |hay| && hay[i..i + |needle|] == needle
    ensures Contains(hay, needle)
  {
    assert needle <= hay[i..];
  }

  /** A sequence occurs at the front of any extension of it. */
  lemma ContainsFront<T>(a: seq<T>, b: seq<T>)
    ensures Contains(a + b, a)
  {
    assert a <= (a + b)[0..];
  }

  /** An occurrence survives putting more in front. */
  lemma ContainsAfter<T>(a: seq<T>, x: seq<T>, needle: seq<T>)
    requires Contains(x, needle)
    ensures Contains(a + x, needle)
  {
    var i :| 0 <= i <= |x| && needle <= x[i..];
    assert (a + x)[|a| + i..] == x[i..];
  }

  /** Java's `(int)` of a `byte`: the two's-complement reading of one octet. */
  function SignedByte(b: byte): (r: int)
    ensures -128 <= r < 128
    ensures r >= 0 <==> b < 128
    ensures (r - b) % 256 == 0
  {
    if b < 128 then b else b - 256
  }

  /** Java's `(byte) n` followed by writing it: the low eight bits of `n`. */
  function LowByte(n: int): (r: byte)
    ensures (n - r) % 256 == 0
  {
    n % 256
  }

  /** `DataOutputStream.writeShort`: two bytes, high byte first. */
  function U16(n: nat): (r: Bytes)
    requires n < 0x1_0000
  {
    [n / 256, n % 256]
  }

  /** `DataInputStream.readUnsignedShort` at `pos`. */
  function ReadU16(b: Bytes, pos: nat): (n: nat)
    requires pos + 2 <= |b|
    ensures n < 0x1_0000
  {
    b[pos] as int * 256 + b[pos + 1] as int
  }

  lemma U16RoundTrip(n: nat, prefix: Bytes, suffix: Bytes)
    requires n < 0x1_0000
    ensures |U16(n)| == 2
    ensures ReadU16(prefix + U16(n) + suffix, |prefix|) == n
  {
    var b := prefix + U16(n) + suffix;
    assert b[|prefix|] == n / 256 && b[|prefix| + 1] == n % 256;
  }

  /** `DataOutputStream.writeInt` of a non-negative int: four bytes, high byte first. */
  function U32(n: nat): (r: Bytes)
    requires n < 0x8000_0000
  {
    U16(n / 0x1_0000) + U16(n % 0x1_0000)
  }

  /** `DataInputStream.readInt` at `pos`: a signed 32-bit big-endian integer. */
  function ReadI32(b: Bytes, pos: nat): (n: int)
    requires pos + 4 <= |b|
    ensures -0x8000_0000 <= n < 0x8000_0000
    ensures n >= 0 <==> b[pos] < 128
  {
    SignedByte(b[pos]) * 0x100_0000 + b[pos + 1] as int * 0x1_0000 + b[pos + 2] as int * 256 + b[pos + 3] as int
  }

  lemma U32RoundTrip(n: nat, suffix: Bytes)
    requires n < 0x8000_0000
    ensures |U32(n)| == 4
    ensures ReadI32(U32(n) + suffix, 0) == n
  {
    var hi, lo := n / 0x1_0000, n % 0x1_0000;
    var b := U32(n) + suffix;
    assert b == [] + U16(hi) + (U16(lo) + suffix);
    assert b == U16(hi) + U16(lo) + suffix;
    U16RoundTrip(hi, [], U16(lo) + suffix);
    U16RoundTrip(lo, U16(hi), suffix);
    assert b[0] == hi / 256 < 128;
    assert ReadI32(b, 0) == ReadU16(b, 0) * 0x1_0000 + ReadU16(b, 2);
  }
}
