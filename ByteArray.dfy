/** CByteArray: a FIFO byte buffer.  Values are appended at the back and
    extracted from the front; integers travel in network byte order
    (most significant byte first) and strings are NUL terminated. */
module ByteArrays {
  import opened Errors

  type Byte = b: int | 0 <= b < 256

  /** 256^n: the number of values an n-byte unsigned integer can take. */
  function Pow256(n: nat): (r: nat)
    ensures r >= 1
    ensures n > 0 ==> r >= 256
  {
    if n == 0 then 1 else 256 * Pow256(n - 1)
  }

  /** The widths of the integer operators: UInt8/SInt8, UInt16/SInt16,
      UInt32/SInt32 and UInt64/SInt64. */
  predicate IsWidth(n: nat) {
    n == 1 || n == 2 || n == 4 || n == 8
  }

  /** The n bytes of x in network byte order (what htons, htonl and htonll
      leave in memory), most significant first. */
  function EncodeBE(x: nat, n: nat): (r: seq<Byte>)
    ensures |r| == n
  {
    if n == 0 then [] else EncodeBE(x / 256, n - 1) + [x % 256]
  }

  /** The unsigned value of a byte sequence read in network byte order. */
  function DecodeBE(s: seq<Byte>): nat
  {
    if s == [] then 0 else DecodeBE(s[..|s| - 1]) * 256 + s[|s| - 1]
  }

  lemma {:induction false} DecodeBEBound(s: seq<Byte>)
    ensures DecodeBE(s) < Pow256(|s|)
  {
    if s != [] {
      var p := s[..|s| - 1];
      DecodeBEBound(p);
      assert DecodeBE(p) <= Pow256(|p|) - 1;
      assert DecodeBE(s) == DecodeBE(p) * 256 + s[|s| - 1];
      assert DecodeBE(p) * 256 <= (Pow256(|p|) - 1) * 256;
    }
  }

  /** Reading back what was written yields the written value. */
  lemma {:induction false} DecodeEncode(x: nat, n: nat)
    requires x < Pow256(n)
    ensures DecodeBE(EncodeBE(x, n)) == x
  {
    if n > 0 {
      var e := EncodeBE(x / 256, n - 1);
      assert x / 256 < Pow256(n - 1);
      DecodeEncode(x / 256, n - 1);
      assert (e + [x % 256])[..n - 1] == e;
    }
  }

  /** Writing the value of any byte sequence reproduces the sequence. */
  lemma {:induction false} EncodeDecode(s: seq<Byte>)
    ensures EncodeBE(DecodeBE(s), |s|) == s
  {
    if s != [] {
      var p := s[..|s| - 1];
      EncodeDecode(p);
      var d := DecodeBE(p) * 256 + s[|s| - 1];
      assert d / 256 == DecodeBE(p);
      assert d % 256 == s[|s| - 1];
      assert s == p + [s[|s| - 1]];
    }
  }

  /** The first byte written is the most significant one. */
  lemma {:induction false} EncodeBEMostSignificantFirst(x: nat, n: nat)
    requires n > 0 && x < Pow256(n)
    ensures EncodeBE(x, n)[0] == x / Pow256(n - 1)
  {
    if n > 1 {
      EncodeBEMostSignificantFirst(x / 256, n - 1);
      assert x / 256 < Pow256(n - 1);
      DivDiv(x, 256, Pow256(n - 2));
    }
  }

  lemma DivDiv(x: nat, a: nat, b: nat)
    requires a > 0 && b > 0
    ensures x / a / b == x / (a * b)
  {
    var y := x / a;
    var q := y / b;
    var r1 := x % a;
    var r2 := y % b;
    DivMod(x, a);
    DivMod(y, b);
    assert x == q * (a * b) + (r2 * a + r1) by {
      assert x == y * a + r1;
      assert y == q * b + r2;
      Distribute(q * b, r2, a);
      MulAssoc(q, b, a);
    }
    assert r2 * a + r1 < a * b by {
      MulLe(r2, b - 1, a);
      Distribute(b, -1, a);
    }
    DivUnique(x, a * b, q, r2 * a + r1);
  }

  lemma DivMod(x: nat, d: nat)
    requires d > 0
    ensures x == (x / d) * d + x % d && 0 <= x % d < d
  {
  }

  lemma MulAssoc(u: int, v: int, w: int)
    ensures u * v * w == u * (w * v)
  {
  }

  lemma Distribute(u: int, v: int, a: int)
    ensures (u + v) * a == u * a + v * a
  {
  }

  lemma MulLe(u: nat, v: nat, a: nat)
    requires u <= v
    ensures u * a <= v * a
  {
  }

  lemma DivUnique(x: nat, d: nat, q: nat, r: nat)
    requires d > 0 && r < d && x == q * d + r
    ensures x / d == q
  {
    var q' := x / d;
    var r' := x % d;
    assert x == q' * d + r';
    if q' < q {
      assert (q - q') * d == r' - r;
      MulLe(1, q - q', d);
    } else if q' > q {
      assert (q' - q) * d == r - r';
      MulLe(1, q' - q, d);
    }
  }

  /** 2^(8n-1): the magnitude bound of a signed n-byte integer. */
  function Half(n: nat): (h: int)
    requires n > 0
    ensures 2 * h == Pow256(n) && h >= 128
  {
    128 * Pow256(n - 1)
  }

  /** Two's complement reinterpretation of a signed n-byte value
      (the bit pattern htons/htonl see for an SInt16/SInt32/SInt64). */
  function ToUnsigned(v: int, n: nat): (u: nat)
    requires n > 0 && -Half(n) <= v < Half(n)
    ensures u < Pow256(n)
    ensures v >= 0 ==> u == v
    ensures v < 0 ==> u == v + Pow256(n)
  {
    if v < 0 then v + Pow256(n) else v
  }

  /** The signed value of an n-byte bit pattern (ntohs/ntohl into an SInt). */
  function ToSigned(u: nat, n: nat): (v: int)
    requires n > 0 && u < Pow256(n)
    ensures -Half(n) <= v < Half(n)
  {
    if u >= Half(n) then u - Pow256(n) else u
  }

  lemma SignedRoundTrip(v: int, n: nat)
    requires n > 0 && -Half(n) <= v < Half(n)
    ensures ToSigned(ToUnsigned(v, n), n) == v
  {
  }

  /** The bytes of a string before its first NUL (all of them if none). */
  function UntilNul(s: seq<Byte>): (r: seq<Byte>)
    ensures |r| <= |s| && r == s[..|r|]
    ensures 0 !in r
    ensures |r| < |s| ==> s[|r|] == 0
  {
    if s == [] || s[0] == 0 then [] else [s[0]] + UntilNul(s[1..])
  }

  /** How many bytes the string extractor consumes: the string and its
      terminating NUL when there is one. */
  function StringConsumed(s: seq<Byte>): (k: nat)
    ensures k <= |s|
  {
    if |UntilNul(s)| < |s| then |UntilNul(s)| + 1 else |s|
  }

  /** A NUL-free string written with its terminator is read back whole, and
      exactly its bytes and the terminator are consumed. */
  lemma {:induction false} StringRoundTrip(str: seq<Byte>, rest: seq<Byte>)
    requires 0 !in str
    ensures UntilNul(str + [0] + rest) == str
    ensures StringConsumed(str + [0] + rest) == |str| + 1
  {
    if str != [] {
      assert (str + [0] + rest)[1..] == str[1..] + [0] + rest;
      StringRoundTrip(str[1..], rest);
    }
  }

  /** Index the extractor as written examines after its scan
      (byte_array.cpp line 510): the first NUL, or Size() if there is none. */
  function StringProbeAsWritten(s: seq<Byte>): (k: nat)
    ensures k <= |s|
  {
    |UntilNul(s)|
  }

  /** A non-empty buffer without NUL makes the extractor as written probe one
      byte past the end of the vector. */
  lemma StringProbeOutOfRange(s: seq<Byte>)
    requires |s| > 0 && 0 !in s
    ensures StringProbeAsWritten(s) == |s|
  {
  }

  lemma StringProbeExample()
    ensures StringProbeAsWritten([0x41, 0x42]) == 2
  {
    StringProbeOutOfRange([0x41, 0x42]);
  }

  class ByteArray {
    var buffer: seq<Byte>

    constructor()
      ensures buffer == []
    {
      buffer := [];
    }

    function Size(): nat
      reads this
    {
      |buffer|
    }

    predicate Empty()
      reads this
    {
      |buffer| == 0
    }

    /** operator[]: throws when the index is not below Size(). */
    function At(index: nat): (r: Result<Byte>)
      reads this
      ensures r.Ok? <==> index < Size()
      ensures r.Ok? ==> r.value == buffer[index]
    {
      if index >= |buffer| then Fail("index out of bounds") else Ok(buffer[index])
    }

    /** ToCArray: NULL exactly when the array is empty. */
    function ToCArray(): (r: Option<seq<Byte>>)
      reads this
      ensures r.None? <==> Empty()
      ensures r.Some? ==> |r.value| == Size() && r.value[0] == buffer[0]
    {
      if |buffer| == 0 then None else Some(buffer)
    }

    /** operator==: same size and the same byte at every index. */
    function Equals(other: ByteArray): (r: bool)
      reads this, other
      ensures r <==> (Size() == other.Size() && forall i :: 0 <= i < Size() ==> buffer[i] == other.buffer[i])
    {
      buffer == other.buffer
    }

    method Zero()
      modifies this
      ensures |buffer| == old(|buffer|)
      ensures forall i :: 0 <= i < |buffer| ==> buffer[i] == 0
    {
      buffer := seq(|buffer|, _ => 0);
    }

    /** operator=: copy the other array's bytes, unless it is this one. */
    method Assign(other: ByteArray)
      modifies this
      ensures buffer == old(other.buffer)
    {
      if this != other {
        buffer := other.buffer;
      }
    }

    /** AddBuffer: append the first `size` bytes of `src`, in order. */
    method AddBuffer(src: seq<Byte>, size: nat)
      requires size <= |src|
      modifies this
      ensures buffer == old(buffer) + src[..size]
    {
      var i := 0;
      while i < size
        invariant 0 <= i <= size
        invariant buffer == old(buffer) + src[..i]
      {
        buffer := buffer + [src[i]];
        i := i + 1;
      }
    }

    /** FetchBuffer: throws when fewer than `size` bytes are held; otherwise
        copies out the first `size` bytes and erases them. */
    method FetchBuffer(size: nat) returns (r: Result<seq<Byte>>)
      modifies this
      ensures r.Fail? <==> old(|buffer|) < size
      ensures r.Fail? ==> buffer == old(buffer)
      ensures r.Ok? ==> r.value == old(buffer)[..size] && buffer == old(buffer)[size..]
    {
      if |buffer| < size {
        return Fail("attempting to extract too many bytes from byte array");
      }
      var out: seq<Byte> := [];
      var i := 0;
      while i < size
        invariant 0 <= i <= size && buffer == old(buffer)
        invariant out == buffer[..i]
      {
        out := out + [buffer[i]];
        i := i + 1;
      }
      buffer := buffer[size..];
      r := Ok(out);
    }

    /** operator<< for UInt8/UInt16/UInt32/UInt64 (width 1, 2, 4, 8). */
    method PushUnsigned(value: nat, width: nat)
      requires IsWidth(width) && value < Pow256(width)
      modifies this
      ensures buffer == old(buffer) + EncodeBE(value, width)
    {
      buffer := buffer + EncodeBE(value, width);
    }

    /** operator>> for UInt8/UInt16/UInt32/UInt64: throws when fewer than
        `width` bytes are held; otherwise decodes and erases them. */
    method PopUnsigned(width: nat) returns (r: Result<nat>)
      requires IsWidth(width)
      modifies this
      ensures r.Fail? <==> old(|buffer|) < width
      ensures r.Fail? ==> buffer == old(buffer)
      ensures r.Ok? ==> r.value == DecodeBE(old(buffer)[..width]) && r.value < Pow256(width)
      ensures r.Ok? ==> buffer == old(buffer)[width..]
    {
      if |buffer| < width {
        return Fail("attempting to extract too many bytes from byte array");
      }
      DecodeBEBound(buffer[..width]);
      r := Ok(DecodeBE(buffer[..width]));
      buffer := buffer[width..];
    }

    /** operator<< for SInt8/SInt16/SInt32/SInt64: the two's complement bit
        pattern in network byte order. */
    method PushSigned(value: int, width: nat)
      requires IsWidth(width) && -Half(width) <= value < Half(width)
      modifies this
      ensures buffer == old(buffer) + EncodeBE(ToUnsigned(value, width), width)
    {
      buffer := buffer + EncodeBE(ToUnsigned(value, width), width);
    }

    /** operator>> for SInt8/SInt16/SInt32/SInt64. */
    method PopSigned(width: nat) returns (r: Result<int>)
      requires IsWidth(width)
      modifies this
      ensures r.Fail? <==> old(|buffer|) < width
      ensures r.Fail? ==> buffer == old(buffer)
      ensures r.Ok? ==> buffer == old(buffer)[width..]
      ensures r.Ok? ==> DecodeBE(old(buffer)[..width]) < Pow256(width)
      ensures r.Ok? ==> r.value == ToSigned(DecodeBE(old(buffer)[..width]), width)
    {
      var u := PopUnsigned(width);
      match u
      case Fail(m) => r := Fail(m);
      case Ok(v) => r := Ok(ToSigned(v, width));
    }

    /** PopFront<T> for an unsigned T: extract a T exactly as operator>>
        does. */
    method PopFront(width: nat) returns (r: Result<nat>)
      requires IsWidth(width)
      modifies this
      ensures r.Fail? <==> old(|buffer|) < width
      ensures r.Fail? ==> buffer == old(buffer)
      ensures r.Ok? ==> r.value == DecodeBE(old(buffer)[..width]) && buffer == old(buffer)[width..]
    {
      r := PopUnsigned(width);
    }

    /** PopFront<T> for a signed T: extract a T exactly as operator>> does. */
    method PopFrontSigned(width: nat) returns (r: Result<int>)
      requires IsWidth(width)
      modifies this
      ensures r.Fail? <==> old(|buffer|) < width
      ensures r.Fail? ==> buffer == old(buffer)
      ensures r.Ok? ==> buffer == old(buffer)[width..] && DecodeBE(old(buffer)[..width]) < Pow256(width)
      ensures r.Ok? ==> r.value == ToSigned(DecodeBE(old(buffer)[..width]), width)
      ensures r.Ok? ==> -Half(width) <= r.value < Half(width)
    {
      r := PopSigned(width);
    }

    /** operator<< for strings: the bytes, then one NUL. */
    method PushString(str: seq<Byte>)
      modifies this
      ensures buffer == old(buffer) + str + [0]
    {
      var i := 0;
      while i < |str|
        invariant 0 <= i <= |str|
        invariant buffer == old(buffer) + str[..i]
      {
        buffer := buffer + [str[i]];
        i := i + 1;
      }
      buffer := buffer + [0];
    }

    /** operator>> for strings: throws on an empty array; otherwise takes
        the bytes up to the first NUL and erases them together with the NUL.
        The final NUL test is guarded by the bound (see StringProbeAsWritten
        for the unguarded test of the source). */
    method PopString() returns (r: Result<seq<Byte>>)
      modifies this
      ensures r.Fail? <==> old(|buffer|) == 0
      ensures r.Fail? ==> buffer == old(buffer)
      ensures r.Ok? ==> r.value == UntilNul(old(buffer))
      ensures r.Ok? ==> buffer == old(buffer)[StringConsumed(old(buffer))..]
    {
      if |buffer| == 0 {
        return Fail("attempting to extract values from empty byte array");
      }
      var str: seq<Byte> := [];
      var i := 0;
      while i < |buffer| && buffer[i] != 0
        invariant 0 <= i <= |buffer| && buffer == old(buffer)
        invariant str == buffer[..i] && 0 !in str
      {
        str := str + [buffer[i]];
        i := i + 1;
      }
      UntilNulOfPrefix(buffer, i);
      if i < |buffer| && buffer[i] == 0 {
        i := i + 1;
      }
      buffer := buffer[i..];
      r := Ok(str);
    }

    /** Resize: keep the first `size` bytes and pad any new ones with `value`. */
    method Resize(size: nat, value: Byte)
      modifies this
      ensures |buffer| == size
      ensures forall i :: 0 <= i < size && i < old(|buffer|) ==> buffer[i] == old(buffer[i])
      ensures forall i :: old(|buffer|) <= i < size ==> buffer[i] == value
    {
      if size <= |buffer| {
        buffer := buffer[..size];
      } else {
        buffer := buffer + seq(size - |buffer|, _ => value);
      }
    }

    method Swap(other: ByteArray)
      modifies this, other
      ensures buffer == old(other.buffer) && other.buffer == old(buffer)
    {
      buffer, other.buffer := other.buffer, buffer;
    }

    method Clear()
      modifies this
      ensures Empty() && Size() == 0
    {
      buffer := [];
    }
  }

  /** When the scan stopped at `i` (a NUL or the end), the bytes before `i`
      are the string. */
  lemma {:induction false} UntilNulOfPrefix(s: seq<Byte>, i: nat)
    requires i <= |s| && 0 !in s[..i] && (i < |s| ==> s[i] == 0)
    ensures UntilNul(s) == s[..i]
  {
    if i > 0 {
      assert s[0] in s[..i];
      assert s[1..][..i - 1] == s[1..i];
      assert forall b :: b in s[1..i] ==> b in s[..i];
      UntilNulOfPrefix(s[1..], i - 1);
    }
  }
}
