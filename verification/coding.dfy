/**
 Byte coding underneath the log: Base 128 varints, fixed little-endian integers and
 length-prefixed slices (src/base/coding.cc, include/consensus/base/coding.h).

 The functions are the reference definitions of the format.  The methods follow the source:
 pointers are indices into a buffer, and a bit operation is written as the arithmetic it
 performs on unsigned values (`v | 128` stored in a byte is `128 + v % 128`, `v >> 7` is
 `v / 128`, and `|=` of bits that do not overlap is `+`).
 */
module Coding {
  type byte = x: int | 0 <= x < 256
  type bytes = seq<byte>

  const TWO_32: nat := 0x1_0000_0000
  const TWO_64: nat := 0x1_0000_0000_0000_0000

  type uint32 = x: int | 0 <= x < 0x1_0000_0000
  type uint64 = x: int | 0 <= x < 0x1_0000_0000_0000_0000

  datatype Option<+T> = None | Some(value: T)

  /** What a Get routine leaves: nothing on malformed input, or a value and the unread input. */
  datatype Decoded<+T> = Malformed | Decoded(value: T, rest: bytes)

  // ---------------------------------------------------------------------------------------
  // Reference definitions
  // ---------------------------------------------------------------------------------------

  /** The Base 128 varint of v: low seven bits first, the high bit says "more bytes follow". */
  function Varint(v: nat): (r: bytes)
    ensures |r| >= 1
  {
    if v < 128 then [v] else [128 + v % 128] + Varint(v / 128)
  }

  /** The length of the varint at the head of s, if it ends within its first `max` bytes, else 0. */
  function VarintEnd(s: bytes, max: nat): (k: nat)
    ensures k <= |s| && k <= max
  {
    if s == [] || max == 0 then 0
    else if s[0] < 128 then 1
    else
      var k := VarintEnd(s[1..], max - 1);
      if k == 0 then 0 else k + 1
  }

  /** The number whose base 128 digits, low first, are the low seven bits of s. */
  function VarintValue(s: bytes): nat {
    if s == [] then 0 else s[0] % 128 + 128 * VarintValue(s[1..])
  }

  /** Decodes a varint of at most `max` bytes into an unsigned integer below `modulus`. */
  function GetVarint(s: bytes, max: nat, modulus: nat): Decoded<nat>
    requires modulus > 0
  {
    var k := VarintEnd(s, max);
    if k == 0 then Malformed else Decoded(VarintValue(s[..k]) % modulus, s[k..])
  }

  function GetVarint32(s: bytes): Decoded<nat> {
    GetVarint(s, 5, TWO_32)
  }

  function GetVarint64(s: bytes): Decoded<nat> {
    GetVarint(s, 10, TWO_64)
  }

  /** A length-prefixed slice. */
  function Slice(x: bytes): bytes {
    Varint(|x|) + x
  }

  /** What PutLengthPrefixedSlice appends: the size is narrowed to 32 bits. */
  function Narrowed(x: bytes): (r: bytes)
    ensures |x| < TWO_32 ==> r == Slice(x)
  {
    Varint(|x| % TWO_32) + x
  }

  function GetSlice(s: bytes): Decoded<bytes> {
    match GetVarint32(s)
    case Malformed => Malformed
    case Decoded(len, rest) =>
      if |rest| < len then Malformed else Decoded(rest[..len], rest[len..])
  }

  /** A 32-bit integer, low byte first; wider values are truncated as the C cast does. */
  function Fixed32(v: nat): (r: bytes)
    ensures |r| == 4
  {
    [v % 256, v / 0x100 % 256, v / 0x1_0000 % 256, v / 0x100_0000 % 256]
  }

  function DecodeFixed32(s: bytes): uint32
    requires |s| >= 4
  {
    var (b0: int, b1: int, b2: int, b3: int) := (s[0], s[1], s[2], s[3]);
    b0 + 0x100 * b1 + 0x1_0000 * b2 + 0x100_0000 * b3
  }

  function Pow128(k: nat): (r: nat)
    ensures r > 0
  {
    if k == 0 then 1 else 128 * Pow128(k - 1)
  }

  /** The buffer s with x written over it at position `at`. */
  function Overlay(s: bytes, at: nat, x: bytes): (r: bytes)
    requires at + |x| <= |s|
    ensures |r| == |s|
  {
    s[..at] + x + s[at + |x|..]
  }

  // ---------------------------------------------------------------------------------------
  // Encoders
  // ---------------------------------------------------------------------------------------

  lemma {:induction false} VarintBound(v: nat, k: nat)
    requires k > 0 && v < Pow128(k)
    ensures |Varint(v)| <= k
  {
    if v >= 128 {
      VarintBound(v / 128, k - 1);
    }
  }

  /** At most five bytes for a 32-bit value, at most ten for a 64-bit value. */
  lemma VarintWidths(v: nat)
    ensures v < TWO_32 ==> |Varint(v)| <= 5
    ensures v < TWO_64 ==> |Varint(v)| <= 10
  {
    if v < TWO_32 {
      assert Pow128(5) == 0x8_0000_0000;
      VarintBound(v, 5);
    } else if v < TWO_64 {
      assert Pow128(10) == 0x40_0000_0000_0000_0000;
      VarintBound(v, 10);
    }
  }

  method VarintLength(v: uint64) returns (len: nat)
    ensures len == |Varint(v)| <= 10
  {
    VarintWidths(v);
    var w := v;
    len := 1;
    while w >= 128
      invariant 0 <= w
      invariant len + |Varint(w)| == 1 + |Varint(v)|
    {
      w := w / 128;
      len := len + 1;
    }
  }

  /** The looping encoder. */
  method EncodeVarint64(dst: array<byte>, at: nat, v: uint64) returns (end: nat)
    requires at + |Varint(v)| <= dst.Length
    modifies dst
    ensures end == at + |Varint(v)|
    ensures dst[..] == Overlay(old(dst[..]), at, Varint(v))
  {
    var w := v;
    end := at;
    ghost var s0, done: bytes := dst[..], [];
    while w >= 128
      invariant 0 <= w && done + Varint(w) == Varint(v)
      invariant end == at + |done|
      invariant dst[..] == Overlay(s0, at, done)
    {
      ghost var b := 128 + w % 128;
      VarintDigit(w, w / 128);
      assert done + ([b] + Varint(w / 128)) == done + [b] + Varint(w / 128);
      ghost var s1 := dst[..];
      dst[end] := 128 + w % 128;
      OverlayByte(s0, at, done, s1, dst[..], b);
      done := done + [b];
      w := w / 128;
      end := end + 1;
    }
    ghost var s1 := dst[..];
    dst[end] := w;
    OverlayByte(s0, at, done, s1, dst[..], w);
    end := end + 1;
  }

  lemma OverlayStore(s: bytes, at: nat, b: byte)
    requires at < |s|
    ensures s[at := b] == Overlay(s, at, [b])
  {
  }

  /** Storing one byte right after what has been written extends what has been written. */
  lemma OverlayByte(s0: bytes, at: nat, done: bytes, s1: bytes, s2: bytes, b: byte)
    requires at + |done| < |s0| && s1 == Overlay(s0, at, done)
    requires s2 == s1[at + |done| := b]
    ensures s2 == Overlay(s0, at, done + [b])
  {
  }

  lemma VarintDigit(v: nat, w: nat)
    requires v >= 128 && w == v / 128
    ensures Varint(v) == [128 + v % 128] + Varint(w)
  {
  }

  lemma Quotients(v: nat)
    ensures v / 0x80 / 128 == v / 0x4000
    ensures v / 0x4000 / 128 == v / 0x20_0000
    ensures v / 0x20_0000 / 128 == v / 0x1000_0000
  {
  }

  lemma VarintUnrolled(v: nat)
    ensures v < 0x80 ==> Varint(v) == [v]
    ensures 0x80 <= v < 0x4000 ==> Varint(v) == [128 + v % 128] + [v / 0x80]
    ensures 0x4000 <= v < 0x20_0000 ==> Varint(v) == [128 + v % 128] + ([128 + v / 0x80 % 128] + [v / 0x4000])
    ensures 0x20_0000 <= v < 0x1000_0000 ==>
              Varint(v) == [128 + v % 128] + ([128 + v / 0x80 % 128] + ([128 + v / 0x4000 % 128] + [v / 0x20_0000]))
    ensures 0x1000_0000 <= v < TWO_32 ==>
              Varint(v) == [128 + v % 128] + ([128 + v / 0x80 % 128] + ([128 + v / 0x4000 % 128] +
                                              ([128 + v / 0x20_0000 % 128] + [v / 0x1000_0000])))
  {
    Quotients(v);
    if v >= 0x80 { VarintDigit(v, v / 0x80); }
    if v >= 0x4000 { VarintDigit(v / 0x80, v / 0x4000); }
    if v >= 0x20_0000 { VarintDigit(v / 0x4000, v / 0x20_0000); }
    if v >= 0x1000_0000 { VarintDigit(v / 0x20_0000, v / 0x1000_0000); }
  }

  /** The unrolled encoder writes the same bytes as the looping one. */
  method EncodeVarint32(dst: array<byte>, at: nat, v: uint32) returns (end: nat)
    requires at + |Varint(v)| <= dst.Length
    modifies dst
    ensures end == at + |Varint(v)|
    ensures dst[..] == Overlay(old(dst[..]), at, Varint(v))
  {
    VarintUnrolled(v);
    if v < 0x80 {
      dst[at] := v;
      end := at + 1;
    } else if v < 0x4000 {
      dst[at] := 128 + v % 128;
      dst[at + 1] := v / 0x80;
      end := at + 2;
    } else if v < 0x20_0000 {
      dst[at] := 128 + v % 128;
      dst[at + 1] := 128 + v / 0x80 % 128;
      dst[at + 2] := v / 0x4000;
      end := at + 3;
    } else if v < 0x1000_0000 {
      dst[at] := 128 + v % 128;
      dst[at + 1] := 128 + v / 0x80 % 128;
      dst[at + 2] := 128 + v / 0x4000 % 128;
      dst[at + 3] := v / 0x20_0000;
      end := at + 4;
    } else {
      dst[at] := 128 + v % 128;
      dst[at + 1] := 128 + v / 0x80 % 128;
      dst[at + 2] := 128 + v / 0x4000 % 128;
      dst[at + 3] := 128 + v / 0x20_0000 % 128;
      dst[at + 4] := v / 0x1000_0000;
      end := at + 5;
    }
  }

  /** memcpy / SerializeToArray: x is written at position `at`. */
  method CopyInto(dst: array<byte>, at: nat, x: bytes)
    requires at + |x| <= dst.Length
    modifies dst
    ensures dst[..] == Overlay(old(dst[..]), at, x)
  {
    var i := 0;
    while i < |x|
      invariant i <= |x|
      invariant dst[..] == Overlay(old(dst[..]), at, x[..i])
    {
      dst[at + i] := x[i];
      i := i + 1;
    }
    assert x[..i] == x;
  }

  /** The caller's cast to uint32_t is part of it: only the low 32 bits of value are written. */
  method EncodeFixed32(dst: array<byte>, at: nat, value: nat)
    requires at + 4 <= dst.Length
    modifies dst
    ensures dst[..] == Overlay(old(dst[..]), at, Fixed32(value))
  {
    dst[at] := value % 256;
    dst[at + 1] := value / 0x100 % 256;
    dst[at + 2] := value / 0x1_0000 % 256;
    dst[at + 3] := value / 0x100_0000 % 256;
  }

  /** Two writes, the second right after the first, are one write. */
  lemma OverlayNext(s: bytes, at: nat, x: bytes, y: bytes)
    requires at + |x| + |y| <= |s|
    ensures Overlay(Overlay(s, at, x), at + |x|, y) == Overlay(s, at, x + y)
  {
  }

  method PutVarint32(dst: bytes, v: uint32) returns (r: bytes)
    ensures r == dst + Varint(v)
  {
    VarintWidths(v);
    var buf := new byte[5];
    var end := EncodeVarint32(buf, 0, v);
    assert buf[..][..end] == Varint(v);
    r := dst + buf[..end];
  }

  /** `PutVarint32(dst, value.size())` narrows the size to 32 bits. */
  method PutLengthPrefixedSlice(dst: bytes, x: bytes) returns (r: bytes)
    ensures r == dst + Narrowed(x)
  {
    var d := PutVarint32(dst, |x| % TWO_32);
    r := d + x;
    assert r == dst + (Varint(|x| % TWO_32) + x);
  }

  // ---------------------------------------------------------------------------------------
  // Decoders
  // ---------------------------------------------------------------------------------------

  lemma {:induction false} VarintValueBound(s: bytes)
    ensures VarintValue(s) < Pow128(|s|)
  {
    if s != [] {
      VarintValueBound(s[1..]);
    }
  }

  lemma {:induction false} VarintValueSnoc(s: bytes, b: byte)
    ensures VarintValue(s + [b]) == VarintValue(s) + b % 128 * Pow128(|s|)
  {
    if s == [] {
      assert VarintValue([b][1..]) == 0;
    } else {
      assert (s + [b])[1..] == s[1..] + [b];
      VarintValueSnoc(s[1..], b);
      var d, w := b % 128, Pow128(|s| - 1);
      assert 128 * (d * w) == d * (128 * w);
    }
  }

  /** Skipping continuation bytes moves the end of the varint by as many. */
  lemma {:induction false} VarintEndSkip(s: bytes, max: nat, i: nat)
    requires i <= |s| && i <= max
    requires forall j :: 0 <= j < i ==> s[j] >= 128
    ensures VarintEnd(s, max) == var k := VarintEnd(s[i..], max - i); if k == 0 then 0 else k + i
  {
    if i > 0 {
      VarintEndSkip(s[1..], max - 1, i - 1);
      assert s[1..][i - 1..] == s[i..];
    } else {
      assert s[0..] == s;
    }
  }

  /** Adding a digit above the digits read so far, in arithmetic modulo a multiple of its weight. */
  lemma {:induction false} AddDigit(a: nat, d: nat, w: nat, m: nat)
    requires a < w && m > 0
    ensures w * m > 0
    ensures a + d * w % (w * m) == (a + d * w) % (w * m)
  {
    var q, r := d / m, d % m;
    Scale(d, w, m, q, r);
    ModOf(d * w, r * w, q, w * m);
    ModOf(a + d * w, a + r * w, q, w * m);
  }

  lemma {:induction false} AddDigitMod(a: nat, d: nat, w: nat, m: nat, n: nat)
    requires a < w && m > 0 && w * m == n > 0
    ensures a % n + d * w % n == (a + d * w) % n
  {
    MulMono(1, m, w);
    ModOf(a, a, 0, n);
    AddDigit(a, d, w, m);
  }

  lemma {:induction false} Scale(d: nat, w: nat, m: nat, q: nat, r: nat)
    requires w > 0 && m > 0 && d == q * m + r && r < m
    ensures d * w == r * w + q * (w * m)
    ensures r * w + w <= w * m && w * m > 0
  {
    assert d * w == q * m * w + r * w;
    assert q * m * w == q * (w * m);
    MulMono(r + 1, m, w);
    assert (r + 1) * w == r * w + w;
  }

  lemma {:induction false} ModOf(x: nat, r: nat, q: nat, n: nat)
    requires n > 0 && r < n && x == r + q * n
    ensures x % n == r
  {
    QuotientUnique(n, x / n, x % n, q, r);
  }

  lemma {:induction false} QuotientUnique(n: nat, a: nat, r: nat, b: nat, t: nat)
    requires r < n && t < n && a * n + r == b * n + t
    ensures a == b && r == t
  {
    if a < b {
      MulMono(a + 1, b, n);
    } else if b < a {
      MulMono(b + 1, a, n);
    }
  }

  lemma MulMono(a: nat, b: nat, n: nat)
    requires a <= b
    ensures a * n <= b * n
  {
  }

  /** The weight of the i-th digit divides the modulus of the result type. */
  function Cofactor32(i: nat): (m: nat)
    requires i < 5
    ensures m > 0 && Pow128(i) * m == TWO_32
  {
    assert Pow128(1) == 128 && Pow128(2) == 0x4000 && Pow128(3) == 0x20_0000 && Pow128(4) == 0x1000_0000;
    if i == 0 then TWO_32 else if i == 1 then 0x200_0000 else if i == 2 then 0x4_0000
    else if i == 3 then 0x800 else 0x10
  }

  function Cofactor64(i: nat): (m: nat)
    requires i < 10
    ensures m > 0 && Pow128(i) * m == TWO_64
  {
    assert Pow128(4) == 0x1000_0000 && Pow128(5) == 0x8_0000_0000 && Pow128(6) == 0x400_0000_0000;
    assert Pow128(7) == 0x2_0000_0000_0000 && Pow128(8) == 0x100_0000_0000_0000
      && Pow128(9) == 0x8000_0000_0000_0000;
    if i < 5 then Cofactor32(i) * TWO_32
    else if i == 5 then 0x2000_0000 else if i == 6 then 0x40_0000 else if i == 7 then 0x8000
    else if i == 8 then 0x100 else 2
  }

  /** A decoding loop that has read i continuation bytes of s holds their value. */
  ghost predicate DigitsRead(s: bytes, i: nat, modulus: nat, result: nat)
    requires modulus > 0
  {
    && i <= |s|
    && (forall j :: 0 <= j < i ==> s[j] >= 128)
    && result == VarintValue(s[..i]) % modulus
  }

  /** One round: the digit at position i is added, modulo the result type. */
  lemma {:induction false} ReadDigit(s: bytes, i: nat, m: nat, modulus: nat, result: nat)
    requires i < |s| && m > 0 && Pow128(i) * m == modulus > 0
    requires DigitsRead(s, i, modulus, result)
    ensures result + s[i] % 128 * Pow128(i) % modulus == VarintValue(s[..i + 1]) % modulus
  {
    VarintValueBound(s[..i]);
    VarintValueSnoc(s[..i], s[i]);
    assert s[..i] + [s[i]] == s[..i + 1];
    AddDigitMod(VarintValue(s[..i]), s[i] % 128, Pow128(i), m, modulus);
  }

  /** A round that meets the high bit goes on; one that does not ends the varint. */
  lemma {:induction false} Round(s: bytes, i: nat, max: nat, m: nat, modulus: nat, result: nat)
    requires i < |s| && i < max && m > 0 && Pow128(i) * m == modulus > 0
    requires DigitsRead(s, i, modulus, result)
    ensures if s[i] >= 128 then DigitsRead(s, i + 1, modulus, result + s[i] % 128 * Pow128(i) % modulus)
            else GetVarint(s, max, modulus) == Decoded(result + s[i] * Pow128(i) % modulus, s[i + 1..])
  {
    ReadDigit(s, i, m, modulus, result);
    VarintEndSkip(s, max, i);
  }

  lemma {:induction false} Round32(s: bytes, i: nat, result: nat)
    requires i < |s| && i < 5 && DigitsRead(s, i, TWO_32, result)
    ensures if s[i] >= 128 then DigitsRead(s, i + 1, TWO_32, result + s[i] % 128 * Pow128(i) % TWO_32)
            else GetVarint32(s) == Decoded(result + s[i] * Pow128(i) % TWO_32, s[i + 1..])
  {
    Round(s, i, 5, Cofactor32(i), TWO_32, result);
  }

  lemma {:induction false} Round64(s: bytes, i: nat, result: nat)
    requires i < |s| && i < 10 && DigitsRead(s, i, TWO_64, result)
    ensures if s[i] >= 128 then DigitsRead(s, i + 1, TWO_64, result + s[i] % 128 * Pow128(i) % TWO_64)
            else GetVarint64(s) == Decoded(result + s[i] * Pow128(i) % TWO_64, s[i + 1..])
  {
    Round(s, i, 10, Cofactor64(i), TWO_64, result);
  }

  /** Running out of input or of rounds is malformed. */
  lemma {:induction false} ReadNone(s: bytes, i: nat, max: nat, modulus: nat, result: nat)
    requires modulus > 0 && DigitsRead(s, i, modulus, result)
    requires i == |s| <= max || i == max
    ensures GetVarint(s, max, modulus).Malformed?
  {
    VarintEndSkip(s, max, i);
  }

  /** A pointer-style result: the position just past the value and the value, or NULL. */
  datatype Pointer = Null | Past(q: nat, value: nat)
  {
    /** The same result as a value and the input left between q and the limit. */
    function AsDecoded(buf: bytes, limit: nat): Decoded<nat>
      requires limit <= |buf|
      requires Past? ==> q <= limit
    {
      if Null? then Malformed else Decoded(value, buf[q..limit])
    }
  }

  method GetVarint32PtrFallback(buf: bytes, p: nat, limit: nat) returns (r: Pointer)
    requires p <= limit <= |buf|
    ensures r.Past? ==> p < r.q <= limit
    ensures r.AsDecoded(buf, limit) == GetVarint32(buf[p..limit])
  {
    ghost var s := buf[p..limit];
    var result: nat, shift: nat, at: nat := 0, 0, p;
    while shift <= 28 && at < limit
      invariant p <= at <= limit && shift == 7 * (at - p) <= 35
      invariant DigitsRead(s, at - p, TWO_32, result)
      decreases limit - at
    {
      var b, weight := buf[at], Pow128(shift / 7);
      assert shift / 7 == at - p && s[at - p] == b;
      Round32(s, at - p, result);
      at := at + 1;
      if b >= 128 {
        result := result + b % 128 * weight % TWO_32;
      } else {
        result := result + b * weight % TWO_32;
        assert s[at - p..] == buf[at..limit];
        r := Past(at, result);
        assert r.AsDecoded(buf, limit) == Decoded(result, s[at - p..]);
        return;
      }
      shift := shift + 7;
    }
    ReadNone(s, at - p, 5, TWO_32, result);
    return Null;
  }

  /** The one-byte fast path gives what the loop gives, on every input. */
  method GetVarint32Ptr(buf: bytes, p: nat, limit: nat) returns (r: Pointer)
    requires p <= limit <= |buf|
    ensures r.Past? ==> p < r.q <= limit
    ensures r.AsDecoded(buf, limit) == GetVarint32(buf[p..limit])
  {
    if p < limit {
      var result := buf[p];
      if result < 128 {
        ghost var s := buf[p..limit];
        assert s[0] == result && VarintEnd(s, 5) == 1;
        assert s[..1][1..] == [] && VarintValue(s[..1]) == result;
        assert s[1..] == buf[p + 1..limit];
        return Past(p + 1, result);
      }
    }
    r := GetVarint32PtrFallback(buf, p, limit);
  }

  method GetVarint64Ptr(buf: bytes, p: nat, limit: nat) returns (r: Pointer)
    requires p <= limit <= |buf|
    ensures r.Past? ==> p < r.q <= limit
    ensures r.AsDecoded(buf, limit) == GetVarint64(buf[p..limit])
  {
    ghost var s := buf[p..limit];
    var result: nat, shift: nat, at: nat := 0, 0, p;
    while shift <= 63 && at < limit
      invariant p <= at <= limit && shift == 7 * (at - p) <= 70
      invariant DigitsRead(s, at - p, TWO_64, result)
      decreases limit - at
    {
      var b, weight := buf[at], Pow128(shift / 7);
      assert shift / 7 == at - p && s[at - p] == b;
      Round64(s, at - p, result);
      at := at + 1;
      if b >= 128 {
        result := result + b % 128 * weight % TWO_64;
      } else {
        result := result + b * weight % TWO_64;
        assert s[at - p..] == buf[at..limit];
        r := Past(at, result);
        assert r.AsDecoded(buf, limit) == Decoded(result, s[at - p..]);
        return;
      }
      shift := shift + 7;
    }
    ReadNone(s, at - p, 10, TWO_64, result);
    return Null;
  }

  /** The Slice form: the result, and what is left of the input, on failure too. */
  method GetLengthPrefixedSlice(input: bytes) returns (r: Decoded<bytes>, left: bytes)
    ensures r == GetSlice(input)
    ensures r.Decoded? ==> left == r.rest
    ensures r.Malformed? ==>
              left == match GetVarint32(input) case Malformed => input case Decoded(_, rest) => rest
  {
    var p := GetVarint32Ptr(input, 0, |input|);
    assert input[0..|input|] == input;
    if p.Null? {
      return Malformed, input;
    }
    var rest := input[p.q..];
    if |rest| < p.value {
      return Malformed, rest;
    }
    return Decoded(rest[..p.value], rest[p.value..]), rest[p.value..];
  }

  // ---------------------------------------------------------------------------------------
  // Decoding inverts encoding, in context
  // ---------------------------------------------------------------------------------------

  lemma {:induction false} VarintValueInverts(v: nat)
    ensures VarintValue(Varint(v)) == v
  {
    if v >= 128 {
      VarintValueInverts(v / 128);
      assert Varint(v)[1..] == Varint(v / 128);
    } else {
      assert Varint(v)[1..] == [];
    }
  }

  lemma {:induction false} VarintEndInverts(v: nat, suffix: bytes, max: nat)
    requires |Varint(v)| <= max
    ensures VarintEnd(Varint(v) + suffix, max) == |Varint(v)|
  {
    if v >= 128 {
      VarintEndInverts(v / 128, suffix, max - 1);
      assert (Varint(v) + suffix)[1..] == Varint(v / 128) + suffix;
    }
  }

  lemma {:induction false} VarintEndTruncated(v: nat, k: nat, max: nat)
    requires k < |Varint(v)|
    ensures VarintEnd(Varint(v)[..k], max) == 0
  {
    if k > 0 && max > 0 {
      assert Varint(v)[..k][1..] == Varint(v / 128)[..k - 1];
      VarintEndTruncated(v / 128, k - 1, max - 1);
    }
  }

  lemma VarintRoundTrip(v: nat, suffix: bytes, max: nat, modulus: nat)
    requires |Varint(v)| <= max && v < modulus
    ensures GetVarint(Varint(v) + suffix, max, modulus) == Decoded(v, suffix)
  {
    VarintEndInverts(v, suffix, max);
    VarintValueInverts(v);
    assert (Varint(v) + suffix)[..|Varint(v)|] == Varint(v);
    ModOf(v, v, 0, modulus);
  }

  /** A 32-bit or 64-bit varint followed by anything decodes to its value and leaves the rest. */
  lemma Varint32RoundTrip(v: uint32, suffix: bytes)
    ensures GetVarint32(Varint(v) + suffix) == Decoded(v, suffix)
  {
    VarintWidths(v);
    VarintRoundTrip(v, suffix, 5, TWO_32);
  }

  lemma Varint64RoundTrip(v: uint64, suffix: bytes)
    ensures GetVarint64(Varint(v) + suffix) == Decoded(v, suffix)
  {
    VarintWidths(v);
    VarintRoundTrip(v, suffix, 10, TWO_64);
  }

  /** A varint that fits the bytes but not the type wraps; one that does not end in time is malformed. */
  lemma VarintOverflow(v: nat, s: bytes, suffix: bytes)
    ensures |Varint(v)| <= 5 ==> GetVarint32(Varint(v) + suffix) == Decoded(v % TWO_32, suffix)
    ensures |Varint(v)| <= 10 ==> GetVarint64(Varint(v) + suffix) == Decoded(v % TWO_64, suffix)
    ensures |s| >= 5 && (forall i :: 0 <= i < 5 ==> s[i] >= 128) ==> GetVarint32(s).Malformed?
    ensures |s| >= 10 && (forall i :: 0 <= i < 10 ==> s[i] >= 128) ==> GetVarint64(s).Malformed?
  {
    VarintValueInverts(v);
    assert (Varint(v) + suffix)[..|Varint(v)|] == Varint(v);
    if |Varint(v)| <= 5 {
      VarintEndInverts(v, suffix, 5);
    }
    if |Varint(v)| <= 10 {
      VarintEndInverts(v, suffix, 10);
    }
    if |s| >= 5 && forall i :: 0 <= i < 5 ==> s[i] >= 128 {
      VarintEndSkip(s, 5, 5);
    }
    if |s| >= 10 && forall i :: 0 <= i < 10 ==> s[i] >= 128 {
      VarintEndSkip(s, 10, 10);
    }
  }

  /** No varint is a proper prefix of another, so every truncation is malformed. */
  lemma VarintTruncated(v: nat, k: nat)
    requires k < |Varint(v)|
    ensures GetVarint32(Varint(v)[..k]).Malformed? && GetVarint64(Varint(v)[..k]).Malformed?
  {
    VarintEndTruncated(v, k, 5);
    VarintEndTruncated(v, k, 10);
  }

  lemma SliceRoundTrip(x: bytes, suffix: bytes)
    requires |x| < TWO_32
    ensures GetSlice(Slice(x) + suffix) == Decoded(x, suffix)
  {
    Varint32RoundTrip(|x|, x + suffix);
    assert Slice(x) + suffix == Varint(|x|) + (x + suffix);
    assert (x + suffix)[..|x|] == x && (x + suffix)[|x|..] == suffix;
  }

  /** A slice written with a narrowed length is read back up to that length. */
  lemma NarrowedRead(x: bytes, suffix: bytes)
    ensures var n := |x| % TWO_32; GetSlice(Narrowed(x) + suffix) == Decoded(x[..n], x[n..] + suffix)
  {
    PrefixRead(x, |x| % TWO_32, suffix);
  }

  lemma PrefixRead(x: bytes, n: nat, suffix: bytes)
    requires n <= |x| && n < TWO_32
    ensures GetSlice(Varint(n) + x + suffix) == Decoded(x[..n], x[n..] + suffix)
  {
    Varint32RoundTrip(n, x + suffix);
    assert Varint(n) + x + suffix == Varint(n) + (x + suffix);
    assert (x + suffix)[..n] == x[..n] && (x + suffix)[n..] == x[n..] + suffix;
  }

  lemma SliceTruncated(x: bytes, k: nat)
    requires |x| < TWO_32 && k < |Slice(x)|
    ensures GetSlice(Slice(x)[..k]).Malformed?
  {
    var n := |Varint(|x|)|;
    if k < n {
      assert Slice(x)[..k] == Varint(|x|)[..k];
      VarintTruncated(|x|, k);
    } else {
      assert Slice(x)[..k] == Varint(|x|) + x[..k - n];
      Varint32RoundTrip(|x|, x[..k - n]);
    }
  }

  lemma {:induction false} Fixed32RoundTrip(v: nat)
    ensures DecodeFixed32(Fixed32(v)) == v % TWO_32
    ensures v < TWO_32 ==> DecodeFixed32(Fixed32(v)) == v
  {
    FourBytes(v, v / 0x100, v / 0x1_0000, v / 0x100_0000);
  }

  lemma {:induction false} FourBytes(v: nat, b: nat, c: nat, d: nat)
    requires b == v / 0x100 && c == v / 0x1_0000 && d == v / 0x100_0000
    ensures v == v % 256 + 0x100 * (b % 256) + 0x1_0000 * (c % 256) + 0x100_0000 * (d % 256) + TWO_32 * (d / 256)
  {
    assert c == b / 256 && d == c / 256;
  }

  /** The bytes of a varint and of a fixed integer, written out. */
  lemma CodingExamples()
    ensures Varint(127) == [127] && Varint(300) == [172, 2]
    ensures Fixed32(0x0403_0201) == [1, 2, 3, 4]
  {
    assert Varint(2) == [2] && 300 / 128 == 2 && 300 % 128 == 44;
  }

  /** Whether a varint ends depends only on its own bytes. */
  lemma {:induction false} VarintEndLocal(s: bytes, max: nat, suffix: bytes)
    requires VarintEnd(s, max) > 0
    ensures VarintEnd(s[..VarintEnd(s, max)] + suffix, max) == VarintEnd(s, max)
  {
    var k := VarintEnd(s, max);
    if s[0] >= 128 {
      VarintEndLocal(s[1..], max - 1, suffix);
      assert (s[..k] + suffix)[1..] == s[1..][..k - 1] + suffix;
    }
  }

  /** A decoded varint takes up a head of the input, which decodes to it before anything else. */
  lemma VarintHead(s: bytes, suffix: bytes)
    requires GetVarint32(s).Decoded?
    ensures var d := GetVarint32(s);
            var head := s[..|s| - |d.rest|];
            s == head + d.rest && head != [] && GetVarint32(head + suffix) == Decoded(d.value, suffix)
  {
    var k := VarintEnd(s, 5);
    VarintEndLocal(s, 5, suffix);
    assert (s[..k] + suffix)[..k] == s[..k] && (s[..k] + suffix)[k..] == suffix;
  }

  /** Any list of varints written one after another is read back, whatever follows it. */
  function Varints(vs: seq<nat>): bytes {
    if vs == [] then [] else Varint(vs[0]) + Varints(vs[1..])
  }

  function GetVarints(s: bytes, n: nat, max: nat, modulus: nat): Decoded<seq<nat>>
    requires modulus > 0
  {
    if n == 0 then Decoded([], s)
    else
      match GetVarint(s, max, modulus)
      case Malformed => Malformed
      case Decoded(v, rest) =>
        match GetVarints(rest, n - 1, max, modulus)
        case Malformed => Malformed
        case Decoded(vs, rest') => Decoded([v] + vs, rest')
  }

  lemma {:induction false} VarintListRoundTrip(vs: seq<nat>, suffix: bytes, max: nat, modulus: nat)
    requires modulus > 0 && forall i :: 0 <= i < |vs| ==> vs[i] < modulus && |Varint(vs[i])| <= max
    ensures GetVarints(Varints(vs) + suffix, |vs|, max, modulus) == Decoded(vs, suffix)
  {
    if vs == [] {
      assert Varints(vs) + suffix == suffix;
    } else {
      assert Varints(vs) + suffix == Varint(vs[0]) + (Varints(vs[1..]) + suffix);
      VarintRoundTrip(vs[0], Varints(vs[1..]) + suffix, max, modulus);
      VarintListRoundTrip(vs[1..], suffix, max, modulus);
      assert [vs[0]] + vs[1..] == vs;
    }
  }

  lemma VarintsRoundTrip(vs: seq<nat>, suffix: bytes)
    ensures (forall i :: 0 <= i < |vs| ==> vs[i] < TWO_32) ==>
              GetVarints(Varints(vs) + suffix, |vs|, 5, TWO_32) == Decoded(vs, suffix)
    ensures (forall i :: 0 <= i < |vs| ==> vs[i] < TWO_64) ==>
              GetVarints(Varints(vs) + suffix, |vs|, 10, TWO_64) == Decoded(vs, suffix)
  {
    if forall i :: 0 <= i < |vs| ==> vs[i] < TWO_64 {
      forall i | 0 <= i < |vs| ensures |Varint(vs[i])| <= 10 && (vs[i] < TWO_32 ==> |Varint(vs[i])| <= 5) {
        VarintWidths(vs[i]);
      }
      VarintListRoundTrip(vs, suffix, 10, TWO_64);
      if forall i :: 0 <= i < |vs| ==> vs[i] < TWO_32 {
        VarintListRoundTrip(vs, suffix, 5, TWO_32);
      }
    }
  }

  /** Any list of slices written one after another is read back, whatever follows it. */
  function Slices(xs: seq<bytes>): bytes {
    if xs == [] then [] else Slice(xs[0]) + Slices(xs[1..])
  }

  function GetSlices(s: bytes, n: nat): Decoded<seq<bytes>> {
    if n == 0 then Decoded([], s)
    else
      match GetSlice(s)
      case Malformed => Malformed
      case Decoded(x, rest) =>
        match GetSlices(rest, n - 1)
        case Malformed => Malformed
        case Decoded(xs, rest') => Decoded([x] + xs, rest')
  }

  lemma {:induction false} SlicesRoundTrip(xs: seq<bytes>, suffix: bytes)
    requires forall i :: 0 <= i < |xs| ==> |xs[i]| < TWO_32
    ensures GetSlices(Slices(xs) + suffix, |xs|) == Decoded(xs, suffix)
  {
    if xs == [] {
      assert Slices(xs) + suffix == suffix;
    } else {
      assert Slices(xs) + suffix == Slice(xs[0]) + (Slices(xs[1..]) + suffix);
      SliceRoundTrip(xs[0], Slices(xs[1..]) + suffix);
      SlicesRoundTrip(xs[1..], suffix);
      assert [xs[0]] + xs[1..] == xs;
    }
  }
}
