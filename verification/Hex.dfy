/** Hexadecimal text and its conversions (encoding_helpers.cpp, convert_to_32byte of adapter_ethereum.cpp). */
module Hex {
  import opened Bytes

  type Nibble = x: int | 0 <= x < 16

  const DIGITS := "0123456789abcdef"

  /** INT_MAX of a 32-bit int, the value a stream extraction stores on overflow. */
  const INT_MAX := 0x7fff_ffff

  function Digit(d: Nibble): char { DIGITS[d] }

  predicate IsHexDigit(c: char) { '0' <= c <= '9' || 'a' <= c <= 'f' || 'A' <= c <= 'F' }

  function DigitValue(c: char): Nibble
    requires IsHexDigit(c)
  {
    if '0' <= c <= '9' then c as int - '0' as int
    else if 'a' <= c <= 'f' then c as int - 'a' as int + 10
    else c as int - 'A' as int + 10
  }

  predicate IsHex(s: string) { forall c :: c in s ==> IsHexDigit(c) }

  lemma DigitRoundTrip(d: Nibble)
    ensures IsHexDigit(Digit(d)) && DigitValue(Digit(d)) == d
  {
  }

  function ParseHex(s: string): nat
    requires IsHex(s)
  {
    if s == "" then 0 else ParseHex(s[..|s| - 1]) * 16 + DigitValue(s[|s| - 1])
  }

  // ---------------------------------------------------------------- extraction from a text

  /** White space to a stream: blank, and tab to carriage return. */
  predicate IsSpace(c: char) { c == ' ' || '\t' <= c <= '\r' }

  function SkipSpace(s: string): string {
    if s != "" && IsSpace(s[0]) then SkipSpace(s[1..]) else s
  }

  /** The prefix 0x, which libstdc++ accepts any number of times. */
  function SkipPrefix(s: string): string {
    if |s| >= 2 && s[0] == '0' && (s[1] == 'x' || s[1] == 'X') then SkipPrefix(s[2..]) else s
  }

  function LeadingDigits(s: string): (t: string)
    ensures IsHex(t)
  {
    if s != "" && IsHexDigit(s[0]) then [s[0]] + LeadingDigits(s[1..]) else ""
  }

  function Clamp(n: int): int {
    if n > INT_MAX then INT_MAX else if n < -INT_MAX - 1 then -INT_MAX - 1 else n
  }

  /** What a stream in hex mode stores in an int: nothing when there is nothing but white space, 0 when no
      digit follows, the nearest int when the number is none. */
  function Extract(s: string): Option<int> {
    var t := SkipSpace(s);
    if t == "" then None
    else
      var n: int := ParseHex(LeadingDigits(SkipPrefix(if t[0] == '-' || t[0] == '+' then t[1..] else t)));
      Some(Clamp(if t[0] == '-' then -n else n))
  }

  /** hex_to_int; unset is what its local variable happens to hold. */
  function HexToInt(s: string, unset: int): int {
    if Extract(s).Some? then Extract(s).value else unset
  }

  lemma {:induction false} AllLeading(s: string)
    requires IsHex(s)
    ensures LeadingDigits(s) == s
  {
    if s != "" {
      AllLeading(s[1..]);
      assert s == [s[0]] + s[1..];
    }
  }

  /** A text of digits is read to its end. */
  lemma {:induction false} ExtractDigits(s: string)
    requires IsHex(s) && s != ""
    ensures Extract(s) == Some(Clamp(ParseHex(s)))
  {
    assert IsHexDigit(s[0]) && (|s| >= 2 ==> IsHexDigit(s[1]));
    AllLeading(s);
  }

  // ---------------------------------------------------------------- bytes as hex

  /** Two lower-case digits a byte. */
  function ToHex(b: BYTES): (s: string)
    ensures |s| == 2 * |b|
  {
    seq(2 * |b|, i requires 0 <= i < 2 * |b| => HexAt(b, i))
  }

  function HexAt(b: BYTES, i: nat): char
    requires i < 2 * |b|
  {
    if i % 2 == 0 then Digit(b[i / 2] / 16) else Digit(b[i / 2] % 16)
  }

  /** Each pair of characters is extracted into an int that was 0 and cut to a byte; that they are digits
      is not checked. */
  function FromHex(s: string): (b: BYTES)
    requires |s| % 2 == 0
    ensures |b| == |s| / 2
  {
    seq(|s| / 2, i requires 0 <= i < |s| / 2 => ByteAt(s, i))
  }

  function ByteAt(s: string, i: nat): Byte
    requires 2 * i + 1 < |s|
  {
    HexToInt(s[2 * i..2 * i + 2], 0) % 256
  }

  lemma {:induction false} PairReads(s: string)
    requires IsHex(s) && |s| == 2
    ensures Extract(s) == Some(DigitValue(s[0]) * 16 + DigitValue(s[1]))
  {
    ExtractDigits(s);
    OneDigit(s[0]);
    assert s[..1] == [s[0]];
  }

  lemma {:induction false} OneDigit(d: char)
    requires IsHexDigit(d)
    ensures IsHex([d]) && ParseHex([d]) == DigitValue(d)
  {
    assert [d][..0] == "";
  }

  /** Malformed pairs are not rejected: no digit reads as 0, and a sign makes the byte wrap. */
  lemma {:induction false} MalformedPairs(c: char, d: char)
    requires IsHexDigit(d)
    ensures !IsHexDigit(c) && !IsSpace(c) && c != '-' && c != '+' ==> FromHex([c, d]) == [0]
    ensures FromHex(['-', d]) == [(256 - DigitValue(d)) % 256]
  {
    var bad, minus := [c, d], ['-', d];
    assert bad[0..2] == bad && minus[0..2] == minus && minus[1..] == [d];
    AllLeading([d]);
    OneDigit(d);
  }

  lemma {:induction false} ToHexIsHex(b: BYTES)
    ensures IsHex(ToHex(b))
  {
    forall i | 0 <= i < |ToHex(b)| ensures IsHexDigit(ToHex(b)[i]) {
      assert ToHex(b)[i] == HexAt(b, i);
    }
  }

  lemma {:induction false} ByteRoundTrip(b: BYTES, i: nat)
    requires i < |b|
    ensures ByteAt(ToHex(b), i) == b[i]
  {
    PairAt(b, i);
    NibblesRead(b[i], b[i] / 16, b[i] % 16);
  }

  lemma {:induction false} PairAt(b: BYTES, i: nat)
    requires i < |b|
    ensures ToHex(b)[2 * i..2 * i + 2] == [Digit(b[i] / 16), Digit(b[i] % 16)]
  {
    assert HexAt(b, 2 * i) == Digit(b[i] / 16) && HexAt(b, 2 * i + 1) == Digit(b[i] % 16);
  }

  lemma {:induction false} NibblesRead(x: Byte, hi: Nibble, lo: Nibble)
    requires x == 16 * hi + lo
    ensures HexToInt([Digit(hi), Digit(lo)], 0) == x
  {
    DigitRoundTrip(hi);
    DigitRoundTrip(lo);
    PairReads([Digit(hi), Digit(lo)]);
  }

  /** Decoding what was encoded gives the bytes back. */
  lemma {:induction false} HexRoundTrip(b: BYTES)
    ensures IsHex(ToHex(b)) && FromHex(ToHex(b)) == b
  {
    ToHexIsHex(b);
    var s := ToHex(b);
    forall i | 0 <= i < |b| ensures ByteAt(s, i) == b[i] {
      ByteRoundTrip(b, i);
    }
  }

  lemma {:induction false} ToHexInjective(a: BYTES, b: BYTES)
    requires ToHex(a) == ToHex(b)
    ensures a == b
  {
    HexRoundTrip(a);
    HexRoundTrip(b);
  }

  lemma {:induction false} ToHexConcat(a: BYTES, b: BYTES)
    ensures ToHex(a + b) == ToHex(a) + ToHex(b)
  {
    var l, r := ToHex(a + b), ToHex(a) + ToHex(b);
    forall i | 0 <= i < |l| ensures l[i] == r[i] {
      if i < 2 * |a| {
        assert i / 2 < |a| && (a + b)[i / 2] == a[i / 2];
      } else {
        assert (i - 2 * |a|) / 2 == i / 2 - |a|;
        assert (a + b)[i / 2] == b[i / 2 - |a|];
      }
    }
  }

  lemma {:induction false} ToHexSlice(b: BYTES, lo: nat, hi: nat)
    requires lo <= hi <= |b|
    ensures ToHex(b)[2 * lo..2 * hi] == ToHex(b[lo..hi])
  {
    ToHexConcat(b[..lo], b[lo..hi]);
    ToHexConcat(b[..hi], b[hi..]);
    assert b[..hi] == b[..lo] + b[lo..hi] && b == b[..hi] + b[hi..];
  }

  /** byte_array_to_hex: one setw(2) stream insertion a byte. */
  method ByteArrayToHex(data: BYTES) returns (s: string)
    ensures s == ToHex(data)
  {
    s := "";
    var i := 0;
    while i < |data|
      invariant 0 <= i <= |data|
      invariant s == ToHex(data[..i])
    {
      s := s + [Digit(data[i] / 16), Digit(data[i] % 16)];
      assert data[..i + 1] == data[..i] + [data[i]];
      ToHexConcat(data[..i], [data[i]]);
      assert ToHex([data[i]]) == [Digit(data[i] / 16), Digit(data[i] % 16)];
      i := i + 1;
    }
    assert data[..i] == data;
  }

  /** hex_to_byte_array: throws on an odd number of digits. */
  method HexToByteArray(s: string) returns (r: Result<BYTES>)
    ensures r == if |s| % 2 != 0 then Thrown else Ok(FromHex(s))
  {
    if |s| % 2 != 0 {
      return Thrown;
    }
    var data: BYTES := [];
    var i := 0;
    while i < |s| / 2
      invariant 0 <= i <= |s| / 2
      invariant data == FromHex(s)[..i]
    {
      data := data + [HexToInt(s[2 * i..2 * i + 2], 0) % 256];
      i := i + 1;
    }
    assert data == FromHex(s);
    return Ok(data);
  }

  // ---------------------------------------------------------------- numbers as hex

  function Pow16(n: nat): nat { if n == 0 then 1 else 16 * Pow16(n - 1) }

  function Pow256(n: nat): nat { if n == 0 then 1 else 256 * Pow256(n - 1) }

  lemma {:induction false} Pow16Grows(m: nat, n: nat)
    requires m <= n
    ensures 1 <= Pow16(m) <= Pow16(n)
    decreases n
  {
    if m < n {
      Pow16Grows(m, n - 1);
    } else if 0 < m {
      Pow16Grows(m - 1, m - 1);
    }
  }

  lemma {:induction false} Pow256IsPow16(n: nat)
    ensures Pow256(n) == Pow16(2 * n)
  {
    if n != 0 {
      Pow256IsPow16(n - 1);
      assert Pow16(2 * n) == 16 * Pow16(2 * n - 1) == 16 * (16 * Pow16(2 * n - 2));
    }
  }

  /** A size_t fits in the 64 digits of a word. */
  lemma SizeFitsWord(n: nat)
    requires n < TWO64
    ensures n < Pow16(64) && n < Pow256(32)
  {
    assert Pow16(4) == 0x1_0000;
    assert Pow16(8) == TWO32;
    assert Pow16(12) == 0x1_0000_0000_0000;
    assert Pow16(16) == TWO64;
    Pow16Grows(16, 64);
    Pow256IsPow16(32);
  }

  function Zeros(n: nat): (s: string)
    ensures |s| == n && forall i :: 0 <= i < n ==> s[i] == '0'
  {
    seq(n, _ => '0')
  }

  /** std::hex output of a number, without padding. */
  function HexDigits(n: nat): string {
    if n < 16 then [Digit(n)] else HexDigits(n / 16) + [Digit(n % 16)]
  }

  /** int_to_hex: filled with zeros on the left up to the given width, never cut. */
  function IntToHex(n: nat, size: nat): string {
    var digits := HexDigits(n);
    if |digits| < size then Zeros(size - |digits|) + digits else digits
  }

  lemma {:induction false} HexDigitsParse(n: nat)
    ensures IsHex(HexDigits(n)) && ParseHex(HexDigits(n)) == n && |HexDigits(n)| >= 1
  {
    DigitRoundTrip(n % 16);
    if n >= 16 {
      var q, r := n / 16, n % 16;
      HexDigitsParse(q);
      ParseAppend(HexDigits(q), Digit(r), q);
      assert HexDigits(n) == HexDigits(q) + [Digit(r)] && 16 * q + r == n;
    } else {
      OneDigit(Digit(n));
    }
  }

  lemma {:induction false} ParseAppend(s: string, d: char, n: nat)
    requires IsHex(s) && ParseHex(s) == n && IsHexDigit(d)
    ensures IsHex(s + [d]) && ParseHex(s + [d]) == 16 * n + DigitValue(d)
  {
    assert (s + [d])[..|s|] == s;
  }

  lemma {:induction false} HexDigitsLength(n: nat, k: nat)
    requires n < Pow16(k) && 1 <= k
    ensures |HexDigits(n)| <= k
  {
    if n >= 16 {
      assert Pow16(1) == 16 * Pow16(0);
      HexDigitsLength(n / 16, k - 1);
    }
  }

  lemma {:induction false} ZerosParse(n: nat, s: string)
    requires IsHex(s)
    ensures IsHex(Zeros(n) + s) && ParseHex(Zeros(n) + s) == ParseHex(s)
  {
    var z := Zeros(n) + s;
    if s != "" {
      assert z[..|z| - 1] == Zeros(n) + s[..|s| - 1];
      ZerosParse(n, s[..|s| - 1]);
    } else if n > 0 {
      assert z[..n - 1] == Zeros(n - 1) + "";
      ZerosParse(n - 1, "");
    }
  }

  /** Reading back an encoded number below 2^31 gives that number, whatever the field width. */
  lemma {:induction false} IntRoundTrip(n: nat, size: nat)
    ensures IsHex(IntToHex(n, size)) && ParseHex(IntToHex(n, size)) == n
    ensures Extract(IntToHex(n, size)) == Some(if n <= INT_MAX then n else INT_MAX)
  {
    HexDigitsParse(n);
    if |HexDigits(n)| < size {
      ZerosParse(size - |HexDigits(n)|, HexDigits(n));
    }
    ExtractDigits(IntToHex(n, size));
  }

  // ---------------------------------------------------------------- 32-byte words

  /** The big-endian representation of n in len bytes. */
  function BigEndian(n: nat, len: nat): (b: BYTES)
    ensures |b| == len
  {
    if len == 0 then [] else BigEndian(n / 256, len - 1) + [n % 256]
  }

  function Word(n: nat): (b: BYTES)
    ensures |b| == 32
  {
    BigEndian(n, 32)
  }

  lemma {:induction false} BigEndianNum(n: nat, len: nat)
    requires n < Pow256(len)
    ensures Num(BigEndian(n, len)) == n
  {
    if len > 0 {
      BigEndianNum(n / 256, len - 1);
      NumAppend(BigEndian(n / 256, len - 1), n % 256);
    }
  }

  /** n written with exactly len digits. */
  function FixedHex(n: nat, len: nat): (s: string)
    ensures |s| == len
  {
    if len == 0 then "" else FixedHex(n / 16, len - 1) + [Digit(n % 16)]
  }

  lemma {:induction false} BigEndianHex(n: nat, len: nat)
    ensures ToHex(BigEndian(n, len)) == FixedHex(n, 2 * len)
  {
    if len > 0 {
      var m, b := n / 256, n % 256;
      BigEndianHex(m, len - 1);
      ToHexConcat(BigEndian(m, len - 1), [b]);
      assert ToHex([b]) == [Digit(b / 16), Digit(b % 16)];
      TwoDigits(n, 2 * len);
    }
  }

  /** The last two digits are those of the last byte. */
  lemma {:induction false} TwoDigits(n: nat, len: nat)
    requires len >= 2
    ensures FixedHex(n, len) == FixedHex(n / 256, len - 2) + [Digit(n % 256 / 16), Digit(n % 256 % 16)]
  {
    assert n / 16 / 16 == n / 256 && n / 16 % 16 == n % 256 / 16 && n % 16 == n % 256 % 16;
    assert FixedHex(n, len) == FixedHex(n / 16, len - 1) + [Digit(n % 16)];
    assert FixedHex(n / 16, len - 1) == FixedHex(n / 16 / 16, len - 2) + [Digit(n / 16 % 16)];
  }

  lemma {:induction false} FixedHexZero(len: nat)
    ensures FixedHex(0, len) == Zeros(len)
  {
    if len > 0 {
      FixedHexZero(len - 1);
    }
  }

  lemma {:induction false} IntToHexStep(n: nat, len: nat)
    requires n >= 16 && len >= 1
    ensures IntToHex(n, len) == IntToHex(n / 16, len - 1) + [Digit(n % 16)]
  {
    var front, d := HexDigits(n / 16), Digit(n % 16);
    var fill := Zeros(if |front| + 1 < len then len - 1 - |front| else 0);
    assert fill + (front + [d]) == (fill + front) + [d];
    assert IntToHex(n, len) == fill + (front + [d]);
    assert IntToHex(n / 16, len - 1) == fill + front;
  }

  lemma {:induction false} IntToHexSmall(n: Nibble, len: nat)
    requires 1 <= len
    ensures IntToHex(n, len) == FixedHex(n, len)
  {
    FixedHexZero(len - 1);
    assert n / 16 == 0 && n % 16 == n;
    assert HexDigits(n) == [Digit(n)];
    assert Zeros(len - 1) + [Digit(n)] == IntToHex(n, len);
  }

  lemma {:induction false} IntToHexFixed(n: nat, len: nat)
    requires 1 <= len && n < Pow16(len)
    ensures IntToHex(n, len) == FixedHex(n, len)
  {
    if n < 16 {
      IntToHexSmall(n, len);
    } else {
      assert Pow16(len) == 16 * Pow16(len - 1) && Pow16(0) == 1;
      IntToHexFixed(n / 16, len - 1);
      IntToHexStep(n, len);
    }
  }

  /** int_to_hex at its default width is the hex of the number's 32-byte word. */
  lemma {:induction false} IntToHexIsWord(n: nat)
    requires n < Pow256(32)
    ensures IntToHex(n, 64) == ToHex(Word(n)) && Num(Word(n)) == n
  {
    Pow256IsPow16(32);
    IntToHexFixed(n, 64);
    BigEndianHex(n, 32);
    BigEndianNum(n, 32);
  }

  /** convert_to_32byte: filled with zeros on the right, cut at 64 digits. */
  function ConvertTo32Byte(data: string): (s: string)
    ensures |s| == 64
  {
    (data + Zeros(64))[..64]
  }

  function ZeroBytes(n: nat): (b: BYTES)
    ensures |b| == n
  {
    seq(n, _ => 0)
  }

  /** The bytes32 that a key of any length becomes. */
  function Pad32(b: BYTES): (p: BYTES)
    ensures |p| == 32
    ensures |b| == 32 ==> p == b
  {
    (b + ZeroBytes(32))[..32]
  }

  lemma {:induction false} Pad32Prefix(b: BYTES)
    requires |b| <= 32
    ensures Pad32(b)[..|b|] == b
  {
  }

  lemma {:induction false} ZeroBytesHex(n: nat)
    ensures ToHex(ZeroBytes(n)) == Zeros(2 * n)
  {
  }

  lemma {:induction false} ConvertPads(b: BYTES)
    ensures ConvertTo32Byte(ToHex(b)) == ToHex(Pad32(b))
  {
    var z := b + ZeroBytes(32);
    ToHexConcat(b, ZeroBytes(32));
    ZeroBytesHex(32);
    ToHexSlice(z, 0, 32);
    assert ToHex(b) + Zeros(64) == ToHex(z);
  }
}
