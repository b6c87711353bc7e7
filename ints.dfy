/** Fixed-width unsigned integers of the Rust source, as bounded naturals,
    and the saturating and wrapping operations the source uses on them. */
module Ints {

  const TWO_8: nat := 0x100
  const TWO_16: nat := 0x1_0000
  const TWO_32: nat := 0x1_0000_0000
  const TWO_48: nat := 0x1_0000_0000_0000
  const TWO_64: nat := 0x1_0000_0000_0000_0000

  type u8 = x: int | 0 <= x < 0x100
  type u16 = x: int | 0 <= x < 0x1_0000
  type u32 = x: int | 0 <= x < 0x1_0000_0000
  type u64 = x: int | 0 <= x < 0x1_0000_0000_0000_0000

  /** Rust's `saturating_sub` on unsigned integers. */
  function SatSub(a: nat, b: nat): (r: nat)
    ensures a >= b ==> r + b == a
    ensures a < b ==> r == 0
  {
    if a >= b then a - b else 0
  }

  /** Rust's `saturating_add` on `u64`. */
  function SatAdd64(a: u64, b: u64): (r: u64)
    ensures a + b < TWO_64 ==> r == a + b
    ensures a + b >= TWO_64 ==> r == TWO_64 - 1
  {
    if a + b < TWO_64 then a + b else TWO_64 - 1
  }

  /** 2 to the power k. */
  function Pow2(k: nat): (r: nat)
    ensures r >= 1
  {
    if k == 0 then 1 else 2 * Pow2(k - 1)
  }

  function Min(a: int, b: int): (r: int)
    ensures r <= a && r <= b && (r == a || r == b)
  {
    if a <= b then a else b
  }

  function Max(a: int, b: int): (r: int)
    ensures r >= a && r >= b && (r == a || r == b)
  {
    if a >= b then a else b
  }

  /** Rust's `Ord::clamp`, which panics unless `lo <= hi`. */
  function Clamp(x: int, lo: int, hi: int): (r: int)
    requires lo <= hi
    ensures lo <= r <= hi
    ensures lo <= x <= hi ==> r == x
    ensures x < lo ==> r == lo
    ensures x > hi ==> r == hi
  {
    if x < lo then lo else if x > hi then hi else x
  }

  /** The sum of a sequence of naturals. */
  function Sum(s: seq<nat>): nat
  {
    if s == [] then 0 else Sum(s[..|s| - 1]) + s[|s| - 1]
  }

  /** Little-endian bytes of a `u32` (Rust's `u32::to_le_bytes`). */
  function LeBytes32(n: u32): (r: seq<u8>)
    ensures |r| == 4
  {
    [n % 0x100, (n / 0x100) % 0x100, (n / 0x1_0000) % 0x100, n / 0x100_0000]
  }

  /** The `width` low-order bytes of `n`, least significant first. */
  function LeBytesN(n: nat, width: nat): (r: seq<u8>)
    ensures |r| == width
  {
    if width == 0 then [] else [n % 0x100] + LeBytesN(n / 0x100, width - 1)
  }

  /** Rust's `u64::to_le_bytes`. */
  function LeBytes64(n: u64): (r: seq<u8>)
    ensures |r| == 8
  {
    LeBytesN(n, 8)
  }

  /** Rust's `u32::from_le_bytes`. */
  function FromLeBytes32(b: seq<u8>): (n: nat)
    requires |b| == 4
    ensures n < TWO_32
  {
    b[0] as int + b[1] as int * 0x100 + b[2] as int * 0x1_0000 + b[3] as int * 0x100_0000
  }

  /** Big-endian bytes of a `u32` (Python's `struct.pack(">I", n)`). */
  function BeBytes32(n: u32): (r: seq<u8>)
    ensures |r| == 4
  {
    [n / 0x100_0000, (n / 0x1_0000) % 0x100, (n / 0x100) % 0x100, n % 0x100]
  }

  /** Decoding big-endian bytes. */
  function FromBeBytes32(b: seq<u8>): (n: nat)
    requires |b| == 4
    ensures n < TWO_32
  {
    b[0] as int * 0x100_0000 + b[1] as int * 0x1_0000 + b[2] as int * 0x100 + b[3] as int
  }

  /** The four base-256 digits of a `u32`, least significant first. */
  lemma Digits32(n: u32)
    ensures n == n % 0x100 + ((n / 0x100) % 0x100) * 0x100
               + ((n / 0x1_0000) % 0x100) * 0x1_0000 + (n / 0x100_0000) * 0x100_0000
  {
    var a, b, c := n / 0x100, n / 0x1_0000, n / 0x100_0000;
    assert n == a * 0x100 + n % 0x100;
    assert a == b * 0x100 + a % 0x100;
    assert b == c * 0x100 + b % 0x100;
    assert a % 0x100 == (n / 0x100) % 0x100;
    assert b == a / 0x100;
    assert c == b / 0x100;
  }

  lemma LeBytesRoundTrip(n: u32)
    ensures FromLeBytes32(LeBytes32(n)) == n
  {
    Digits32(n);
  }

  lemma BeBytesRoundTrip(n: u32)
    ensures FromBeBytes32(BeBytes32(n)) == n
  {
    Digits32(n);
  }

  // ---------------------------------------------------------------------
  // Decimal numerals (`format!("{}", n)` and `str::parse::<u64>`)

  predicate IsDigit(c: char) {
    '0' <= c <= '9'
  }

  predicate AllDigits(s: string) {
    forall i | 0 <= i < |s| :: IsDigit(s[i])
  }

  function DigitChar(d: nat): (c: char)
    requires d < 10
    ensures IsDigit(c) && c as int - '0' as int == d
  {
    ('0' as int + d) as char
  }

  /** The decimal numeral of `n`, with no leading zeros. */
  function NatToString(n: nat): (s: string)
    ensures |s| >= 1 && AllDigits(s)
    ensures |s| > 1 ==> s[0] != '0'
    decreases n
  {
    if n < 10 then [DigitChar(n)] else NatToString(n / 10) + [DigitChar(n % 10)]
  }

  /** The value of a string of decimal digits. */
  function ParseDecimal(s: string): nat
    requires AllDigits(s)
    decreases |s|
  {
    if |s| == 0 then 0 else ParseDecimal(s[..|s| - 1]) * 10 + (s[|s| - 1] as int - '0' as int)
  }

  /** Reading back a numeral gives the number. */
  lemma {:induction false} ParseNatToString(n: nat)
    ensures ParseDecimal(NatToString(n)) == n
    decreases n
  {
    if n >= 10 {
      ParseNatToString(n / 10);
      var s := NatToString(n);
      assert s[..|s| - 1] == NatToString(n / 10);
    }
  }

  /** Different numbers have different numerals. */
  lemma NatToStringInjective(a: nat, b: nat)
    requires NatToString(a) == NatToString(b)
    ensures a == b
  {
    ParseNatToString(a);
    ParseNatToString(b);
  }
}
