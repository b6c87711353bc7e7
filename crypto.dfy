/** Join codes and checksums (crates/teleport-core/src/crypto.rs).
    The random bytes of `generate_join_code` are a parameter and BLAKE3 is an
    uninterpreted function passed in by the caller. */
module Crypto {
  import opened Ints
  import Paths

  const JOIN_CODE_LENGTH: nat := 6

  /** 32 unambiguous characters: no '0', '1', 'O' or 'I'. */
  const JOIN_CODE_CHARS: string := "23456789ABCDEFGHJKLMNPQRSTUVWXYZ"

  /** Membership in the alphabet, as ranges (see CodeCharsExactly). */
  predicate IsCodeChar(c: char) {
    ('2' <= c <= '9') || ('A' <= c <= 'Z' && c != 'I' && c != 'O')
  }

  lemma CodeCharAt(k: nat)
    requires k < |JOIN_CODE_CHARS|
    ensures IsCodeChar(JOIN_CODE_CHARS[k])
  {
  }

  /** Where a character sits in the alphabet. */
  function CodeIndex(c: char): (k: nat)
    requires IsCodeChar(c)
    ensures k < |JOIN_CODE_CHARS| && JOIN_CODE_CHARS[k] == c
  {
    if c <= '9' then c as int - '2' as int
    else if c < 'I' then c as int - 'A' as int + 8
    else if c < 'O' then c as int - 'A' as int + 7
    else c as int - 'A' as int + 6
  }

  /** The alphabet is exactly the digits 2-9 and the letters other than I and O. */
  lemma CodeCharsExactly(c: char)
    ensures c in JOIN_CODE_CHARS <==> IsCodeChar(c)
  {
    if IsCodeChar(c) {
      var k := CodeIndex(c);
    } else if c in JOIN_CODE_CHARS {
      var k :| 0 <= k < |JOIN_CODE_CHARS| && JOIN_CODE_CHARS[k] == c;
      CodeCharAt(k);
    }
  }

  /** Rust's `char::is_whitespace`: the Unicode White_Space property. */
  predicate IsWhitespace(c: char) {
    var n := c as int;
    (0x09 <= n <= 0x0D) || n == 0x20 || n == 0x85 || n == 0xA0 || n == 0x1680
    || (0x2000 <= n <= 0x200A) || n == 0x2028 || n == 0x2029 || n == 0x202F
    || n == 0x205F || n == 0x3000
  }

  /** Rust's `char::to_ascii_uppercase`. */
  function ToAsciiUpper(c: char): (u: char)
    ensures !('a' <= u <= 'z')
    ensures !('a' <= c <= 'z') ==> u == c
  {
    if 'a' <= c <= 'z' then (c as int - 32) as char else c
  }

  /** What normalisation does to one character. */
  function NormalizeChar(c: char): string {
    if IsWhitespace(c) || c == '-' then [] else [ToAsciiUpper(c)]
  }

  /** `normalize_join_code`: drop whitespace and '-', upper-case ASCII letters. */
  function NormalizeJoinCode(code: string): string
  {
    if code == [] then [] else NormalizeChar(code[0]) + NormalizeJoinCode(code[1..])
  }

  /** Normalisation works character by character: it distributes over concatenation. */
  lemma {:induction false} NormalizeConcat(a: string, b: string)
    ensures NormalizeJoinCode(a + b) == NormalizeJoinCode(a) + NormalizeJoinCode(b)
  {
    if a == [] {
      assert a + b == b;
    } else {
      assert (a + b)[0] == a[0];
      assert (a + b)[1..] == a[1..] + b;
      NormalizeConcat(a[1..], b);
    }
  }

  /** A character that normalisation leaves alone. */
  predicate IsNormal(c: char) {
    !IsWhitespace(c) && c != '-' && !('a' <= c <= 'z')
  }

  /** The characters that survive are exactly the upper-cased non-separators. */
  lemma {:induction false} NormalizeContents(code: string)
    ensures |NormalizeJoinCode(code)| <= |code|
    ensures forall c :: c in NormalizeJoinCode(code) ==> IsNormal(c)
    ensures forall c :: c in code && !IsWhitespace(c) && c != '-' ==>
      ToAsciiUpper(c) in NormalizeJoinCode(code)
  {
    if code != [] {
      NormalizeContents(code[1..]);
    }
  }

  /** A string without separators or lower-case letters is its own normal form. */
  lemma {:induction false} NormalizeFixed(code: string)
    requires forall i :: 0 <= i < |code| ==> IsNormal(code[i])
    ensures NormalizeJoinCode(code) == code
  {
    if code != [] {
      assert code == [code[0]] + code[1..];
      assert forall i :: 0 <= i < |code[1..]| ==> code[1..][i] == code[i + 1];
      NormalizeFixed(code[1..]);
    }
  }

  lemma NormalizeIdempotent(code: string)
    ensures NormalizeJoinCode(NormalizeJoinCode(code)) == NormalizeJoinCode(code)
  {
    NormalizeContents(code);
    var n := NormalizeJoinCode(code);
    assert forall i :: 0 <= i < |n| ==> n[i] in n;
    NormalizeFixed(n);
  }

  /** `validate_join_code`: six characters of the alphabet after normalisation
      (alphabet membership written as IsCodeChar). */
  predicate ValidateJoinCode(code: string) {
    var n := NormalizeJoinCode(code);
    |n| == JOIN_CODE_LENGTH && forall i :: 0 <= i < |n| ==> IsCodeChar(n[i])
  }

  /** `validate_join_code` compares the UTF-8 byte length: since every
      alphabet character is ASCII, measuring bytes or characters gives the
      same verdict. */
  lemma ValidateCountsBytes(code: string)
    ensures ValidateJoinCode(code) <==>
      var n := NormalizeJoinCode(code);
      Paths.Utf8Len(n) == JOIN_CODE_LENGTH && forall i :: 0 <= i < |n| ==> IsCodeChar(n[i])
  {
    var n := NormalizeJoinCode(code);
    Paths.Utf8LenBounds(n);
  }

  /** The ambiguous characters can never occur in a valid code, whatever their case. */
  lemma AmbiguousNeverValidates(code: string, i: nat)
    requires i < |code| && code[i] in "01OIoi"
    ensures !ValidateJoinCode(code)
  {
    NormalizeContents(code);
    var n := NormalizeJoinCode(code);
    var u := ToAsciiUpper(code[i]);
    assert code[i] in code;
    assert u in n && u in "01OI";
    var k :| 0 <= k < |n| && n[k] == u;
    assert !IsCodeChar(n[k]);
  }

  /** The alphabet is made of digits and upper-case letters only. */
  lemma AlphabetIsNormal(c: char)
    requires IsCodeChar(c)
    ensures ('2' <= c <= '9' || 'A' <= c <= 'Z') && IsNormal(c)
  {
  }

  /** Each random byte picks `JOIN_CODE_CHARS[b % 32]`. */
  function PickChars(random: seq<u8>): (r: string)
    ensures |r| == |random|
    ensures forall i :: 0 <= i < |r| ==> IsCodeChar(r[i])
  {
    if random == [] then []
    else
      CodeCharAt(random[0] % |JOIN_CODE_CHARS|);
      [JOIN_CODE_CHARS[random[0] % |JOIN_CODE_CHARS|]] + PickChars(random[1..])
  }

  /** `generate_join_code`: six picked characters printed as `XXX-XXX`. */
  function GenerateJoinCode(random: seq<u8>): (code: string)
    requires |random| == JOIN_CODE_LENGTH
    ensures |code| == 7 && code[3] == '-'
  {
    var chars := PickChars(random);
    chars[..3] + "-" + chars[3..]
  }

  /** Putting a '-' between two normal strings does not survive normalisation. */
  lemma NormalizeAroundDash(left: string, right: string)
    requires NormalizeJoinCode(left) == left && NormalizeJoinCode(right) == right
    ensures NormalizeJoinCode(left + "-" + right) == left + right
  {
    NormalizeConcat(left + "-", right);
    NormalizeConcat(left, "-");
    DashVanishes();
  }

  lemma DashVanishes()
    ensures NormalizeJoinCode("-") == []
  {
    assert "-"[0] == '-' && "-"[1..] == [];
  }

  /** A slice of a normal string is its own normal form. */
  lemma NormalSliceFixed(s: string, lo: nat, hi: nat)
    requires lo <= hi <= |s| && forall i :: 0 <= i < |s| ==> IsNormal(s[i])
    ensures NormalizeJoinCode(s[lo..hi]) == s[lo..hi]
  {
    var t := s[lo..hi];
    forall i | 0 <= i < |t| ensures IsNormal(t[i]) {
      assert t[i] == s[lo + i];
    }
    NormalizeFixed(t);
  }

  /** Normalising a generated code gives back the six picked characters. */
  lemma GeneratedCodeNormalizes(random: seq<u8>)
    requires |random| == JOIN_CODE_LENGTH
    ensures NormalizeJoinCode(GenerateJoinCode(random)) == PickChars(random)
  {
    var chars := PickChars(random);
    assert forall i :: 0 <= i < |chars| ==> IsNormal(chars[i]);
    NormalSliceFixed(chars, 0, 3);
    NormalSliceFixed(chars, 3, 6);
    var left, right := chars[..3], chars[3..];
    assert chars[0..3] == left && chars[3..6] == right;
    NormalizeAroundDash(left, right);
    assert left + right == chars;
  }

  /** Every generated code validates. */
  lemma GeneratedCodeValidates(random: seq<u8>)
    requires |random| == JOIN_CODE_LENGTH
    ensures ValidateJoinCode(GenerateJoinCode(random))
  {
    GeneratedCodeNormalizes(random);
  }

  /** A BLAKE3 digest. */
  type Digest = s: seq<u8> | |s| == 32 witness seq(32, _ => 0)

  /** `verify_checksum` against an uninterpreted `checksum`. */
  predicate VerifyChecksum(checksum: seq<u8> -> Digest, data: seq<u8>, expected: Digest) {
    checksum(data) == expected
  }

  lemma ChecksumVerifies(checksum: seq<u8> -> Digest, data: seq<u8>)
    ensures VerifyChecksum(checksum, data, checksum(data))
  {
  }
}
