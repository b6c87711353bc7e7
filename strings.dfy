/** String helpers shared by the path resolver, the deep-link parser and
    the update checker: the parts of Rust's `str` API they use. Case
    mapping is ASCII only. */
module Strings {
  import opened Wrappers

  /** `trim_start_matches(c)`: `s` without its leading run of `c`. */
  function TrimStart(s: string, c: char): (r: string)
    ensures |r| <= |s|
    ensures |r| > 0 ==> r[0] != c
  {
    if |s| > 0 && s[0] == c then TrimStart(s[1..], c) else s
  }

  /** What is trimmed is exactly a leading run of `c`. */
  lemma {:induction false} TrimStartSplits(s: string, c: char)
    ensures var r := TrimStart(s, c);
      r == s[|s| - |r|..] && forall i | 0 <= i < |s| - |r| :: s[i] == c
  {
    if |s| > 0 && s[0] == c {
      TrimStartSplits(s[1..], c);
    }
  }

  /** `strip_prefix`: the rest of `s` when it starts with `prefix`. */
  function StripPrefix(s: string, prefix: string): (r: Option<string>)
    ensures r.Some? <==> prefix <= s
    ensures r.Some? ==> s == prefix + r.value
  {
    if prefix <= s then Some(s[|prefix|..]) else None
  }

  /** `contains` with a string pattern: `pat` occurs somewhere in `s`. */
  predicate Contains(s: string, pat: string)
    decreases |s|
  {
    pat <= s || (|s| > 0 && Contains(s[1..], pat))
  }

  /** An occurrence at any position is found ... */
  lemma {:induction false} ContainsAt(s: string, pat: string, i: nat)
    requires i <= |s| && pat <= s[i..]
    ensures Contains(s, pat)
    decreases i
  {
    if i > 0 {
      assert s[1..][i - 1..] == s[i..];
      ContainsAt(s[1..], pat, i - 1);
    }
  }

  /** ... and `Contains` finds nothing else. */
  lemma {:induction false} ContainsWitness(s: string, pat: string) returns (i: nat)
    requires Contains(s, pat)
    ensures i <= |s| && pat <= s[i..]
    decreases |s|
  {
    if pat <= s {
      i := 0;
    } else {
      var j := ContainsWitness(s[1..], pat);
      assert s[1..][j..] == s[j + 1..];
      i := j + 1;
    }
  }

  /** `char::to_ascii_lowercase`. */
  function ToAsciiLower(c: char): (l: char)
    ensures !('A' <= l <= 'Z')
    ensures !('A' <= c <= 'Z') ==> l == c
  {
    if 'A' <= c <= 'Z' then (c as int + 32) as char else c
  }

  /** `to_lowercase`, on the ASCII letters. */
  function LowerAscii(s: string): (r: string)
    ensures |r| == |s|
    ensures forall i :: 0 <= i < |s| ==> r[i] == ToAsciiLower(s[i])
  {
    seq(|s|, i requires 0 <= i < |s| => ToAsciiLower(s[i]))
  }

  /** A string without upper-case letters is its own lower case. */
  lemma LowerAsciiKeeps(s: string)
    requires forall i :: 0 <= i < |s| ==> !('A' <= s[i] <= 'Z')
    ensures LowerAscii(s) == s
  {
  }

  /** Lower-casing twice is lower-casing once. */
  lemma LowerAsciiTwice(s: string)
    ensures LowerAscii(LowerAscii(s)) == LowerAscii(s)
  {
  }

  /** Lower-casing works character by character, so it distributes over `+`. */
  lemma LowerAsciiAppend(a: string, b: string)
    ensures LowerAscii(a + b) == LowerAscii(a) + LowerAscii(b)
  {
  }

  /** What occurs in `a` occurs in `a + b`. */
  lemma ContainsInPrefix(a: string, b: string, pat: string)
    requires Contains(a, pat)
    ensures Contains(a + b, pat)
  {
    var i := ContainsWitness(a, pat);
    assert (a + b)[i..] == a[i..] + b;
    ContainsAt(a + b, pat, i);
  }

  /** What occurs in `b` occurs in `a + b`. */
  lemma ContainsInSuffix(a: string, b: string, pat: string)
    requires Contains(b, pat)
    ensures Contains(a + b, pat)
  {
    var i := ContainsWitness(b, pat);
    assert (a + b)[|a| + i..] == b[i..];
    ContainsAt(a + b, pat, |a| + i);
  }

  /** Occurrence is transitive: what occurs in `pat` occurs wherever `pat` does. */
  lemma ContainsTransitive(s: string, pat: string, sub: string)
    requires Contains(s, pat) && Contains(pat, sub)
    ensures Contains(s, sub)
  {
    var i := ContainsWitness(s, pat);
    var j := ContainsWitness(pat, sub);
    assert s[i + j..][..|sub|] == pat[j..][..|sub|];
    ContainsAt(s, sub, i + j);
  }

  /** A one-character pattern occurs only where that character does. */
  lemma ContainsChar(s: string, c: char)
    requires Contains(s, [c])
    ensures c in s
  {
    var i := ContainsWitness(s, [c]);
    assert s[i] == c;
  }

  /** A pattern holding a character `c` that `s` lacks does not occur in `s`. */
  lemma MissingChar(s: string, pat: string, i: nat, c: char)
    requires i < |pat| && pat[i] == c && c !in s
    ensures !Contains(s, pat)
  {
    if Contains(s, pat) {
      assert [c] <= pat[i..];
      ContainsAt(pat, [c], i);
      ContainsTransitive(s, pat, [c]);
      ContainsChar(s, c);
    }
  }

  /** A pattern holding neighbours `a`, `b` that are never neighbours in
      `s` does not occur in `s`. */
  lemma MissingPair(s: string, pat: string, i: nat, a: char, b: char)
    requires i + 1 < |pat| && pat[i] == a && pat[i + 1] == b
    requires forall j :: 0 <= j < |s| - 1 ==> !(s[j] == a && s[j + 1] == b)
    ensures !Contains(s, pat)
  {
    if Contains(s, pat) {
      var k := ContainsWitness(s, pat);
      assert false;
    }
  }
}
