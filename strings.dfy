/**
 * The std::string operations the engine relies on: decimal formatting
 * (std::to_string and stream insertion), std::stoull, line splitting as
 * std::getline does it, searching, and ASCII lower-casing (::tolower in the
 * "C" locale).
 */
module Strings {
  import opened Common

  predicate IsDigit(c: char) { '0' <= c <= '9' }

  predicate AllDigits(s: string) { forall i :: 0 <= i < |s| ==> IsDigit(s[i]) }

  function DigitChar(d: nat): (c: char)
    requires d < 10
    ensures IsDigit(c) && c as int - '0' as int == d
  {
    (d + '0' as int) as char
  }

  /** Decimal digits of a natural number, without leading zeros (std::to_string). */
  function NatToString(n: nat): (s: string)
    ensures |s| > 0 && AllDigits(s)
    ensures s[0] == '0' ==> n == 0
    decreases n
  {
    if n < 10 then [DigitChar(n)] else NatToString(n / 10) + [DigitChar(n % 10)]
  }

  /** Decimal text of a signed integer (stream insertion of long long). */
  function IntToString(i: int): (s: string)
    ensures |s| > 0 && (s[0] == '-' <==> i < 0)
  {
    if i < 0 then "-" + NatToString(-i) else NatToString(i)
  }

  /** The number a string of decimal digits denotes. */
  function DigitsValue(s: string): nat
    requires AllDigits(s)
    decreases |s|
  {
    if s == [] then 0 else 10 * DigitsValue(s[..|s| - 1]) + (s[|s| - 1] as int - '0' as int)
  }

  lemma {:induction false} NatToStringValue(n: nat)
    ensures DigitsValue(NatToString(n)) == n
    decreases n
  {
    if n >= 10 {
      NatToStringValue(n / 10);
      var s := NatToString(n);
      assert s[..|s| - 1] == NatToString(n / 10);
    }
  }

  /** Distinct numbers have distinct decimal texts. */
  lemma NatToStringInjective(m: nat, n: nat)
    requires m != n
    ensures NatToString(m) != NatToString(n)
  {
    NatToStringValue(m);
    NatToStringValue(n);
  }

  predicate IsSpace(c: char)
  {
    c == ' ' || c == '\t' || c == '\n' || c == '\r' || c as int == 0x0B || c as int == 0x0C
  }

  /** The string without its leading white space. */
  function SkipSpace(s: string): (r: string)
    ensures |r| <= |s| && r == s[|s| - |r|..]
    ensures r == [] || !IsSpace(r[0])
  {
    if s != [] && IsSpace(s[0]) then SkipSpace(s[1..]) else s
  }

  /** Length of the longest prefix made of decimal digits. */
  function DigitPrefixLength(s: string): (k: nat)
    ensures k <= |s| && AllDigits(s[..k])
    ensures k < |s| ==> !IsDigit(s[k])
  {
    if s != [] && IsDigit(s[0]) then
      var k := 1 + DigitPrefixLength(s[1..]);
      assert s[..k] == [s[0]] + s[1..][..k - 1];
      k
    else 0
  }

  /**
   * std::stoull in base 10: leading white space is skipped, an optional sign
   * is accepted (a minus sign negates modulo 2^64), at least one digit must
   * follow; None stands for the invalid_argument and out_of_range exceptions.
   */
  function Stoull(s: string): Option<u64>
  {
    var t := SkipSpace(s);
    var negative := |t| > 0 && t[0] == '-';
    var u := if |t| > 0 && (t[0] == '+' || t[0] == '-') then t[1..] else t;
    var k := DigitPrefixLength(u);
    if k == 0 then None
    else
      var v := DigitsValue(u[..k]);
      if v >= U64_LIMIT then None
      else Some(if negative then (U64_LIMIT - v) % U64_LIMIT else v)
  }

  /** std::to_string of a 64-bit value parses back to that value. */
  lemma StoullOfNatToString(u: u64)
    ensures Stoull(NatToString(u)) == Some(u)
  {
    var s := NatToString(u);
    assert !IsSpace(s[0]) && s[0] != '+' && s[0] != '-';
    assert SkipSpace(s) == s;
    AllDigitsPrefix(s);
    assert s[..|s|] == s;
    NatToStringValue(u);
    assert DigitsValue(s[..DigitPrefixLength(s)]) == u;
  }

  lemma {:induction false} AllDigitsPrefix(s: string)
    requires AllDigits(s)
    ensures DigitPrefixLength(s) == |s|
    decreases |s|
  {
    if s != [] {
      AllDigitsPrefix(s[1..]);
    }
  }

  /** First position of `c` in `s`, or -1 (std::string::npos). */
  function IndexOf(s: string, c: char): (k: int)
    ensures -1 <= k < |s|
    ensures k == -1 <==> c !in s
    ensures k >= 0 ==> s[k] == c && c !in s[..k]
  {
    if s == [] then -1
    else if s[0] == c then 0
    else
      var k := IndexOf(s[1..], c);
      if k == -1 then -1 else
        assert s[..k + 1] == [s[0]] + s[1..][..k];
        k + 1
  }

  /** Last position of `c` in `s`, or -1 (std::string::find_last_of with one character). */
  function LastIndexOf(s: string, c: char): (k: int)
    ensures -1 <= k < |s|
    ensures k == -1 <==> c !in s
    ensures k >= 0 ==> s[k] == c && forall j :: k < j < |s| ==> s[j] != c
    decreases |s|
  {
    if s == [] then -1
    else if s[|s| - 1] == c then |s| - 1
    else
      var k := LastIndexOf(s[..|s| - 1], c);
      assert k == -1 ==> s == s[..|s| - 1] + [s[|s| - 1]];
      k
  }

  /** The last `c` of a text is the one before a `c`-free tail. */
  lemma {:induction false} LastIndexOfBeforeTail(pre: string, c: char, tail: string)
    requires c !in tail
    ensures LastIndexOf(pre + [c] + tail, c) == |pre|
    decreases |tail|
  {
    var p := pre + [c] + tail;
    if tail != [] {
      assert p[..|p| - 1] == pre + [c] + tail[..|tail| - 1];
      assert p[|p| - 1] == tail[|tail| - 1];
      LastIndexOfBeforeTail(pre, c, tail[..|tail| - 1]);
    }
  }

  /** The lines std::getline reads from a text: pieces between '\n's; a final '\n' opens no extra line. */
  function Lines(s: string): (r: seq<string>)
    ensures forall i :: 0 <= i < |r| ==> '\n' !in r[i]
    decreases |s|
  {
    if s == [] then []
    else
      var k := IndexOf(s, '\n');
      if k < 0 then [s] else [s[..k]] + Lines(s[k + 1..])
  }

  /** Splitting a text made of '\n'-terminated lines gives back those lines. */
  lemma {:induction false} LinesOfTerminated(ls: seq<string>)
    requires forall i :: 0 <= i < |ls| ==> '\n' !in ls[i]
    ensures Lines(Terminated(ls)) == ls
    decreases |ls|
  {
    if ls != [] {
      var s := Terminated(ls);
      assert s == ls[0] + "\n" + Terminated(ls[1..]);
      assert s[|ls[0]|] == '\n' && s[..|ls[0]|] == ls[0];
      assert IndexOf(s, '\n') == |ls[0]|;
      assert s[|ls[0]| + 1..] == Terminated(ls[1..]);
      LinesOfTerminated(ls[1..]);
    }
  }

  /** Each line followed by '\n', concatenated. */
  function Terminated(ls: seq<string>): (s: string)
    ensures ls != [] ==> |s| > 0
  {
    if ls == [] then "" else ls[0] + "\n" + Terminated(ls[1..])
  }

  /** `sub` occurs in `s` (std::string::find(sub) != npos). */
  predicate Contains(s: string, sub: string)
  {
    exists i :: 0 <= i <= |s| - |sub| && OccursAt(s, sub, i)
  }

  predicate OccursAt(s: string, sub: string, i: int)
  {
    0 <= i && i + |sub| <= |s| && s[i..i + |sub|] == sub
  }

  predicate StartsWith(s: string, prefix: string)
  {
    |prefix| <= |s| && s[..|prefix|] == prefix
  }

  lemma PrefixContains(s: string, sub: string)
    requires StartsWith(s, sub)
    ensures Contains(s, sub)
  {
    assert OccursAt(s, sub, 0);
  }

  function LowerChar(c: char): char
  {
    if 'A' <= c <= 'Z' then (c as int + 32) as char else c
  }

  /** ASCII lower-casing of every character (std::transform with ::tolower). */
  function ToLower(s: string): (r: string)
    ensures |r| == |s|
    ensures forall i :: 0 <= i < |s| ==> r[i] == LowerChar(s[i])
  {
    if s == [] then [] else [LowerChar(s[0])] + ToLower(s[1..])
  }

  /** Lower-casing leaves no upper-case letter and is idempotent. */
  lemma ToLowerIdempotent(s: string)
    ensures forall i :: 0 <= i < |s| ==> !('A' <= ToLower(s)[i] <= 'Z')
    ensures ToLower(ToLower(s)) == ToLower(s)
  {
  }

  /** Characters that fit in one byte. */
  predicate IsByteText(s: string) { forall i :: 0 <= i < |s| ==> s[i] as int < 0x100 }

  /** The bytes a text stream writes for a string of one-byte characters. */
  function TextBytes(s: string): (b: seq<byte>)
    requires IsByteText(s)
    ensures |b| == |s|
  {
    seq(|s|, i requires 0 <= i < |s| => s[i] as int)
  }

  /** The string a text stream reads from bytes. */
  function BytesText(b: seq<byte>): (s: string)
    ensures |s| == |b| && IsByteText(s)
  {
    seq(|b|, i requires 0 <= i < |b| => b[i] as char)
  }

  lemma TextRoundTrip(s: string)
    requires IsByteText(s)
    ensures BytesText(TextBytes(s)) == s
  {
  }

  lemma DecimalIsByteText(n: nat)
    ensures IsByteText(NatToString(n))
  {
  }
}
