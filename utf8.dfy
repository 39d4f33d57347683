/** Well-formed UTF-8, as section 4 of RFC 3629 defines it, over PHP
    strings. A PHP string is a sequence of bytes; here each character of a
    `string` stands for one byte (its code is below 256). */
module Utf8 {

  predicate IsCont(c: char)
  {
    0x80 <= c as int <= 0xBF
  }

  predicate InRange(c: char, lo: int, hi: int)
  {
    lo <= c as int <= hi
  }

  /** The length a lead byte announces, or 0 for a byte that cannot lead
      (a continuation byte, C0, C1 or F5 and above). */
  function LeadLength(b: int): (n: nat)
    ensures n <= 4
  {
    if b < 0x80 then 1
    else if 0xC2 <= b <= 0xDF then 2
    else if 0xE0 <= b <= 0xEF then 3
    else if 0xF0 <= b <= 0xF4 then 4
    else 0
  }

  /** The range of the second byte after a lead byte: narrower after E0
      and F0 (no overlong forms), ED (no surrogates) and F4 (nothing above
      U+10FFFF). */
  function SecondLow(b: int): int
  {
    if b == 0xE0 then 0xA0 else if b == 0xF0 then 0x90 else 0x80
  }

  function SecondHigh(b: int): int
  {
    if b == 0xED then 0x9F else if b == 0xF4 then 0x8F else 0xBF
  }

  /** `s` starts with a well-formed sequence of `n` bytes. */
  predicate StartsWithSequence(s: string, n: nat)
  {
    1 <= n <= |s| && n == LeadLength(s[0] as int)
    && (n == 1 || (InRange(s[1], SecondLow(s[0] as int), SecondHigh(s[0] as int))
                   && forall k :: 2 <= k < n ==> IsCont(s[k])))
  }

  /** The length of the well-formed sequence that starts `s`, or 0 when
      `s` is empty or does not start with one. */
  function SeqLength(s: string): (n: nat)
    ensures n <= 4 && n <= |s|
    ensures n == 1 <==> s != [] && s[0] as int < 0x80
  {
    if s != [] && StartsWithSequence(s, LeadLength(s[0] as int)) then LeadLength(s[0] as int) else 0
  }

  /** The bytes of a multi-byte sequence all have the high bit set. */
  lemma SeqLengthHighBytes(s: string)
    requires SeqLength(s) >= 2
    ensures forall i :: 0 <= i < SeqLength(s) ==> s[i] as int >= 0x80
  {
  }

  /** The sequence found at the start depends only on its own bytes. */
  lemma SeqLengthOfPrefix(s: string, t: string)
    requires SeqLength(s) > 0 && |t| >= SeqLength(s)
    requires t[..SeqLength(s)] == s[..SeqLength(s)]
    ensures SeqLength(t) == SeqLength(s)
  {
    var n := SeqLength(s);
    assert forall i :: 0 <= i < n ==> t[i] == t[..n][i] == s[..n][i] == s[i];
  }

  /** `s` is a concatenation of well-formed sequences. */
  predicate IsUtf8(s: string)
    decreases |s|
  {
    s == [] || (SeqLength(s) > 0 && IsUtf8(s[SeqLength(s)..]))
  }

  /** Well-formed text stays well-formed when more is appended. */
  lemma {:induction false} Utf8Append(a: string, b: string)
    requires IsUtf8(a) && IsUtf8(b)
    ensures IsUtf8(a + b)
    decreases |a|
  {
    if a == [] {
      assert a + b == b;
    } else {
      var n := SeqLength(a);
      assert (a + b)[..n] == a[..n];
      SeqLengthOfPrefix(a, a + b);
      assert (a + b)[n..] == a[n..] + b;
      Utf8Append(a[n..], b);
    }
  }

  /** A whole string made of one well-formed sequence. */
  lemma OneSequence(p: string)
    requires SeqLength(p) == |p| > 0
    ensures IsUtf8(p)
  {
    assert p[|p|..] == [];
  }

  /** ASCII text is well-formed. */
  lemma {:induction false} AsciiIsUtf8(s: string)
    requires forall i :: 0 <= i < |s| ==> s[i] as int < 0x80
    ensures IsUtf8(s)
  {
    if s != [] {
      assert SeqLength(s) == 1;
      AsciiIsUtf8(s[1..]);
    }
  }

  /** U+FFFD REPLACEMENT CHARACTER, encoded. */
  const Replacement: string := "\U{EF}\U{BF}\U{BD}"

  lemma ReplacementIsUtf8()
    ensures SeqLength(Replacement) == 3
    ensures IsUtf8(Replacement)
  {
    OneSequence(Replacement);
  }

  /** A lone lead byte is not well-formed, so text that ends in one is
      not either. */
  lemma {:induction false} EndsInLeadByte(a: string, lead: char)
    requires IsUtf8(a) && 0xC2 <= lead as int <= 0xF4
    ensures !IsUtf8(a + [lead])
    decreases |a|
  {
    if a == [] {
      assert SeqLength([] + [lead]) == 0;
    } else {
      var n := SeqLength(a);
      assert (a + [lead])[..n] == a[..n];
      SeqLengthOfPrefix(a, a + [lead]);
      assert (a + [lead])[n..] == a[n..] + [lead];
      EndsInLeadByte(a[n..], lead);
    }
  }
}
