/**
 * The length the programs measure a string by. A `std::string` holds the
 * UTF-8 bytes of its text, so `size()`, `empty()` and the limit `readString`
 * checks all count bytes, not characters: a Cyrillic letter takes two.
 */
module Utf8 {
  /** Number of UTF-8 bytes that encode one character. */
  function CharSize(c: char): (n: nat)
    ensures 1 <= n <= 4
    ensures n == 1 <==> c as int < 0x80
  {
    if c as int < 0x80 then 1
    else if c as int < 0x800 then 2
    else if c as int < 0x1_0000 then 3
    else 4
  }

  /** Number of UTF-8 bytes of the first `n` characters. */
  function PrefixSize(s: string, n: nat): (k: nat)
    requires n <= |s|
    ensures n <= k <= 4 * n
  {
    if n == 0 then 0 else PrefixSize(s, n - 1) + CharSize(s[n - 1])
  }

  /** `size()` of the text: the number of bytes of its UTF-8 encoding. */
  function ByteSize(s: string): (n: nat)
    ensures |s| <= n <= 4 * |s|
    ensures n == 0 <==> s == []
  {
    PrefixSize(s, |s|)
  }

  lemma {:induction false} PrefixSizeConcat(a: string, b: string, n: nat)
    requires n <= |b|
    ensures PrefixSize(a + b, |a| + n) == PrefixSize(a, |a|) + PrefixSize(b, n)
  {
    if n == 0 {
      PrefixSizeOfPrefix(a, b, |a|);
    } else {
      PrefixSizeConcat(a, b, n - 1);
      assert (a + b)[|a| + n - 1] == b[n - 1];
    }
  }

  lemma {:induction false} PrefixSizeOfPrefix(a: string, b: string, n: nat)
    requires n <= |a|
    ensures PrefixSize(a + b, n) == PrefixSize(a, n)
  {
    if n > 0 {
      PrefixSizeOfPrefix(a, b, n - 1);
      assert (a + b)[n - 1] == a[n - 1];
    }
  }

  /** Sizes add up over concatenation. */
  lemma ByteSizeConcat(a: string, b: string)
    ensures ByteSize(a + b) == ByteSize(a) + ByteSize(b)
  {
    PrefixSizeConcat(a, b, |b|);
  }

  lemma {:induction false} AsciiPrefixSize(s: string, n: nat)
    requires n <= |s|
    ensures PrefixSize(s, n) == n <==> forall i :: 0 <= i < n ==> s[i] as int < 0x80
  {
    if n > 0 {
      AsciiPrefixSize(s, n - 1);
    }
  }

  /** Plain ASCII text takes one byte per character, so bytes and characters agree. */
  lemma AsciiSize(s: string)
    ensures ByteSize(s) == |s| <==> forall i :: 0 <= i < |s| ==> s[i] as int < 0x80
  {
    AsciiPrefixSize(s, |s|);
  }

  lemma {:induction false} WidePrefixSize(s: string, n: nat)
    requires n <= |s|
    requires forall i :: 0 <= i < n ==> s[i] as int >= 0x80
    ensures PrefixSize(s, n) >= 2 * n
  {
    if n > 0 {
      WidePrefixSize(s, n - 1);
    }
  }

  /** Text made only of non-ASCII characters (Cyrillic, say) takes at least two bytes per character. */
  lemma WideSize(s: string)
    requires forall i :: 0 <= i < |s| ==> s[i] as int >= 0x80
    ensures ByteSize(s) >= 2 * |s|
  {
    WidePrefixSize(s, |s|);
  }
}
