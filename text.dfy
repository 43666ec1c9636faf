/** The few string operations of Python's `str` that the core relies on:
    `strip()`, `lower()`, the substring test `in` and a character replacement.
    Strings are sequences of characters; `lower()` is modelled on ASCII letters. */
module Text {

  /** `str.isspace()` for one character: the characters CPython treats as whitespace. */
  predicate IsSpace(c: char) {
    var n := c as int;
    (9 <= n <= 13) || (28 <= n <= 32) || n == 0x85 || n == 0xA0 || n == 0x1680 ||
    (0x2000 <= n <= 0x200A) || n == 0x2028 || n == 0x2029 || n == 0x202F ||
    n == 0x205F || n == 0x3000
  }

  /** `str.lstrip()`: drops the leading whitespace and nothing else. */
  function TrimStart(s: string): (r: string)
    ensures |r| <= |s| && r == s[|s| - |r|..]
    ensures forall i :: 0 <= i < |s| - |r| ==> IsSpace(s[i])
    ensures r != [] ==> !IsSpace(r[0])
  {
    if s != [] && IsSpace(s[0]) then TrimStart(s[1..]) else s
  }

  /** `str.rstrip()`: drops the trailing whitespace and nothing else. */
  function TrimEnd(s: string): (r: string)
    ensures |r| <= |s| && r == s[..|r|]
    ensures forall i :: |r| <= i < |s| ==> IsSpace(s[i])
    ensures r != [] ==> !IsSpace(r[|r| - 1])
  {
    if s != [] && IsSpace(s[|s| - 1]) then TrimEnd(s[..|s| - 1]) else s
  }

  /** The number of whitespace characters `lstrip` removes. */
  function LeadingSpaces(s: string): (n: nat)
    ensures n <= |s|
  {
    |s| - |TrimStart(s)|
  }

  /** `str.strip()`: the slice of `s` left after cutting leading and trailing
      whitespace; it neither starts nor ends with whitespace. */
  function Strip(s: string): (r: string)
    ensures LeadingSpaces(s) + |r| <= |s|
    ensures r == s[LeadingSpaces(s)..LeadingSpaces(s) + |r|]
    ensures forall i :: 0 <= i < LeadingSpaces(s) ==> IsSpace(s[i])
    ensures forall i :: LeadingSpaces(s) + |r| <= i < |s| ==> IsSpace(s[i])
    ensures r != [] ==> !IsSpace(r[0]) && !IsSpace(r[|r| - 1])
    ensures (forall i :: 0 <= i < |s| ==> IsSpace(s[i])) <==> r == []
  {
    var t := TrimStart(s);
    var r := TrimEnd(t);
    var k := |s| - |t|;
    PrefixOfSuffix(s, k, t, |r|);
    SpacesAfter(s, k, t, |r|);
    r
  }

  /** Positions of a suffix `t` from n on that are whitespace are whitespace
      in `s`; the suffix's head is `s[k]`. */
  lemma SpacesAfter(s: string, k: nat, t: string, n: nat)
    requires k <= |s| && t == s[k..] && n <= |t|
    requires forall i :: n <= i < |t| ==> IsSpace(t[i])
    ensures forall i :: k + n <= i < |s| ==> IsSpace(s[i])
    ensures t != [] ==> t[0] == s[k]
  {
    forall i | k + n <= i < |s| ensures IsSpace(s[i]) {
      SuffixIndex(s, k, t, i);
    }
  }

  lemma PrefixOfSuffix<T>(s: seq<T>, k: nat, t: seq<T>, n: nat)
    requires k <= |s| && t == s[k..] && n <= |t|
    ensures t[..n] == s[k..k + n]
  {
  }

  lemma SuffixIndex<T>(s: seq<T>, k: nat, t: seq<T>, i: nat)
    requires k <= i < |s| && t == s[k..]
    ensures i - k < |t| && s[i] == t[i - k]
  {
  }

  /** A string that neither starts nor ends with whitespace is its own strip. */
  lemma StripUntrimmed(s: string)
    requires s != [] ==> !IsSpace(s[0]) && !IsSpace(s[|s| - 1])
    ensures Strip(s) == s
  {
    var r := Strip(s);
    if s != [] {
      assert !IsSpace(s[0]) && !IsSpace(s[|s| - 1]);
    }
  }

  /** `str.lower()` for one character (ASCII letters). */
  function LowerChar(c: char): char {
    if 'A' <= c <= 'Z' then (c as int + 32) as char else c
  }

  /** Lowering never turns whitespace into something else or back. */
  lemma LowerCharKeepsSpace(c: char)
    ensures IsSpace(LowerChar(c)) <==> IsSpace(c)
  {
  }

  /** `str.lower()`, character by character. */
  function Lower(s: string): (r: string)
    ensures |r| == |s|
    ensures forall i :: 0 <= i < |s| ==> r[i] == LowerChar(s[i])
  {
    seq(|s|, i requires 0 <= i < |s| => LowerChar(s[i]))
  }

  /** `pat` occurs in `text` starting at position `i`. */
  predicate OccursAt(text: string, pat: string, i: int) {
    0 <= i <= |text| - |pat| && text[i..i + |pat|] == pat
  }

  /** Python's `pat in text` on strings: `pat` occurs as a contiguous slice. */
  predicate Contains(text: string, pat: string) {
    exists i :: 0 <= i <= |text| - |pat| && OccursAt(text, pat, i)
  }

  /** `str.replace(old, new)` for single characters. */
  function ReplaceChar(s: string, from: char, to: char): (r: string)
    ensures |r| == |s|
    ensures forall i :: 0 <= i < |s| ==> r[i] == (if s[i] == from then to else s[i])
  {
    seq(|s|, i requires 0 <= i < |s| => if s[i] == from then to else s[i])
  }
}
