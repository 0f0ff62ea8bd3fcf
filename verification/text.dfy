/**
 * The few java.lang.String operations the normaliser relies on, over
 * Dafny strings: trim(), an ASCII toLowerCase(), indexOf(String) and
 * lastIndexOf(char).
 */
module Text {

  /** String.trim() removes every char whose code is at most U+0020. */
  predicate IsTrimmable(c: char) { c <= ' ' }

  predicate AllTrimmable(s: string) {
    forall i :: 0 <= i < |s| ==> IsTrimmable(s[i])
  }

  predicate IsAsciiDigit(c: char) { '0' <= c <= '9' }

  predicate IsAsciiUpper(c: char) { 'A' <= c <= 'Z' }

  /** Lower-cases A-Z and leaves every other char alone. */
  function LowerChar(c: char): (d: char)
    ensures !IsAsciiUpper(d)
    ensures IsAsciiUpper(c) || d == c
  {
    if IsAsciiUpper(c) then (c as int + 32) as char else c
  }

  /** Two strings that differ at most in the letter case of A-Z. */
  predicate EqualIgnoringCase(a: string, b: string) {
    |a| == |b| && forall i :: 0 <= i < |a| ==> LowerChar(a[i]) == LowerChar(b[i])
  }

  /** String.toLowerCase(), restricted to the ASCII letters. */
  function ToLower(s: string): (r: string)
    ensures EqualIgnoringCase(r, s)
    ensures forall i :: 0 <= i < |r| ==> !IsAsciiUpper(r[i])
  {
    seq(|s|, i requires 0 <= i < |s| => LowerChar(s[i]))
  }

  /** Strings equal up to case lower-case to the same string. */
  lemma ToLowerIgnoresCase(a: string, b: string)
    requires EqualIgnoringCase(a, b)
    ensures ToLower(a) == ToLower(b)
  {
  }

  /** The number of trimmable chars at the front of `s`. */
  function LeadingTrimmable(s: string): (n: nat)
    ensures n <= |s|
    ensures AllTrimmable(s[..n])
    ensures n < |s| ==> !IsTrimmable(s[n])
  {
    if s == [] || !IsTrimmable(s[0]) then 0
    else
      var k := LeadingTrimmable(s[1..]);
      assert s[1..][..k] == s[1..k + 1];
      1 + k
  }

  /** The number of trimmable chars at the back of `s`. */
  function TrailingTrimmable(s: string): (n: nat)
    ensures n <= |s|
    ensures AllTrimmable(s[|s| - n..])
    ensures n < |s| ==> !IsTrimmable(s[|s| - n - 1])
  {
    if s == [] || !IsTrimmable(s[|s| - 1]) then 0
    else
      var k := TrailingTrimmable(s[..|s| - 1]);
      assert s[..|s| - 1][|s| - 1 - k..] == s[|s| - 1 - k..|s| - 1];
      1 + k
  }

  /**
   * String.trim(): `r` is the slice of `s` that starts at the first and
   * ends at the last char above U+0020; it is empty exactly when every
   * char of `s` is trimmable.
   */
  function Trim(s: string): (r: string)
    ensures r == [] <==> AllTrimmable(s)
    ensures r != [] ==> !IsTrimmable(r[0]) && !IsTrimmable(r[|r| - 1])
    ensures LeadingTrimmable(s) + |r| <= |s|
    ensures r == s[LeadingTrimmable(s)..LeadingTrimmable(s) + |r|]
    ensures AllTrimmable(s[LeadingTrimmable(s) + |r|..])
  {
    var lo := LeadingTrimmable(s);
    var rest := s[lo..];
    var r := rest[..|rest| - TrailingTrimmable(rest)];
    assert s[lo + |r|..] == rest[|r|..];
    assert r == [] ==> lo == |s| && s[..lo] == s;
    r
  }

  /** Trimming drops blank padding in front of a word that starts and ends with a non-blank. */
  lemma TrimPadded(pad: string, w: string)
    requires AllTrimmable(pad) && w != [] && !IsTrimmable(w[0]) && !IsTrimmable(w[|w| - 1])
    ensures Trim(pad + w) == w
  {
    var s := pad + w;
    assert forall i :: 0 <= i < |pad| ==> s[i] == pad[i];
    assert s[|pad|] == w[0] && s[|s| - 1] == w[|w| - 1];
    assert LeadingTrimmable(s) == |pad|;
    var r := Trim(s);
    assert r == w[..|r|];
    assert |r| == |w|;
  }

  /** `w` occurs in `s` at position `i`. */
  predicate OccursAt(s: string, w: string, i: int) {
    0 <= i && i + |w| <= |s| && s[i..i + |w|] == w
  }

  /**
   * String.indexOf(String): the position of the first occurrence of `w`
   * in `s`, or -1 when there is none.
   */
  function IndexOf(s: string, w: string): (r: int)
    ensures r == -1 || OccursAt(s, w, r)
    ensures forall i :: 0 <= i && (r == -1 || i < r) ==> !OccursAt(s, w, i)
    decreases |s|
  {
    if |w| > |s| then -1
    else if s[..|w|] == w then 0
    else
      var k := IndexOf(s[1..], w);
      assert forall i :: 1 <= i ==> (OccursAt(s, w, i) <==> OccursAt(s[1..], w, i - 1)) by {
        forall i | 1 <= i ensures OccursAt(s, w, i) <==> OccursAt(s[1..], w, i - 1) {
          if i + |w| <= |s| { assert s[1..][i - 1..i - 1 + |w|] == s[i..i + |w|]; }
        }
      }
      if k == -1 then -1 else k + 1
  }

  /** `indexOf(w) != -1`: `w` occurs somewhere in `s`. */
  function Contains(s: string, w: string): (b: bool)
    ensures b <==> exists i :: OccursAt(s, w, i)
  {
    IndexOf(s, w) != -1
  }

  /**
   * String.lastIndexOf(char): the position of the last `c` in `s`, or -1
   * when `s` holds no `c`.
   */
  function LastIndexOf(s: string, c: char): (r: int)
    ensures -1 <= r < |s|
    ensures r == -1 <==> c !in s
    ensures r >= 0 ==> s[r] == c && c !in s[r + 1..]
  {
    if s == [] then -1
    else if s[|s| - 1] == c then |s| - 1
    else
      var k := LastIndexOf(s[..|s| - 1], c);
      assert s == s[..|s| - 1] + [s[|s| - 1]];
      assert k >= 0 ==> s[k + 1..] == s[..|s| - 1][k + 1..] + [s[|s| - 1]];
      k
  }

  /** The last occurrence is the one with no further occurrence after it. */
  lemma LastIndexOfIs(s: string, c: char, r: int)
    requires (r == -1 && c !in s) || (0 <= r < |s| && s[r] == c && c !in s[r + 1..])
    ensures LastIndexOf(s, c) == r
  {
    var q := LastIndexOf(s, c);
    if r >= 0 {
      assert forall t :: r < t < |s| ==> s[t] == s[r + 1..][t - r - 1];
      assert forall t :: q < t < |s| ==> s[t] == s[q + 1..][t - q - 1];
    }
  }

  /** Appending to an output is associative: growing it by b then c is growing it by b + c. */
  lemma Associative<T>(a: seq<T>, b: seq<T>, c: seq<T>)
    ensures a + (b + c) == a + b + c
  {
  }
}
