/**
 * The JavaScript `String` operations the core relies on, over Dafny strings.
 * A string is a sequence of characters; JavaScript's UTF-16 code units are not modelled.
 */
module JsString {

  /**
   * The characters JavaScript's `trim` removes and the regular-expression class `\s` matches:
   * the white-space characters (tab, vertical tab, form feed, space, no-break space,
   * the byte-order mark and the other "Zs" spaces) and the line terminators (LF, CR, LS, PS).
   */
  predicate IsSpace(c: char)
  {
    c == '\t' || c == '\n' || c == '\U{0B}' || c == '\U{0C}' || c == '\r' || c == ' '
    || c == '\U{A0}' || c == '\U{1680}' || ('\U{2000}' <= c <= '\U{200A}')
    || c == '\U{2028}' || c == '\U{2029}' || c == '\U{202F}' || c == '\U{205F}'
    || c == '\U{3000}' || c == '\U{FEFF}'
  }

  /** `s.trimStart()` */
  function TrimStart(s: string): (r: string)
    ensures |r| <= |s| && r == s[|s| - |r|..]
    ensures forall i :: 0 <= i < |s| - |r| ==> IsSpace(s[i])
    ensures r == [] || !IsSpace(r[0])
  {
    if |s| > 0 && IsSpace(s[0]) then TrimStart(s[1..]) else s
  }

  /** `s.trimEnd()` */
  function TrimEnd(s: string): (r: string)
    ensures |r| <= |s| && r == s[..|r|]
    ensures forall i :: |r| <= i < |s| ==> IsSpace(s[i])
    ensures r == [] || !IsSpace(r[|r| - 1])
  {
    if |s| > 0 && IsSpace(s[|s| - 1]) then TrimEnd(s[..|s| - 1]) else s
  }

  /** `r` stands in `s` at position `k`, and everything of `s` before and after it is white space. */
  predicate PaddedAt(s: string, r: string, k: nat)
  {
    && k + |r| <= |s|
    && OccursAt(s, r, k)
    && (forall i :: 0 <= i < k ==> IsSpace(s[i]))
    && (forall i :: k + |r| <= i < |s| ==> IsSpace(s[i]))
  }

  /** `r` is `s` with some white space removed from its start and its end, and nothing else. */
  predicate Padded(s: string, r: string)
  {
    exists k :: 0 <= k <= |s| && PaddedAt(s, r, k)
  }

  /** `s.trim()`: the slice of `s` that drops every leading and trailing space, and nothing else. */
  function Trim(s: string): (r: string)
    ensures Includes(s, r)
    ensures Padded(s, r)
    ensures r == [] || (!IsSpace(r[0]) && !IsSpace(r[|r| - 1]))
  {
    var t := TrimStart(s);
    var r := TrimEnd(t);
    PaddedSlices(s, t, r);
    r
  }

  /** A prefix `r` of a suffix `t` of `s`, both cut off at white space only, is `s` padded. */
  lemma PaddedSlices(s: string, t: string, r: string)
    requires |t| <= |s| && t == s[|s| - |t|..] && forall i :: 0 <= i < |s| - |t| ==> IsSpace(s[i])
    requires |r| <= |t| && r == t[..|r|] && forall i :: |r| <= i < |t| ==> IsSpace(t[i])
    ensures PaddedAt(s, r, |s| - |t|)
  {
    var k := |s| - |t|;
    assert r == s[k..k + |r|];
    forall i | k + |r| <= i < |s|
      ensures IsSpace(s[i])
    {
      assert s[i] == t[i - k];
    }
  }

  /** A string with no space at either end is its own trim. */
  lemma TrimUnchanged(s: string)
    requires s == [] || (!IsSpace(s[0]) && !IsSpace(s[|s| - 1]))
    ensures Trim(s) == s
  {
  }

  /** `s.startsWith(p)` */
  predicate StartsWith(s: string, p: string)
  {
    |p| <= |s| && s[..|p|] == p
  }

  /** `s.endsWith(p)` */
  predicate EndsWith(s: string, p: string)
  {
    |p| <= |s| && s[|s| - |p|..] == p
  }

  /** `sub` occurs in `s` starting at position `i`. */
  predicate OccursAt(s: string, sub: string, i: int)
  {
    0 <= i <= |s| - |sub| && s[i..i + |sub|] == sub
  }

  /** `s.includes(sub)` */
  predicate Includes(s: string, sub: string)
  {
    exists i | 0 <= i <= |s| - |sub| :: OccursAt(s, sub, i)
  }

  /** A string cannot include `sub` when one of the characters of `sub` does not occur in it. */
  lemma NotIncludesMissingChar(s: string, sub: string, k: nat)
    requires k < |sub| && sub[k] !in s
    ensures !Includes(s, sub)
  {
    forall i | 0 <= i <= |s| - |sub|
      ensures !OccursAt(s, sub, i)
    {
      assert s[i..i + |sub|][k] == s[i + k] && s[i + k] in s;
    }
  }

  /** A string includes every string included in a string it includes. */
  lemma IncludesTransitive(a: string, b: string, c: string)
    requires Includes(a, b) && Includes(b, c)
    ensures Includes(a, c)
  {
    var i :| 0 <= i <= |a| - |b| && OccursAt(a, b, i);
    var j :| 0 <= j <= |b| - |c| && OccursAt(b, c, j);
    forall k | 0 <= k < |c|
      ensures a[i + j + k] == c[k]
    {
      assert c[k] == b[j..j + |c|][k] == b[j + k] == a[i..i + |b|][j + k];
    }
    assert a[i + j..i + j + |c|] == c;
    assert OccursAt(a, c, i + j);
  }

  lemma PrefixIncluded(s: string, n: nat)
    requires n <= |s|
    ensures Includes(s, s[..n])
  {
    assert OccursAt(s, s[..n], 0);
  }

  lemma SuffixIncluded(s: string, n: nat)
    requires n <= |s|
    ensures Includes(s, s[n..])
  {
    assert OccursAt(s, s[n..], n);
  }

  /** Every character of an included string occurs in the string that includes it. */
  lemma IncludedChar(s: string, sub: string, c: char)
    requires Includes(s, sub) && c in sub
    ensures c in s
  {
    var i :| 0 <= i <= |s| - |sub| && OccursAt(s, sub, i);
    var k :| 0 <= k < |sub| && sub[k] == c;
    assert s[i..i + |sub|][k] == s[i + k];
  }

  /** `s.indexOf(c)` for a one-character search string: the first position of `c`, or -1. */
  function IndexOf(s: string, c: char): (r: int)
    ensures -1 <= r < |s|
    ensures r == -1 <==> c !in s
    ensures 0 <= r ==> s[r] == c && c !in s[..r]
  {
    if |s| == 0 then -1
    else if s[0] == c then 0
    else
      var r := IndexOf(s[1..], c);
      if r == -1 then -1
      else
        assert s[..r + 1] == [s[0]] + s[1..][..r];
        r + 1
  }

  /** `s.lastIndexOf(c)` for a one-character search string: the last position of `c`, or -1. */
  function LastIndexOf(s: string, c: char): (r: int)
    ensures -1 <= r < |s|
    ensures r == -1 <==> c !in s
    ensures 0 <= r ==> s[r] == c && c !in s[r + 1..]
  {
    if |s| == 0 then -1
    else if s[|s| - 1] == c then |s| - 1
    else
      var r := LastIndexOf(s[..|s| - 1], c);
      assert s[r + 1..] == s[..|s| - 1][r + 1..] + [s[|s| - 1]] by {
        if r == -1 { assert s == s[..|s| - 1] + [s[|s| - 1]]; }
      }
      r
  }

  function Clamp(x: int, lo: int, hi: int): int
    requires lo <= hi
  {
    if x < lo then lo else if x > hi then hi else x
  }

  /**
   * `s.substring(start, end)`: both bounds are clamped to `0..|s|`, and when the start
   * comes after the end the two are swapped.
   */
  function Substring(s: string, start: int, end: int): (r: string)
    ensures start <= end ==> r == s[Clamp(start, 0, |s|)..Clamp(end, 0, |s|)]
    ensures end < start ==> r == s[Clamp(end, 0, |s|)..Clamp(start, 0, |s|)]
  {
    var a := Clamp(start, 0, |s|);
    var b := Clamp(end, 0, |s|);
    if a <= b then s[a..b] else s[b..a]
  }

  /** The lower-case form of an ASCII letter; every other character is left as it is. */
  function LowerChar(c: char): (r: char)
    ensures 'A' <= c <= 'Z' ==> r as int == c as int + 32
    ensures !('A' <= c <= 'Z') ==> r == c
  {
    if 'A' <= c <= 'Z' then (c as int + 32) as char else c
  }

  /** `s.toLowerCase()`, restricted to the ASCII letters. */
  function ToLower(s: string): (r: string)
    ensures |r| == |s|
    ensures forall i :: 0 <= i < |s| ==> r[i] == LowerChar(s[i])
  {
    seq(|s|, i requires 0 <= i < |s| => LowerChar(s[i]))
  }

  /** A lower-case letter that occurs neither in upper nor in lower case in `s` does not occur in its lower-case form. */
  lemma LowerAbsent(s: string, c: char)
    requires 'a' <= c <= 'z' || !('A' <= c <= 'Z')
    requires c !in s
    requires 'a' <= c <= 'z' ==> (c as int - 32) as char !in s
    ensures c !in ToLower(s)
  {
    forall i | 0 <= i < |s|
      ensures ToLower(s)[i] != c
    {
      assert s[i] in s;
    }
  }

  predicate IsDigit(c: char)
  {
    '0' <= c <= '9'
  }

  /** The decimal digits of `n`, as JavaScript writes a non-negative integer into a template string. */
  function DecimalString(n: nat): (r: string)
    ensures |r| > 0
    ensures forall i :: 0 <= i < |r| ==> IsDigit(r[i])
    ensures |r| > 1 ==> r[0] != '0'
  {
    var d := [('0' as int + n % 10) as char];
    if n < 10 then d else DecimalString(n / 10) + d
  }

  /** The number that a string of decimal digits spells. */
  function DecimalValue(s: string): nat
    requires forall i :: 0 <= i < |s| ==> IsDigit(s[i])
  {
    if |s| == 0 then 0
    else
      assert IsDigit(s[|s| - 1]);
      10 * DecimalValue(s[..|s| - 1]) + (s[|s| - 1] as int - '0' as int)
  }

  /** Reading the decimal string back gives the number it was written from. */
  lemma {:induction false} DecimalRoundTrip(n: nat)
    ensures DecimalValue(DecimalString(n)) == n
  {
    var s := DecimalString(n);
    if n >= 10 {
      DecimalRoundTrip(n / 10);
      assert s[..|s| - 1] == DecimalString(n / 10);
    }
  }
}
