/**
 * Character-level helpers shared by the three components: whitespace trimming
 * (Swift's `trimmingCharacters(in: .whitespacesAndNewlines)`, JavaScript's `trim`),
 * case mapping (Swift's `localizedLowercase`, JavaScript's `toLowerCase`, Java's
 * `toUpperCase`) and substring search (Swift's `contains`, JavaScript's `includes`).
 * Case mapping and whitespace are restricted to ASCII.
 */
module Strings {

  /** ASCII whitespace and line breaks: space, tab, LF, CR, vertical tab, form feed. */
  predicate IsWhitespace(c: char) {
    c == ' ' || c == '\t' || c == '\n' || c == '\r' || c == '\U{B}' || c == '\U{C}'
  }

  predicate WhitespaceAt(s: string, i: int)
    requires 0 <= i < |s|
  {
    IsWhitespace(s[i])
  }

  /** Every character is whitespace (the empty string is blank). */
  predicate IsBlank(s: string) {
    forall i :: 0 <= i < |s| ==> WhitespaceAt(s, i)
  }

  /** Drops leading whitespace: the result is the suffix of `s` that starts at its first non-blank character. */
  function TrimStart(s: string): (r: string)
    ensures |r| <= |s| && r == s[|s| - |r|..]
    ensures IsBlank(s[..|s| - |r|])
    ensures r == [] || !IsWhitespace(r[0])
  {
    if s != [] && IsWhitespace(s[0]) then
      var r := TrimStart(s[1..]);
      BlankHeadGrows(s, r);
      r
    else s
  }

  /** Drops trailing whitespace: the result is the prefix of `s` that ends at its last non-blank character. */
  function TrimEnd(s: string): (r: string)
    ensures |r| <= |s| && r == s[..|r|]
    ensures IsBlank(s[|r|..])
    ensures r == [] || !IsWhitespace(r[|r| - 1])
  {
    if s != [] && IsWhitespace(s[|s| - 1]) then
      var r := TrimEnd(s[..|s| - 1]);
      BlankTailGrows(s, r);
      r
    else s
  }

  /** A suffix of `s[1..]` after a blank head is a suffix of `s` after a blank head when `s[0]` is whitespace. */
  lemma BlankHeadGrows(s: string, r: string)
    requires s != [] && IsWhitespace(s[0])
    requires |r| < |s| && r == s[1..][|s| - 1 - |r|..] && IsBlank(s[1..][..|s| - 1 - |r|])
    ensures r == s[|s| - |r|..] && IsBlank(s[..|s| - |r|])
  {
    var n := |s| - |r|;
    var tail := s[1..];
    assert tail[n - 1..] == s[n..];
    forall i | 0 <= i < n ensures WhitespaceAt(s[..n], i) {
      if i > 0 {
        assert WhitespaceAt(tail[..n - 1], i - 1);
        assert s[..n][i] == tail[..n - 1][i - 1];
      }
    }
  }

  /** A prefix of `s[..|s| - 1]` before a blank tail is a prefix of `s` before a blank tail when `s`'s last character is whitespace. */
  lemma BlankTailGrows(s: string, r: string)
    requires s != [] && IsWhitespace(s[|s| - 1])
    requires |r| < |s| && r == s[..|s| - 1][..|r|] && IsBlank(s[..|s| - 1][|r|..])
    ensures r == s[..|r|] && IsBlank(s[|r|..])
  {
    var init := s[..|s| - 1];
    assert init[..|r|] == s[..|r|];
    forall i | 0 <= i < |s| - |r| ensures WhitespaceAt(s[|r|..], i) {
      if i < |init| - |r| {
        assert WhitespaceAt(init[|r|..], i);
        assert s[|r|..][i] == init[|r|..][i];
      }
    }
  }

  /** `r` sits in `s` at offset `i` with nothing but whitespace around it. */
  predicate TrimmedAt(s: string, r: string, i: int) {
    0 <= i <= |s| - |r| && r == s[i..i + |r|] && IsBlank(s[..i]) && IsBlank(s[i + |r|..])
  }

  /** Drops whitespace at both ends; TrimSpec says what is left. */
  function Trim(s: string): (r: string)
    ensures |r| <= |s|
  {
    TrimEnd(TrimStart(s))
  }

  /**
   * What Trim leaves: `s` between a blank head and a blank tail, with
   * whitespace at neither end; the result is empty exactly when `s` is blank.
   */
  lemma TrimSpec(s: string)
    ensures exists i :: TrimmedAt(s, Trim(s), i)
    ensures Trim(s) == [] || (!IsWhitespace(Trim(s)[0]) && !IsWhitespace(Trim(s)[|Trim(s)| - 1]))
    ensures Trim(s) == [] <==> IsBlank(s)
  {
    TrimIsInfix(s);
    TrimEmptyIffBlank(s);
    var t := TrimStart(s);
    if Trim(s) != [] {
      assert Trim(s)[0] == t[0];
    }
  }

  lemma TrimIsInfix(s: string)
    ensures TrimmedAt(s, Trim(s), |s| - |TrimStart(s)|)
  {
    BlankAroundIsTrimmedAt(s, TrimStart(s), Trim(s));
  }

  /** `t` is a suffix of `s` after a blank head and `r` a prefix of `t` before a blank tail. */
  lemma BlankAroundIsTrimmedAt(s: string, t: string, r: string)
    requires |t| <= |s| && t == s[|s| - |t|..] && IsBlank(s[..|s| - |t|])
    requires |r| <= |t| && r == t[..|r|] && IsBlank(t[|r|..])
    ensures TrimmedAt(s, r, |s| - |t|)
  {
    var i := |s| - |t|;
    var j := i + |r|;
    assert r == s[i..j] by {
      forall k | 0 <= k < |r| ensures r[k] == s[i..j][k] {
        assert r[k] == t[k] == s[i + k];
      }
    }
    forall k | 0 <= k < |s| - j ensures WhitespaceAt(s[j..], k) {
      assert WhitespaceAt(t[|r|..], k);
      assert t[|r|..][k] == t[|r| + k] == s[j + k];
    }
  }

  lemma TrimEmptyIffBlank(s: string)
    ensures Trim(s) == [] <==> IsBlank(s)
  {
    var t := TrimStart(s);
    var i := |s| - |t|;
    assert t == s[i..];
    if Trim(s) == [] {
      forall k | 0 <= k < |s| ensures WhitespaceAt(s, k) {
        if k < i {
          assert WhitespaceAt(s[..i], k);
        } else {
          assert WhitespaceAt(t[0..], k - i);
        }
      }
    }
    if t != [] {
      assert t[0] == s[i];
      assert !WhitespaceAt(s, i);
    }
  }

  function LowerChar(c: char): char {
    if 'A' <= c <= 'Z' then (c as int + 32) as char else c
  }

  function UpperChar(c: char): char {
    if 'a' <= c <= 'z' then (c as int - 32) as char else c
  }

  function ToLower(s: string): string {
    if s == [] then [] else [LowerChar(s[0])] + ToLower(s[1..])
  }

  function ToUpper(s: string): string {
    if s == [] then [] else [UpperChar(s[0])] + ToUpper(s[1..])
  }

  /** Upper-casing an upper-cased string changes nothing. */
  lemma {:induction false} ToUpperIdempotent(s: string)
    ensures ToUpper(ToUpper(s)) == ToUpper(s)
  {
    if s != [] {
      ToUpperIdempotent(s[1..]);
      assert ToUpper(s)[1..] == ToUpper(s[1..]);
    }
  }

  /** `sub` occurs in `s`: it is a prefix of `s` or occurs in the rest of `s`. */
  predicate Contains(s: string, sub: string) {
    sub <= s || (s != [] && Contains(s[1..], sub))
  }

  /** Every string contains the empty string (JavaScript's `"abc".includes("")` is true). */
  lemma ContainsEmpty(s: string)
    ensures Contains(s, [])
  {
  }

  /** `sub` occurs in `s` exactly when it is a prefix of some suffix of `s`. */
  lemma {:induction false} ContainsAt(s: string, sub: string)
    ensures Contains(s, sub) <==> exists i :: 0 <= i <= |s| && sub <= s[i..]
  {
    if s != [] {
      ContainsAt(s[1..], sub);
      if exists i :: 0 <= i <= |s| && sub <= s[i..] {
        var i :| 0 <= i <= |s| && sub <= s[i..];
        if i > 0 { assert s[1..][i - 1..] == s[i..]; }
      }
      if exists i :: 0 <= i <= |s| - 1 && sub <= s[1..][i..] {
        var i :| 0 <= i <= |s| - 1 && sub <= s[1..][i..];
        assert s[i + 1..] == s[1..][i..];
      }
    } else {
      assert forall i :: 0 <= i <= |s| ==> s[i..] == s;
    }
  }
}
