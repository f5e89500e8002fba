/** The string operations `is_valid` relies on: Python's `in` on two strings,
    `str.lower()` and `str.endswith`, over Dafny strings (`seq<char>`). */
module Strings {

  /** `t` occurs in `s` starting at index `i`. */
  predicate OccursAt(s: string, t: string, i: nat) {
    i + |t| <= |s| && s[i..i + |t|] == t
  }

  /** Python's `t in s` for two strings, as a left-to-right scan of `s`. */
  function Contains(s: string, t: string): bool
    decreases |s|
  {
    if |s| < |t| then false
    else if s[..|t|] == t then true
    else Contains(s[1..], t)
  }

  /** The scan finds `t` exactly when `t` occurs somewhere in `s`. */
  lemma {:induction false} ContainsIff(s: string, t: string)
    ensures Contains(s, t) <==> exists i: nat :: OccursAt(s, t, i)
    decreases |s|
  {
    if |s| < |t| {
      forall i: nat ensures !OccursAt(s, t, i) { }
    } else if s[..|t|] == t {
      assert OccursAt(s, t, 0);
    } else {
      ContainsIff(s[1..], t);
      if Contains(s[1..], t) {
        var i: nat :| OccursAt(s[1..], t, i);
        assert s[i + 1..i + 1 + |t|] == s[1..][i..i + |t|];
        assert OccursAt(s, t, i + 1);
      } else {
        forall i: nat | OccursAt(s, t, i) ensures false {
          if i > 0 {
            assert s[1..][i - 1..i - 1 + |t|] == s[i..i + |t|];
            assert OccursAt(s[1..], t, i - 1);
          }
        }
      }
    }
  }

  /** `t` occurring at index `i` is enough for Python's `t in s` to hold. */
  lemma ContainsAt(s: string, t: string, i: nat)
    requires OccursAt(s, t, i)
    ensures Contains(s, t)
  {
    ContainsIff(s, t);
  }

  /** The one character outside ASCII whose lowercase is an ASCII letter. */
  const KelvinSign: char := '\U{212A}'

  /** `c.lower()` as far as it can produce an ASCII letter: `A`..`Z` map to
      `a`..`z`, KELVIN SIGN maps to `k`, every other character is kept. */
  function LowerChar(c: char): (r: char)
    ensures r == '\n' <==> c == '\n'
    ensures r == '.' <==> c == '.'
  {
    if 'A' <= c <= 'Z' then (c as int + 32) as char
    else if c == KelvinSign then 'k'
    else c
  }

  /** `s.lower()`, character by character with `LowerChar`. */
  function Lower(s: string): (r: string)
    ensures |r| == |s|
    ensures forall i :: 0 <= i < |s| ==> r[i] == LowerChar(s[i])
  {
    seq(|s|, i requires 0 <= i < |s| => LowerChar(s[i]))
  }

  /** Python's `s.endswith(t)`. */
  predicate EndsWith(s: string, t: string) {
    |t| <= |s| && s[|s| - |t|..] == t
  }
}
