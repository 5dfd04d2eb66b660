/** The string operations the title search uses: lower-casing and
    substring search (`String.prototype.includes`). */
module Text {

  predicate IsAsciiUpper(c: char)
  {
    'A' <= c <= 'Z'
  }

  /** Lower-cases one character; only the ASCII letters A-Z are mapped. */
  function LowerChar(c: char): (r: char)
    ensures !IsAsciiUpper(r)
    ensures IsAsciiUpper(c) ==> r as int == c as int + 32
    ensures !IsAsciiUpper(c) ==> r == c
  {
    if IsAsciiUpper(c) then (c as int + 32) as char else c
  }

  /** Lower-cases a string character by character. */
  function Lower(s: string): (r: string)
    ensures |r| == |s|
    ensures forall i :: 0 <= i < |s| ==> r[i] == LowerChar(s[i])
  {
    seq(|s|, i requires 0 <= i < |s| => LowerChar(s[i]))
  }

  /** Two characters that differ at most in ASCII letter case. */
  predicate SameIgnoringCase(a: char, b: char)
  {
    || a == b
    || (IsAsciiUpper(a) && b as int == a as int + 32)
    || (IsAsciiUpper(b) && a as int == b as int + 32)
  }

  /** Lower-casing identifies exactly the characters that differ in case. */
  lemma LowerCharEqual(a: char, b: char)
    ensures LowerChar(a) == LowerChar(b) <==> SameIgnoringCase(a, b)
  {
  }

  /** Two strings lower-case to the same string exactly when they have the
      same length and differ, position by position, only in ASCII case. */
  lemma LowerEqual(s: string, t: string)
    ensures Lower(s) == Lower(t) <==>
      |s| == |t| && forall i :: 0 <= i < |s| ==> SameIgnoringCase(s[i], t[i])
  {
    if Lower(s) == Lower(t) {
      forall i | 0 <= i < |s|
        ensures SameIgnoringCase(s[i], t[i])
      {
        assert Lower(s)[i] == Lower(t)[i];
        LowerCharEqual(s[i], t[i]);
      }
    }
    if |s| == |t| && forall i :: 0 <= i < |s| ==> SameIgnoringCase(s[i], t[i]) {
      forall i | 0 <= i < |s|
        ensures Lower(s)[i] == Lower(t)[i]
      {
        LowerCharEqual(s[i], t[i]);
      }
    }
  }

  /** Lower-casing twice is lower-casing once. */
  lemma LowerIdempotent(s: string)
    ensures Lower(Lower(s)) == Lower(s)
  {
  }

  /** `t` occurs in `s` starting at index `i`. */
  ghost predicate OccursAt(t: string, s: string, i: int)
  {
    0 <= i <= |s| - |t| && s[i..i + |t|] == t
  }

  /** `t` occurs in `s` at some position: the reference meaning of `includes`. */
  ghost predicate IsSubstring(t: string, s: string)
  {
    exists i :: OccursAt(t, s, i)
  }

  /** `s.includes(t)`: scans `s` from the left for an occurrence of `t`. */
  function Includes(s: string, t: string): (found: bool)
    ensures |t| <= |s| && s[..|t|] == t ==> found
    ensures found ==> |t| <= |s|
    decreases |s|
  {
    if |t| > |s| then false
    else if s[..|t|] == t then true
    else Includes(s[1..], t)
  }

  /** The scan finds an occurrence exactly when one exists. */
  lemma {:induction false} IncludesIsSubstring(s: string, t: string)
    ensures Includes(s, t) <==> IsSubstring(t, s)
    decreases |s|
  {
    if |t| > |s| {
    } else if s[..|t|] == t {
      assert OccursAt(t, s, 0);
    } else {
      IncludesIsSubstring(s[1..], t);
      if Includes(s, t) {
        var i :| OccursAt(t, s[1..], i);
        assert s[i + 1..i + 1 + |t|] == s[1..][i..i + |t|];
        assert OccursAt(t, s, i + 1);
      }
      if IsSubstring(t, s) {
        var i :| OccursAt(t, s, i);
        assert i != 0;
        assert s[1..][i - 1..i - 1 + |t|] == s[i..i + |t|];
        assert OccursAt(t, s[1..], i - 1);
      }
    }
  }
}
