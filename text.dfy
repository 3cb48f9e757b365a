/**
 The two string operations the lookups depend on: `toLowerCase` (on the
 ASCII letters) and `includes`.
 */
module Text {

  /** Lowercase one character; only 'A'..'Z' change. */
  function LowerChar(c: char): char
  {
    if 'A' <= c <= 'Z' then (c as int + 32) as char else c
  }

  /** `s.toLowerCase()`, restricted to ASCII letters. */
  function Lower(s: string): (r: string)
    ensures |r| == |s|
    ensures forall i :: 0 <= i < |s| ==> r[i] == LowerChar(s[i])
    ensures forall i :: 0 <= i < |s| ==> !('A' <= r[i] <= 'Z')
  {
    if s == [] then [] else [LowerChar(s[0])] + Lower(s[1..])
  }

  /** Lowercasing twice is lowercasing once, so a query that is already
      lower-case is matched exactly as its upper-case spelling. */
  lemma LowerIdempotent(s: string)
    ensures Lower(Lower(s)) == Lower(s)
  {
  }

  predicate StartsWith(s: string, prefix: string)
  {
    |prefix| <= |s| && s[..|prefix|] == prefix
  }

  /** `s.includes(t)`: a scan over the start positions of `s`. */
  predicate Includes(s: string, t: string)
    decreases |s|
  {
    StartsWith(s, t) || (s != [] && Includes(s[1..], t))
  }

  /** `t` occurs in `s` starting at index `i`. */
  ghost predicate OccursAt(t: string, s: string, i: int)
  {
    0 <= i && i + |t| <= |s| && s[i..i + |t|] == t
  }

  /** `t` occurs in `s` at some position. */
  ghost predicate IsSubstring(t: string, s: string)
  {
    exists i :: OccursAt(t, s, i)
  }

  /** The scan finds `t` exactly when `t` occurs in `s`. */
  lemma {:induction false} IncludesIsSubstring(s: string, t: string)
    ensures Includes(s, t) <==> IsSubstring(t, s)
    decreases |s|
  {
    if StartsWith(s, t) {
      assert OccursAt(t, s, 0);
    } else if s == [] {
      assert |t| > 0;
    } else {
      IncludesIsSubstring(s[1..], t);
      var rest := s[1..];
      if Includes(rest, t) {
        var i :| OccursAt(t, rest, i);
        assert forall k {:trigger rest[i + k]} :: 0 <= k < |t| ==> s[i + 1 + k] == rest[i + k];
        assert s[i + 1..i + 1 + |t|] == rest[i..i + |t|];
        assert OccursAt(t, s, i + 1);
      }
      if IsSubstring(t, s) {
        var i :| OccursAt(t, s, i);
        if i > 0 {
          assert forall k {:trigger s[i + k]} :: 0 <= k < |t| ==> rest[i - 1 + k] == s[i + k];
          assert rest[i - 1..i - 1 + |t|] == s[i..i + |t|];
          assert OccursAt(t, rest, i - 1);
        }
      }
    }
  }
}
