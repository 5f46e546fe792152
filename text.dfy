/** The string operations the requester filter uses: `str.lower` and the
    substring test `p in s`. */
module Text {

  /** `c.lower()` on an ASCII letter; every other character is kept. */
  function LowerChar(c: char): char
  {
    if 'A' <= c <= 'Z' then (c as int - 'A' as int + 'a' as int) as char else c
  }

  predicate IsUpper(c: char)
  {
    'A' <= c <= 'Z'
  }

  /** `s.lower()`, character by character: no upper-case ASCII letter is
      left, each one becomes its lower-case letter, and every other
      character is unchanged. */
  function Lower(s: string): (r: string)
    ensures |r| == |s|
    ensures forall i :: 0 <= i < |r| ==> !IsUpper(r[i])
    ensures forall i :: 0 <= i < |s| && !IsUpper(s[i]) ==> r[i] == s[i]
    ensures forall i :: 0 <= i < |s| && IsUpper(s[i]) ==> r[i] as int == s[i] as int + 32
  {
    seq(|s|, i requires 0 <= i < |s| => LowerChar(s[i]))
  }

  /** Python's `p in s` on strings, searched from the left. */
  function Contains(s: string, p: string): bool
    decreases |s|
  {
    p <= s || (s != [] && Contains(s[1..], p))
  }

  /** Reference definition of an occurrence: `p` is the slice of `s` at offset `i`. */
  ghost predicate OccursAt(s: string, p: string, i: int)
  {
    0 <= i && i + |p| <= |s| && s[i..i + |p|] == p
  }

  /** The search finds `p` exactly when `p` occurs somewhere in `s`. */
  lemma {:induction false} ContainsIffOccurs(s: string, p: string)
    ensures Contains(s, p) <==> exists i :: OccursAt(s, p, i)
    decreases |s|
  {
    if p <= s {
      assert s[0..|p|] == p;
      assert OccursAt(s, p, 0);
    } else if s == [] {
      forall i | 0 <= i ensures !OccursAt(s, p, i) {
      }
    } else {
      ContainsIffOccurs(s[1..], p);
      if Contains(s[1..], p) {
        var i :| OccursAt(s[1..], p, i);
        assert s[1..][i..i + |p|] == s[i + 1..i + 1 + |p|];
        assert OccursAt(s, p, i + 1);
      } else {
        forall i | 0 <= i ensures !OccursAt(s, p, i) {
          if i == 0 && |p| <= |s| {
            assert s[0..|p|] == s[..|p|];
          } else if 0 < i && i + |p| <= |s| {
            assert s[1..][i - 1..i - 1 + |p|] == s[i..i + |p|];
            assert !OccursAt(s[1..], p, i - 1);
          }
        }
      }
    }
  }

  /** Every character of a pattern the search finds is a character of `s`. */
  lemma {:induction false} FoundCharsOccur(s: string, p: string, c: char)
    requires Contains(s, p) && c in p
    ensures c in s
    decreases |s|
  {
    if p <= s {
      var k :| 0 <= k < |p| && p[k] == c;
      assert s[k] == c;
    } else {
      FoundCharsOccur(s[1..], p, c);
    }
  }

  /** Any spelling of `p` that lower-cases to `p` is caught: when the
      characters of `s` at offset `i` lower-case to `p`, the search finds `p`
      in `Lower(s)`. */
  lemma VariantCaught(s: string, p: string, i: int)
    requires 0 <= i && i + |p| <= |s|
    requires forall k :: 0 <= k < |p| ==> LowerChar(s[i + k]) == p[k]
    ensures Contains(Lower(s), p)
  {
    var l := Lower(s);
    assert l[i..i + |p|] == p;
    assert OccursAt(l, p, i);
    ContainsIffOccurs(l, p);
  }

  /** A pattern with no upper-case ASCII letter that occurs in `s` also
      occurs, at the same offset, in `Lower(s)`. */
  lemma LowerKeepsLowerCaseOccurrence(s: string, p: string, i: int)
    requires OccursAt(s, p, i)
    requires forall k :: 0 <= k < |p| ==> !IsUpper(p[k])
    ensures OccursAt(Lower(s), p, i)
  {
    var l := Lower(s);
    forall k | 0 <= k < |p| ensures l[i + k] == p[k] {
      assert s[i + k] == s[i..i + |p|][k];
    }
    assert l[i..i + |p|] == p;
  }
}
