/** Character-level helpers behind the case-insensitive name filter of the book list:
    an ASCII stand-in for `toLocaleLowerCase` and JavaScript's `String.prototype.includes`. */
module Text {

  /** Lower-cases an ASCII capital letter and leaves every other character alone. */
  function LowerChar(c: char): char
  {
    if 'A' <= c <= 'Z' then (c as int + 32) as char else c
  }

  /** Character-wise lower-casing of a whole string. */
  function Lower(s: string): (r: string)
    ensures |r| == |s|
    ensures forall i :: 0 <= i < |s| ==> r[i] == LowerChar(s[i])
    ensures forall i :: 0 <= i < |r| ==> !('A' <= r[i] <= 'Z')
  {
    seq(|s|, i requires 0 <= i < |s| => LowerChar(s[i]))
  }

  /** `p` is a prefix of `s`. */
  predicate IsPrefix(p: string, s: string)
  {
    |p| <= |s| && s[..|p|] == p
  }

  /** `s.includes(t)`: `t` occurs in `s`, tried at every start position from the left. */
  predicate Contains(s: string, t: string)
    ensures t == [] ==> Contains(s, t)
    ensures Contains(s, t) ==> |t| <= |s|
    decreases |s|
  {
    IsPrefix(t, s) || (s != [] && Contains(s[1..], t))
  }

  /** `t` occurs in `s` as a contiguous block starting at `k`. */
  ghost predicate OccursAt(s: string, t: string, k: int)
  {
    0 <= k && k + |t| <= |s| && s[k..k + |t|] == t
  }

  /** A successful scan names a position where `t` occurs. */
  lemma {:induction false} ContainsHasOccurrence(s: string, t: string) returns (k: int)
    requires Contains(s, t)
    ensures OccursAt(s, t, k)
    decreases |s|
  {
    if IsPrefix(t, s) {
      k := 0;
    } else {
      var k' := ContainsHasOccurrence(s[1..], t);
      assert s[1..][k'..k' + |t|] == s[k' + 1..k' + 1 + |t|];
      k := k' + 1;
    }
  }

  /** Every occurrence of `t` in `s` is found by the scan. */
  lemma {:induction false} OccurrenceIsContained(s: string, t: string, k: int)
    requires OccursAt(s, t, k)
    ensures Contains(s, t)
    decreases k
  {
    if k == 0 {
      assert IsPrefix(t, s);
    } else {
      assert s[1..][k - 1..k - 1 + |t|] == s[k..k + |t|];
      OccurrenceIsContained(s[1..], t, k - 1);
    }
  }

  /** The scanning search finds `t` exactly when `t` occurs somewhere in `s`. */
  lemma ContainsIffOccurs(s: string, t: string)
    ensures Contains(s, t) <==> exists k :: OccursAt(s, t, k)
  {
    if Contains(s, t) {
      var k := ContainsHasOccurrence(s, t);
    }
    forall k | OccursAt(s, t, k)
      ensures Contains(s, t)
    {
      OccurrenceIsContained(s, t, k);
    }
  }

  /** Lower-casing is idempotent, so a query that is already lower-case is unchanged. */
  lemma LowerIdempotent(s: string)
    ensures Lower(Lower(s)) == Lower(s)
  {
  }
}
