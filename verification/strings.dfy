/**
  Character-level facts about masked text, and a model of Java's
  `String.replace(CharSequence, CharSequence)`.
  A Java `String` is modelled as `seq<char>`: one Dafny `char` stands for
  one Java `char`, which is exact only for text inside the Basic
  Multilingual Plane (README, Left out).
 */
module Strings {

  /** Every character of `s` is an asterisk. */
  predicate IsStars(s: string) {
    forall i | 0 <= i < |s| :: s[i] == '*'
  }

  /** Java's `"*".repeat(n)`. */
  function Stars(n: nat): (r: string)
    ensures |r| == n && IsStars(r)
  {
    seq(n, _ => '*')
  }

  /** `out` is `orig` with some characters overwritten by `*` and nothing else changed. */
  predicate StarOrSame(orig: string, out: string) {
    && |orig| == |out|
    && forall i | 0 <= i < |out| :: out[i] == orig[i] || out[i] == '*'
  }

  lemma StarOrSameRefl(s: string)
    ensures StarOrSame(s, s)
  {
  }

  lemma StarOrSameTrans(a: string, b: string, c: string)
    requires StarOrSame(a, b) && StarOrSame(b, c)
    ensures StarOrSame(a, c)
  {
  }

  lemma StarOrSameConcat(a1: string, b1: string, a2: string, b2: string)
    requires StarOrSame(a1, b1) && StarOrSame(a2, b2)
    ensures StarOrSame(a1 + a2, b1 + b2)
  {
    forall i | 0 <= i < |b1 + b2|
      ensures (b1 + b2)[i] == (a1 + a2)[i] || (b1 + b2)[i] == '*'
    {
      if i >= |b1| {
        assert (b1 + b2)[i] == b2[i - |b1|];
      }
    }
  }

  lemma StarOrSameConcatWhen(a1: string, b1: string, a2: string, b2: string)
    ensures StarOrSame(a1, b1) && StarOrSame(a2, b2) ==> StarOrSame(a1 + a2, b1 + b2)
  {
    if StarOrSame(a1, b1) && StarOrSame(a2, b2) {
      StarOrSameConcat(a1, b1, a2, b2);
    }
  }

  /** `t` occurs in `s` starting at index `p`. */
  predicate OccursAt(s: string, t: string, p: nat) {
    p + |t| <= |s| && s[p..p + |t|] == t
  }

  /**
    Java's `s.replace(t, u)` for a non-empty target: the string is scanned
    from the left, each occurrence of `t` is replaced by `u`, and the scan
    resumes after the replaced occurrence (so of two overlapping
    occurrences only the left one is replaced).
   */
  function ReplaceAll(s: string, t: string, u: string): (r: string)
    requires |t| > 0
    ensures |u| == |t| ==> |r| == |s|
    ensures StarOrSame(t, u) ==> StarOrSame(s, r)
    decreases |s|
  {
    if |s| < |t| then s
    else if s[..|t|] == t then
      var rest := ReplaceAll(s[|t|..], t, u);
      assert s == t + s[|t|..];
      StarOrSameConcatWhen(t, u, s[|t|..], rest);
      u + rest
    else
      var rest := ReplaceAll(s[1..], t, u);
      assert s == [s[0]] + s[1..];
      StarOrSameConcatWhen([s[0]], [s[0]], s[1..], rest);
      [s[0]] + rest
  }

  /** A string without any occurrence of the target is returned unchanged. */
  lemma {:induction false} ReplaceAllWithoutOccurrence(s: string, t: string, u: string)
    requires |t| > 0
    requires forall p | 0 <= p <= |s| :: !OccursAt(s, t, p)
    ensures ReplaceAll(s, t, u) == s
    decreases |s|
  {
    if |s| >= |t| {
      assert !OccursAt(s, t, 0);
      forall p | 0 <= p <= |s[1..]|
        ensures !OccursAt(s[1..], t, p)
      {
        assert !OccursAt(s, t, p + 1);
        if p + |t| <= |s[1..]| {
          assert s[1..][p..p + |t|] == s[p + 1..p + 1 + |t|];
        }
      }
      ReplaceAllWithoutOccurrence(s[1..], t, u);
      assert s == [s[0]] + s[1..];
    }
  }

  /**
    The scan finds the leftmost occurrence first: everything before it is
    copied, the occurrence becomes `u`, and the scan resumes after it.
    This is the `indexOf`-loop reading of `String.replace`.
   */
  lemma {:induction false} ReplaceAllAtFirstOccurrence(s: string, t: string, u: string, p: nat)
    requires |t| > 0
    requires OccursAt(s, t, p)
    requires forall q | 0 <= q < p :: !OccursAt(s, t, q)
    ensures ReplaceAll(s, t, u) == s[..p] + u + ReplaceAll(s[p + |t|..], t, u)
    decreases p
  {
    if p == 0 {
      assert s[..|t|] == t;
    } else {
      var s' := s[1..];
      ReplaceAllSkipsFirst(s, t, u);
      OccursInTail(s, t, p);
      NoEarlierOccurrenceInTail(s, t, p);
      ReplaceAllAtFirstOccurrence(s', t, u, p - 1);
      DropAfterFirst(s, p + |t|);
      Regroup(s, p, u, ReplaceAll(s, t, u), ReplaceAll(s', t, u), ReplaceAll(s[p + |t|..], t, u));
    }
  }

  lemma OccursInTail(s: string, t: string, p: nat)
    requires 0 < p && OccursAt(s, t, p)
    ensures OccursAt(s[1..], t, p - 1)
  {
    assert s[1..][p - 1..p - 1 + |t|] == s[p..p + |t|];
  }

  lemma DropAfterFirst(s: string, k: nat)
    requires 0 < k <= |s|
    ensures s[1..][k - 1..] == s[k..]
  {
  }

  /** The bookkeeping step of `ReplaceAllAtFirstOccurrence`, over plain strings. */
  lemma Regroup(s: string, p: nat, u: string, whole: string, tail: string, rest: string)
    requires 0 < p <= |s|
    requires whole == [s[0]] + tail
    requires tail == s[1..][..p - 1] + u + rest
    ensures whole == s[..p] + u + rest
  {
    assert s[..p] == [s[0]] + s[1..][..p - 1];
  }

  /** Without an occurrence at the start, the first character is copied. */
  lemma ReplaceAllSkipsFirst(s: string, t: string, u: string)
    requires 0 < |t| <= |s| && !OccursAt(s, t, 0)
    ensures ReplaceAll(s, t, u) == [s[0]] + ReplaceAll(s[1..], t, u)
  {
    assert s[..|t|] != t;
  }

  lemma NoEarlierOccurrenceInTail(s: string, t: string, p: nat)
    requires 0 < p <= |s|
    requires forall q | 0 <= q < p :: !OccursAt(s, t, q)
    ensures forall q | 0 <= q < p - 1 :: !OccursAt(s[1..], t, q)
  {
    forall q | 0 <= q < p - 1
      ensures !OccursAt(s[1..], t, q)
    {
      assert !OccursAt(s, t, q + 1);
      if q + |t| <= |s[1..]| {
        assert s[1..][q..q + |t|] == s[q + 1..q + 1 + |t|];
      }
    }
  }

  /**
    With a replacement of the target's length, a character of the result
    differs from the input only inside some occurrence of the target.
   */
  lemma ReplaceAllChangesOnlyOccurrences(s: string, t: string, u: string)
    requires |t| > 0 && |u| == |t|
    ensures forall i | 0 <= i < |s| && ReplaceAll(s, t, u)[i] != s[i] ::
      exists p: nat :: p <= i < p + |t| && OccursAt(s, t, p)
  {
    forall i | 0 <= i < |s| && ReplaceAll(s, t, u)[i] != s[i]
      ensures exists p: nat :: p <= i < p + |t| && OccursAt(s, t, p)
    {
      ReplaceAllChangeAt(s, t, u, i);
    }
  }

  /** A changed character lies inside an occurrence of `t`. */
  lemma {:induction false} ReplaceAllChangeAt(s: string, t: string, u: string, i: nat)
    requires |t| > 0 && |u| == |t| && i < |s| && ReplaceAll(s, t, u)[i] != s[i]
    ensures exists p: nat :: p <= i < p + |t| && OccursAt(s, t, p)
    decreases |s|
  {
    if |t| <= |s| && s[..|t|] == t {
      if i < |t| {
        assert OccursAt(s, t, 0);
      } else {
        var s' := s[|t|..];
        assert ReplaceAll(s, t, u) == u + ReplaceAll(s', t, u);
        assert ReplaceAll(s', t, u)[i - |t|] != s'[i - |t|];
        ReplaceAllChangeAt(s', t, u, i - |t|);
        var p: nat :| p <= i - |t| < p + |t| && OccursAt(s', t, p);
        OccursInSuffix(s, |t|, t, p);
      }
    } else if |t| <= |s| {
      var s' := s[1..];
      assert ReplaceAll(s, t, u) == [s[0]] + ReplaceAll(s', t, u);
      assert i > 0;
      assert ReplaceAll(s', t, u)[i - 1] != s'[i - 1];
      ReplaceAllChangeAt(s', t, u, i - 1);
      var p: nat :| p <= i - 1 < p + |t| && OccursAt(s', t, p);
      OccursInSuffix(s, 1, t, p);
    }
  }

  lemma OccursInSuffix(s: string, k: nat, t: string, p: nat)
    requires k <= |s| && OccursAt(s[k..], t, p)
    ensures OccursAt(s, t, p + k)
  {
    assert s[k..][p..p + |t|] == s[p + k..p + k + |t|];
  }


  /** Replacing a whole string by itself yields the replacement. */
  lemma ReplaceAllSelf(s: string, u: string)
    requires |s| > 0
    ensures ReplaceAll(s, s, u) == u + ReplaceAll([], s, u) == u
  {
    assert s[..|s|] == s;
    assert s[|s|..] == [];
  }

  /** Slicing a three-part concatenation back into its parts. */
  lemma SliceOfConcat3(x: string, y: string, z: string, a: nat, b: nat)
    requires a <= b <= |z|
    ensures (x + y + z)[|x|..|x| + |y|] == y
    ensures (x + y + z)[|x| + |y| + a..|x| + |y| + b] == z[a..b]
    ensures (x + y + z)[..|x|] == x
  {
  }

  /** Replacing the middle part of a string by a starred version of it. */
  lemma StarOrSameSplice(t: string, pos: nat, s: nat, e: nat, piece: string, rest: string)
    requires pos <= s <= e <= |t|
    requires StarOrSame(t[s..e], piece) && StarOrSame(t[e..], rest)
    ensures StarOrSame(t[pos..], t[pos..s] + piece + rest)
  {
    assert t[pos..] == t[pos..s] + t[s..e] + t[e..];
    StarOrSameRefl(t[pos..s]);
    StarOrSameConcat(t[pos..s], t[pos..s], t[s..e], piece);
    StarOrSameConcat(t[pos..s] + t[s..e], t[pos..s] + piece, t[e..], rest);
  }
}
