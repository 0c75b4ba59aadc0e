/**
 * String primitives the help screen is built on: `std::string::find`,
 * the game's `replace_all`, and the occurrence facts the proofs about the
 * templating code need.
 */
module Strings {

  datatype Option<T> = None | Some(value: T)

  /** `w` occurs in `s` starting at index `k`. */
  predicate OccursAt(w: string, s: string, k: nat)
  {
    k + |w| <= |s| && s[k..k + |w|] == w
  }

  /** `w` occurs somewhere in `s`. */
  ghost predicate Occurs(w: string, s: string)
  {
    exists k: nat :: OccursAt(w, s, k)
  }

  /**
   * `s.find(w, from)`: the first index at or after `from` where `w` starts,
   * or `None` for `npos` (also when `from` is past the end).
   */
  function Find(s: string, w: string, from: nat): (r: Option<nat>)
    ensures r.Some? ==> from <= r.value && OccursAt(w, s, r.value)
    ensures r.Some? ==> forall k: nat :: from <= k < r.value ==> !OccursAt(w, s, k)
    ensures r.None? ==> forall k: nat :: from <= k ==> !OccursAt(w, s, k)
    decreases |s| - from
  {
    if from + |w| > |s| then None
    else if s[from..from + |w|] == w then Some(from)
    else Find(s, w, from + 1)
  }

  /**
   * `replace_all(s, w, r)`: scans `s` from left to right and replaces each
   * occurrence of `w` by `r`; the scan resumes after the replaced
   * occurrence, so occurrences never overlap and the inserted text is never
   * scanned again.
   */
  function ReplaceAll(s: string, w: string, r: string): string
    requires |w| > 0
    decreases |s|
  {
    if |s| < |w| then s
    else if s[..|w|] == w then r + ReplaceAll(s[|w|..], w, r)
    else [s[0]] + ReplaceAll(s[1..], w, r)
  }

  /** The number of (possibly overlapping) occurrences of `w` in `s`. */
  function Count(w: string, s: string): nat
    requires |w| > 0
    decreases |s|
  {
    if |s| < |w| then 0
    else (if s[..|w|] == w then 1 else 0) + Count(w, s[1..])
  }

  /** No occurrence of `w` in `a + b` starts inside `a` and ends inside `b`. */
  predicate NoStraddle(w: string, a: string, b: string)
  {
    forall k: nat :: k < |a| < k + |w| ==> !OccursAt(w, a + b, k)
  }

  lemma OccursAtShift(w: string, s: string, j: nat, k: nat)
    requires j <= |s|
    ensures OccursAt(w, s[j..], k) <==> OccursAt(w, s, k + j)
  {
    if k + |w| <= |s[j..]| {
      assert s[j..][k..k + |w|] == s[k + j..k + j + |w|];
    }
  }

  /** Replacing a pattern that does not occur changes nothing. */
  lemma {:induction false} ReplaceAllAbsent(s: string, w: string, r: string)
    requires |w| > 0
    requires !Occurs(w, s)
    ensures ReplaceAll(s, w, r) == s
    decreases |s|
  {
    if |s| >= |w| {
      assert !OccursAt(w, s, 0);
      forall k: nat ensures !OccursAt(w, s[1..], k) {
        OccursAtShift(w, s, 1, k);
      }
      ReplaceAllAbsent(s[1..], w, r);
      assert [s[0]] + s[1..] == s;
    }
  }

  /** A string that is exactly the pattern becomes exactly the replacement. */
  lemma ReplaceAllWhole(w: string, r: string)
    requires |w| > 0
    ensures ReplaceAll(w, w, r) == r
  {
    assert w[..|w|] == w;
    assert ReplaceAll(w[|w|..], w, r) == [];
  }

  lemma NoStraddleShift(w: string, a: string, b: string, j: nat)
    requires j <= |a|
    requires NoStraddle(w, a, b)
    ensures NoStraddle(w, a[j..], b)
  {
    assert a[j..] + b == (a + b)[j..];
    forall k: nat | k < |a[j..]| < k + |w| ensures !OccursAt(w, a[j..] + b, k) {
      OccursAtShift(w, a + b, j, k);
    }
  }

  /** A left part ending in a character that only the last position of `w` may hold. */
  lemma StraddleFreeByLast(w: string, a: string, b: string)
    requires |a| > 0 && |w| > 0
    requires a[|a| - 1] !in w[..|w| - 1]
    ensures NoStraddle(w, a, b)
  {
    forall k: nat | k < |a| < k + |w| ensures !OccursAt(w, a + b, k) {
      if k + |w| <= |a + b| {
        assert (a + b)[k..k + |w|][|a| - 1 - k] == a[|a| - 1];
        assert w[|a| - 1 - k] in w[..|w| - 1];
      }
    }
  }

  /** A left part that never holds the first character of `w`. */
  lemma StraddleFreeByFirst(w: string, a: string, b: string)
    requires |w| > 0
    requires w[0] !in a
    ensures NoStraddle(w, a, b)
  {
    forall k: nat | k < |a| < k + |w| ensures !OccursAt(w, a + b, k) {
    }
  }

  /** A right part starting with a character that only the first position of `w` may hold. */
  lemma StraddleFreeByNext(w: string, a: string, b: string)
    requires |b| > 0 && |w| > 0
    requires b[0] !in w[1..]
    ensures NoStraddle(w, a, b)
  {
    forall k: nat | k < |a| < k + |w| ensures !OccursAt(w, a + b, k) {
      if k + |w| <= |a + b| {
        assert (a + b)[k..k + |w|][|a| - k] == b[0];
        assert w[|a| - k] in w[1..];
      }
    }
  }

  /** Without a straddling occurrence, replacing in a concatenation replaces in each part. */
  lemma {:induction false} ReplaceAllConcat(a: string, b: string, w: string, r: string)
    requires |w| > 0
    requires NoStraddle(w, a, b)
    ensures ReplaceAll(a + b, w, r) == ReplaceAll(a, w, r) + ReplaceAll(b, w, r)
    decreases |a|, 1
  {
    if a == [] {
      assert a + b == b;
    } else if |a + b| >= |w| {
      if (a + b)[..|w|] == w {
        ReplaceAllConcatAtMatch(a, b, w, r);
      } else {
        ReplaceAllConcatAtSkip(a, b, w, r);
      }
    }
  }

  /** The step of `ReplaceAllConcat` where the pattern starts the text: it lies wholly in `a`. */
  lemma {:induction false} ReplaceAllConcatAtMatch(a: string, b: string, w: string, r: string)
    requires |w| > 0 && a != [] && |a + b| >= |w| && (a + b)[..|w|] == w
    requires NoStraddle(w, a, b)
    ensures ReplaceAll(a + b, w, r) == ReplaceAll(a, w, r) + ReplaceAll(b, w, r)
    decreases |a|, 0
  {
    var s := a + b;
    assert OccursAt(w, s, 0);
    assert |w| <= |a|;
    assert a[..|w|] == w;
    assert s[|w|..] == a[|w|..] + b;
    NoStraddleShift(w, a, b, |w|);
    ReplaceAllConcat(a[|w|..], b, w, r);
  }

  /** The step of `ReplaceAllConcat` where the text does not start with the pattern: its first character stays. */
  lemma {:induction false} ReplaceAllConcatAtSkip(a: string, b: string, w: string, r: string)
    requires |w| > 0 && a != [] && |a + b| >= |w| && (a + b)[..|w|] != w
    requires NoStraddle(w, a, b)
    ensures ReplaceAll(a + b, w, r) == ReplaceAll(a, w, r) + ReplaceAll(b, w, r)
    decreases |a|, 0
  {
    var s := a + b;
    assert s[1..] == a[1..] + b;
    NoStraddleShift(w, a, b, 1);
    ReplaceAllConcat(a[1..], b, w, r);
    var ra := ReplaceAll(a[1..], w, r);
    assert ReplaceAll(s, w, r) == [a[0]] + (ra + ReplaceAll(b, w, r));
    assert ReplaceAll(a, w, r) == [a[0]] + ra by {
      if |a| >= |w| {
        assert a[..|w|] == s[..|w|];
      } else {
        assert a == [a[0]] + a[1..];
      }
    }
  }

  /** Text before the first occurrence is left in place. */
  lemma ReplaceAllKeepsPrefix(a: string, b: string, w: string, r: string)
    requires |w| > 0
    requires forall k: nat :: k < |a| ==> !OccursAt(w, a + b, k)
    ensures ReplaceAll(a + b, w, r) == a + ReplaceAll(b, w, r)
  {
    forall k: nat ensures !OccursAt(w, a, k) {
      if OccursAt(w, a, k) {
        assert k < |a|;
        assert (a + b)[k..k + |w|] == a[k..k + |w|];
        assert OccursAt(w, a + b, k);
      }
    }
    ReplaceAllAbsent(a, w, r);
    ReplaceAllConcat(a, b, w, r);
  }

  /** An occurrence in a concatenation lies in one part or straddles the two. */
  lemma AbsentFromConcat(w: string, a: string, b: string)
    requires !Occurs(w, a) && !Occurs(w, b) && NoStraddle(w, a, b)
    ensures !Occurs(w, a + b)
  {
    forall k: nat ensures !OccursAt(w, a + b, k) {
      if OccursAt(w, a + b, k) {
        if k + |w| <= |a| {
          assert (a + b)[k..k + |w|] == a[k..k + |w|];
          assert OccursAt(w, a, k);
        } else if k >= |a| {
          assert (a + b)[k..k + |w|] == b[k - |a|..k - |a| + |w|];
          assert OccursAt(w, b, k - |a|);
        }
      }
    }
  }

  /** Counting occurrences agrees with the occurrence predicate. */
  lemma {:induction false} CountZero(w: string, s: string)
    requires |w| > 0
    ensures Count(w, s) == 0 <==> !Occurs(w, s)
    decreases |s|
  {
    if |s| >= |w| {
      CountZero(w, s[1..]);
      if Count(w, s) == 0 {
        forall k: nat ensures !OccursAt(w, s, k) {
          if k > 0 {
            OccursAtShift(w, s, 1, k - 1);
          }
        }
      } else if s[..|w|] == w {
        assert OccursAt(w, s, 0);
      } else {
        var k: nat :| OccursAt(w, s[1..], k);
        OccursAtShift(w, s, 1, k);
      }
    }
  }

  /** Counting in a concatenation: at least the two parts' counts, exactly so without straddling. */
  lemma {:induction false} CountConcat(w: string, a: string, b: string)
    requires |w| > 0
    ensures Count(w, a + b) >= Count(w, a) + Count(w, b)
    ensures NoStraddle(w, a, b) ==> Count(w, a + b) == Count(w, a) + Count(w, b)
    decreases |a|
  {
    var s := a + b;
    if a == [] {
      assert s == b;
    } else if |s| >= |w| {
      assert s[1..] == a[1..] + b;
      CountConcat(w, a[1..], b);
      if NoStraddle(w, a, b) {
        NoStraddleShift(w, a, b, 1);
      }
      if |a| >= |w| {
        assert a[..|w|] == s[..|w|];
      } else {
        assert NoStraddle(w, a, b) ==> !OccursAt(w, s, 0);
      }
    }
  }

  /**
   * If the replacement does not start with a character of `u`, a prefix `u`
   * of the replaced text was already a prefix of the original.
   */
  lemma {:induction false} PrefixBeforeReplace(x: string, w: string, r: string, u: string)
    requires |w| > 0 && |r| > 0 && r[0] !in u
    requires |u| <= |ReplaceAll(x, w, r)| && ReplaceAll(x, w, r)[..|u|] == u
    ensures |u| <= |x| && x[..|u|] == u
    decreases |x|
  {
    if |u| > 0 && |x| >= |w| {
      assert u[0] in u;
      assert x[..|w|] != w by {
        assert ReplaceAll(x, w, r)[0] == u[0];
      }
      {
        var y := ReplaceAll(x[1..], w, r);
        assert ReplaceAll(x, w, r) == [x[0]] + y;
        assert y[..|u| - 1] == u[1..];
        PrefixBeforeReplace(x[1..], w, r, u[1..]);
        assert x[..|u|] == [x[0]] + x[1..][..|u| - 1];
      }
    }
  }

  /** The replacement step where the text starts with the pattern `w`. */
  lemma CountReplaceAtMatch(x: string, w: string, r: string, p: string, y: string)
    requires |p| > 0 && |p| <= |w| <= |x| && w[..|p|] == p && x[..|w|] == w
    requires |r| > 0 && Count(p, r) == 0 && r[|r| - 1] !in p[..|p| - 1]
    requires Count(p, y) <= Count(p, x[|w|..])
    ensures Count(p, r + y) < Count(p, x)
  {
    StraddleFreeByLast(p, r, y);
    CountConcat(p, r, y);
    assert x == w + x[|w|..];
    CountConcat(p, w, x[|w|..]);
    assert w[..|p|] == p;
  }

  /** The replacement step where the text does not start with `w`: the first character is kept. */
  lemma CountReplaceAtSkip(x: string, w: string, r: string, p: string, y: string)
    requires |p| > 0 && |p| <= |w| <= |x| && x[..|w|] != w
    requires |r| > 0 && r[0] !in p[1..]
    requires y == ReplaceAll(x[1..], w, r)
    ensures Count(p, [x[0]] + y) - Count(p, y) <= Count(p, x) - Count(p, x[1..])
  {
    var z := [x[0]] + y;
    assert z[1..] == y;
    assert Count(p, x) == (if x[..|p|] == p then 1 else 0) + Count(p, x[1..]);
    if |z| >= |p| {
      assert Count(p, z) == (if z[..|p|] == p then 1 else 0) + Count(p, y);
      if z[..|p|] == p {
        assert y[..|p| - 1] == p[1..];
        PrefixBeforeReplace(x[1..], w, r, p[1..]);
        assert x[..|p|] == [x[0]] + x[1..][..|p| - 1];
      }
    }
  }

  /**
   * Replacing a pattern `w` that starts with `p` by text that holds no `p`
   * (and cannot join its neighbours into one) never adds an occurrence of
   * `p`, and removes at least one when `w` occurs.
   */
  lemma {:induction false} CountAfterReplace(x: string, w: string, r: string, p: string)
    requires |p| > 0 && |p| <= |w| && w[..|p|] == p
    requires |r| > 0 && Count(p, r) == 0
    requires r[0] !in p[1..] && r[|r| - 1] !in p[..|p| - 1]
    ensures Count(p, ReplaceAll(x, w, r)) <= Count(p, x)
    ensures Occurs(w, x) ==> Count(p, ReplaceAll(x, w, r)) < Count(p, x)
    decreases |x|
  {
    if |x| < |w| {
      assert !Occurs(w, x);
    } else if x[..|w|] == w {
      CountAfterReplace(x[|w|..], w, r, p);
      CountReplaceAtMatch(x, w, r, p, ReplaceAll(x[|w|..], w, r));
    } else {
      CountAfterReplace(x[1..], w, r, p);
      CountReplaceAtSkip(x, w, r, p, ReplaceAll(x[1..], w, r));
      if Occurs(w, x) {
        var k: nat :| OccursAt(w, x, k);
        assert k != 0;
        OccursAtShift(w, x, 1, k - 1);
      }
    }
  }
}
