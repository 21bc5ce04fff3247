/** Sequence facts shared by the explorer's stacks: duplicate-freedom, reversal
    and the "lies along" relation between the fork stack and the path stack.
    A stack is a sequence whose top is its last element. */
module Sequences {

  /** Every element occurs exactly once. */
  ghost predicate NoDup<T>(s: seq<T>)
  {
    forall x :: x in s ==> multiset(s)[x] == 1
  }

  /** A permutation of a duplicate-free sequence is duplicate-free. */
  lemma NoDupPermutation<T>(a: seq<T>, b: seq<T>)
    requires NoDup(a) && multiset(a) == multiset(b)
    ensures NoDup(b)
  {
    forall x | x in b ensures multiset(b)[x] == 1 {
      assert x in multiset(b);
    }
  }

  /** The elements of `s` in the order a stack hands them out when it is popped
      empty: last element first. */
  function Reversed<T>(s: seq<T>): (r: seq<T>)
    ensures |r| == |s|
  {
    if s == [] then [] else [s[|s| - 1]] + Reversed(s[..|s| - 1])
  }

  lemma {:induction false} ReversedAt<T>(s: seq<T>, k: nat)
    requires k < |s|
    ensures Reversed(s)[k] == s[|s| - 1 - k]
  {
    if k > 0 {
      ReversedAt(s[..|s| - 1], k - 1);
    }
  }

  /** Popping one more element from a stack extends the popped sequence by it:
      the popped elements of `s[i..]` are those of `s[i + 1..]` followed by `s[i]`. */
  lemma {:induction false} ReversedPopOne<T>(s: seq<T>, i: nat)
    requires i < |s|
    ensures Reversed(s[i..]) == Reversed(s[i + 1..]) + [s[i]]
  {
    var r, q := Reversed(s[i..]), Reversed(s[i + 1..]) + [s[i]];
    forall k | 0 <= k < |r| ensures r[k] == q[k] {
      ReversedAt(s[i..], k);
      if k < |r| - 1 {
        ReversedAt(s[i + 1..], k);
      }
    }
  }

  /** `f` is a subsequence of `p`, decided the way a stack is unwound: match the
      top of `f` against the topmost equal element of `p`, discarding what lies
      above it. */
  ghost predicate IsSubsequence<T>(f: seq<T>, p: seq<T>)
    decreases |p|
  {
    if f == [] then true
    else if p == [] then false
    else if f[|f| - 1] == p[|p| - 1] then IsSubsequence(f[..|f| - 1], p[..|p| - 1])
    else IsSubsequence(f, p[..|p| - 1])
  }

  /** Pushing onto `p` alone keeps `f` a subsequence of it. */
  lemma {:induction false} SubsequenceExtend<T>(f: seq<T>, p: seq<T>, c: T)
    requires IsSubsequence(f, p)
    ensures IsSubsequence(f, p + [c])
    decreases |p|, 1
  {
    var pc := p + [c];
    assert pc[..|pc| - 1] == p;
    if f != [] && f[|f| - 1] == c {
      SubsequenceDropLast(f, p);
    }
  }

  /** Dropping the top of `f` keeps it a subsequence of `p`. */
  lemma {:induction false} SubsequenceDropLast<T>(f: seq<T>, p: seq<T>)
    requires f != [] && IsSubsequence(f, p)
    ensures IsSubsequence(f[..|f| - 1], p)
    decreases |p|, 0
  {
    var q := p[..|p| - 1];
    assert q + [p[|p| - 1]] == p;
    if f[|f| - 1] == p[|p| - 1] {
      SubsequenceExtend(f[..|f| - 1], q, p[|p| - 1]);
    } else {
      SubsequenceDropLast(f, q);
      SubsequenceExtend(f[..|f| - 1], q, p[|p| - 1]);
    }
  }

  /** Unwinding the stack `p` in search of `fork`, its first `k` elements are
      left and `p[k]` was popped last; no element popped so far other than
      possibly `p[k]` is `fork`; `f + [fork]` lies along what is left while the
      search goes on, and `f` does once `p[k]` is `fork`. */
  ghost predicate Unwinding<T>(p: seq<T>, k: nat, f: seq<T>, fork: T)
  {
    k < |p| &&
    (forall j :: k < j < |p| ==> p[j] != fork) &&
    (p[k] != fork ==> IsSubsequence(f + [fork], p[..k])) &&
    (p[k] == fork ==> IsSubsequence(f, p[..k]))
  }

  /** The first pop while unwinding a stack along which `f + [fork]` lies. */
  lemma UnwindStart<T>(p: seq<T>, f: seq<T>, fork: T)
    requires IsSubsequence(f + [fork], p)
    ensures p != [] && Unwinding(p, |p| - 1, f, fork)
  {
    assert (f + [fork])[..|f|] == f;
  }

  /** One more pop while unwinding: the popped element is `p[k - 1]`. */
  lemma UnwindStep<T>(p: seq<T>, k: nat, f: seq<T>, fork: T)
    requires Unwinding(p, k, f, fork) && p[k] != fork
    ensures 0 < k && Unwinding(p, k - 1, f, fork)
    ensures p[..k][..k - 1] == p[..k - 1] && p[..k][k - 1] == p[k - 1]
  {
    var q := p[..k];
    assert (f + [fork])[..|f|] == f;
    assert q[..k - 1] == p[..k - 1];
  }

  /** The whole state of an unwinding of `p0` that started with the record
      `t0`: what is left of the stack is `p`, the last element popped is
      `there`, and the record `t` has gained the popped part in pop order. */
  ghost predicate Unwound<T>(p0: seq<T>, t0: seq<T>, f: seq<T>, fork: T, p: seq<T>, there: T, t: seq<T>)
  {
    Unwinding(p0, |p|, f, fork) && p == p0[..|p|] && p0[|p|] == there &&
    t == t0 + Reversed(p0[|p|..])
  }

  /** Popping the top of a stack along which `f + [fork]` lies starts an
      unwinding. */
  lemma UnwoundStart<T>(p0: seq<T>, t0: seq<T>, f: seq<T>, fork: T)
    requires IsSubsequence(f + [fork], p0)
    ensures p0 != []
    ensures Unwound(p0, t0, f, fork, p0[..|p0| - 1], p0[|p0| - 1], t0 + [p0[|p0| - 1]])
  {
    UnwindStart(p0, f, fork);
    ReversedPopOne(p0, |p0| - 1);
    assert p0[|p0|..] == [];
  }

  /** While the last element popped is not `fork`, the stack is not empty and
      one more pop continues the unwinding. */
  lemma UnwoundStep<T>(p0: seq<T>, t0: seq<T>, f: seq<T>, fork: T, p: seq<T>, there: T, t: seq<T>)
    requires Unwound(p0, t0, f, fork, p, there, t) && there != fork
    ensures p != []
    ensures Unwound(p0, t0, f, fork, p[..|p| - 1], p[|p| - 1], t + [p[|p| - 1]])
  {
    var k := |p|;
    UnwindStep(p0, k, f, fork);
    ReversedPopOne(p0, k - 1);
    assert t + [p0[k - 1]] == t0 + (Reversed(p0[k..]) + [p0[k - 1]]);
  }
}
