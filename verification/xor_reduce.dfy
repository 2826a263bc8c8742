/** The `xor` commutative reducer of the autoscheduled workload: combiner `^`,
    identity constant 0, and the fold it induces over a sequence of bytes. */
module XorReduce {

  /** The reducer's identity element. */
  const Identity: bv8 := 0

  /** The reducer's combiner. */
  function Combine(x: bv8, y: bv8): bv8 {
    x ^ y
  }

  /** The reducer is a commutative monoid with identity 0, and every element is its own
      inverse; this is what allows the compiler to reorder and split the reduction axis. */
  lemma CombineIsCommutativeMonoid(x: bv8, y: bv8, z: bv8)
    ensures Combine(x, Identity) == x && Combine(Identity, x) == x
    ensures Combine(x, y) == Combine(y, x)
    ensures Combine(Combine(x, y), z) == Combine(x, Combine(y, z))
    ensures Combine(x, x) == Identity
  {
  }

  /** Reduction of a sequence, combining left to right from the identity. */
  function XorOf(s: seq<bv8>): bv8 {
    if |s| == 0 then Identity else Combine(XorOf(s[..|s| - 1]), s[|s| - 1])
  }

  /** Reducing a concatenation combines the two partial reductions. */
  lemma {:induction false} XorOfAppend(a: seq<bv8>, b: seq<bv8>)
    ensures XorOf(a + b) == Combine(XorOf(a), XorOf(b))
  {
    if |b| > 0 {
      assert (a + b)[..|a + b| - 1] == a + b[..|b| - 1];
      XorOfAppend(a, b[..|b| - 1]);
    } else {
      assert a + b == a;
    }
  }

  /** Moving one operand to the end of a combination of three. */
  lemma CombineSwap(a: bv8, x: bv8, b: bv8)
    ensures Combine(Combine(a, x), b) == Combine(Combine(a, b), x)
  {
  }

  /** Pulling one term out of the middle of a reduction. */
  lemma XorOfRemove(t: seq<bv8>, p: nat)
    requires p < |t|
    ensures XorOf(t) == Combine(XorOf(t[..p] + t[p + 1..]), t[p])
  {
    var x, front, back := t[p], t[..p], t[p + 1..];
    assert t == (front + [x]) + back;
    XorOfAppend(front + [x], back);
    XorOfAppend(front, [x]);
    XorOfAppend(front, back);
    assert XorOf([x]) == x by {
      assert [x][..0] == [];
    }
    CombineSwap(XorOf(front), x, XorOf(back));
  }

  /** Taking term `p` out of a sequence takes one copy of it out of its multiset. */
  lemma MultisetRemove(t: seq<bv8>, p: nat)
    requires p < |t|
    ensures multiset(t) == multiset(t[..p] + t[p + 1..]) + multiset{t[p]}
  {
    assert t == t[..p] + [t[p]] + t[p + 1..];
  }

  /** Locates the last term of `s` in a rearrangement `t`, and what remains of both. */
  lemma MatchLast(s: seq<bv8>, t: seq<bv8>) returns (p: nat)
    requires |s| > 0 && multiset(s) == multiset(t)
    ensures p < |t| && t[p] == s[|s| - 1]
    ensures multiset(s[..|s| - 1]) == multiset(t[..p] + t[p + 1..])
  {
    var x := s[|s| - 1];
    MultisetRemove(s, |s| - 1);
    assert s[..|s| - 1] + s[|s|..] == s[..|s| - 1];
    assert x in t by {
      assert x in multiset(t);
    }
    p :| 0 <= p < |t| && t[p] == x;
    MultisetRemove(t, p);
    var front, rest := multiset(s[..|s| - 1]), multiset(t[..p] + t[p + 1..]);
    assert front == front + multiset{x} - multiset{x};
    assert rest == rest + multiset{x} - multiset{x};
  }

  /** The reduction depends only on the multiset of its terms, not on their order. */
  lemma {:induction false} XorOfPermutation(s: seq<bv8>, t: seq<bv8>)
    requires multiset(s) == multiset(t)
    ensures XorOf(s) == XorOf(t)
    decreases |s|
  {
    if |s| == 0 {
      assert |t| == |multiset(t)| == 0;
    } else {
      var p := MatchLast(s, t);
      XorOfPermutation(s[..|s| - 1], t[..p] + t[p + 1..]);
      XorOfRemove(t, p);
    }
  }
}
