// Blocks of equal consecutive elements in a history, seen from the whole
// history at once: the reference for the online streak machines.
module Runs {

  // Length of the block of equal elements that ends the history.
  function Tail<T(==)>(s: seq<T>): (n: nat)
    ensures n <= |s| && (s != [] ==> 1 <= n)
    ensures forall i :: |s| - n <= i < |s| ==> s[i] == s[|s| - 1]
    ensures n < |s| ==> s[|s| - n - 1] != s[|s| - 1]
  {
    if |s| <= 1 then |s|
    else if s[|s| - 2] == s[|s| - 1] then 1 + Tail(s[..|s| - 1])
    else 1
  }

  // The last m elements are v, and the block is not longer than that.
  ghost predicate EndsBlock<T>(s: seq<T>, v: T, m: nat) {
    && m <= |s|
    && (forall i :: |s| - m <= i < |s| ==> s[i] == v)
    && (m < |s| ==> s[|s| - m - 1] != v)
  }

  lemma {:induction false} TailEndsBlock<T>(s: seq<T>, v: T, m: nat)
    requires 1 <= m
    ensures EndsBlock(s, v, m) <==> s != [] && s[|s| - 1] == v && Tail(s) == m
  {
    if EndsBlock(s, v, m) {
      assert s[|s| - 1] == v;
    }
  }

  // s[lo..hi] is a block that cannot be extended on either side.
  ghost predicate MaximalBlock<T>(s: seq<T>, lo: int, hi: int) {
    && 0 <= lo < hi <= |s|
    && (forall i :: lo <= i < hi ==> s[i] == s[lo])
    && (0 < lo ==> s[lo - 1] != s[lo])
    && (hi < |s| ==> s[hi] != s[lo])
  }

  // Positions at which the current block of wanted elements reaches length m.
  ghost function Reaches<T>(s: seq<T>, want: T -> bool, m: nat): set<int> {
    set k | 0 <= k < |s| && want(s[k]) && Tail(s[..k + 1]) == m
  }

  // Maximal blocks of wanted elements of length at least m, as (start, end).
  ghost function LongBlocks<T>(s: seq<T>, want: T -> bool, m: nat): set<(int, int)> {
    set lo, hi | 0 <= lo < |s| && 0 <= hi <= |s| && MaximalBlock(s, lo, hi) && want(s[lo]) && m <= hi - lo
      :: (lo, hi)
  }

  // The end of the block that contains position k.
  function BlockEnd<T(==)>(s: seq<T>, k: nat): (hi: nat)
    requires k < |s|
    ensures k < hi <= |s|
    ensures forall i :: k <= i < hi ==> s[i] == s[k]
    ensures hi < |s| ==> s[hi] != s[k]
    decreases |s| - k
  {
    if k + 1 == |s| || s[k + 1] != s[k] then k + 1 else BlockEnd(s, k + 1)
  }

  lemma {:induction false} ReachStartsLongBlock<T>(s: seq<T>, want: T -> bool, m: nat, k: int)
    requires 1 <= m && k in Reaches(s, want, m)
    ensures (k + 1 - m, BlockEnd(s, k)) in LongBlocks(s, want, m)
  {
    var p := s[..k + 1];
    var lo, hi := k + 1 - m, BlockEnd(s, k);
    assert forall i :: lo <= i <= k ==> s[i] == p[i] == s[k];
    if 0 < lo { assert p[|p| - m - 1] == s[lo - 1]; }
    assert MaximalBlock(s, lo, hi);
  }

  lemma {:induction false} LongBlockIsReached<T>(s: seq<T>, want: T -> bool, m: nat, b: (int, int))
    requires 1 <= m && b in LongBlocks(s, want, m)
    ensures b.0 + m - 1 in Reaches(s, want, m)
    ensures b.1 == BlockEnd(s, b.0 + m - 1)
  {
    var k := b.0 + m - 1;
    var p := s[..k + 1];
    assert s[k] == s[b.0];
    assert EndsBlock(p, s[k], m);
    TailEndsBlock(p, s[k], m);
  }

  lemma {:induction false} InjectionKeepsSize<A, B>(a: set<A>, b: set<B>, f: A -> B)
    requires forall x, y :: x in a && y in a && f(x) == f(y) ==> x == y
    requires forall x :: x in a ==> f(x) in b
    requires forall y :: y in b ==> exists x :: x in a && f(x) == y
    ensures |a| == |b|
    decreases |a|
  {
    if a == {} {
      assert b == {};
    } else {
      var x :| x in a;
      forall y | y in b - {f(x)}
        ensures exists z :: z in a - {x} && f(z) == y
      {
        var z :| z in a && f(z) == y;
        assert z in a - {x};
      }
      InjectionKeepsSize(a - {x}, b - {f(x)}, f);
    }
  }

  // A block of length at least m reaches length m at this position.
  function ReachOf(m: nat): ((int, int)) -> int {
    (b: (int, int)) => b.0 + m - 1
  }

  lemma {:induction false} ReachesAreLongBlocks<T>(s: seq<T>, want: T -> bool, m: nat, k: int)
    requires 1 <= m
    ensures k in Reaches(s, want, m) <==> exists b :: b in LongBlocks(s, want, m) && ReachOf(m)(b) == k
  {
    if k in Reaches(s, want, m) {
      ReachStartsLongBlock(s, want, m, k);
      var b := (k + 1 - m, BlockEnd(s, k));
      assert b in LongBlocks(s, want, m) && ReachOf(m)(b) == k;
    }
    if b :| b in LongBlocks(s, want, m) && ReachOf(m)(b) == k {
      LongBlockIsReached(s, want, m, b);
    }
  }

  // Reaching length m happens exactly once in every maximal block of length
  // at least m, and nowhere else.
  lemma {:induction false} ReachesCountLongBlocks<T>(s: seq<T>, want: T -> bool, m: nat)
    requires 1 <= m
    ensures |Reaches(s, want, m)| == |LongBlocks(s, want, m)|
  {
    var reaches, blocks, f := Reaches(s, want, m), LongBlocks(s, want, m), ReachOf(m);
    forall k
      ensures k in reaches <==> exists b :: b in blocks && f(b) == k
    {
      ReachesAreLongBlocks(s, want, m, k);
    }
    forall a, b | a in blocks && b in blocks && f(a) == f(b)
      ensures a == b
    {
      LongBlockIsReached(s, want, m, a);
      LongBlockIsReached(s, want, m, b);
    }
    InjectionKeepsSize(blocks, reaches, f);
  }

  lemma {:induction false} ReachesPrefix<T>(s: seq<T>, x: T, want: T -> bool, m: nat, k: int)
    requires k < |s|
    ensures k in Reaches(s + [x], want, m) <==> k in Reaches(s, want, m)
  {
    if 0 <= k {
      assert (s + [x])[..k + 1] == s[..k + 1] && (s + [x])[k] == s[k];
    }
  }

  lemma {:induction false} ReachesLast<T>(s: seq<T>, x: T, want: T -> bool, m: nat)
    ensures |s| in Reaches(s + [x], want, m) <==> want(x) && Tail(s + [x]) == m
  {
    assert (s + [x])[..|s| + 1] == s + [x];
  }

  lemma {:induction false} InsertKeepsSize(a: set<int>, b: set<int>, n: int)
    requires n !in a
    requires forall k :: k != n ==> (k in b <==> k in a)
    ensures |b| == |a| + if n in b then 1 else 0
  {
    forall k: int
      ensures k in b - {n} <==> k in a
    {
      assert k != n ==> (k in b <==> k in a);
    }
    assert b - {n} == a;
  }

  lemma {:induction false} ReachesExtend<T>(s: seq<T>, x: T, want: T -> bool, m: nat)
    ensures |Reaches(s + [x], want, m)| ==
            |Reaches(s, want, m)| + if want(x) && Tail(s + [x]) == m then 1 else 0
  {
    var a, b := Reaches(s, want, m), Reaches(s + [x], want, m);
    forall k | k != |s|
      ensures k in b <==> k in a
    {
      if k < |s| { ReachesPrefix(s, x, want, m, k); }
    }
    ReachesLast(s, x, want, m);
    InsertKeepsSize(a, b, |s|);
  }
}
