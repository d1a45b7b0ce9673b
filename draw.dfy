/**
 * The random choices of the engine, taken as explicit inputs.
 *
 * A shuffle is driven by a sequence of picks: at each step the pick, taken
 * modulo the number of elements left, says which one comes next. Every pick
 * sequence yields a permutation and every permutation is reached by some pick
 * sequence, so the functions below range over exactly the outcomes of
 * `random.shuffle`, `random.sample` and `random.choice`.
 */
module Draw {
  import opened Common

  /** The pick used at a step, and the picks left for the next steps. */
  function Head(picks: seq<nat>, n: nat): nat
    requires n > 0
    ensures Head(picks, n) < n
  {
    if picks == [] then 0 else picks[0] % n
  }

  function Tail(picks: seq<nat>): seq<nat>
  {
    if picks == [] then [] else picks[1..]
  }

  /** `random.shuffle`: the elements of `s` in the order the picks choose. */
  function Shuffle<T>(s: seq<T>, picks: seq<nat>): (r: seq<T>)
    ensures |r| == |s| && multiset(r) == multiset(s)
    decreases |s|
  {
    if |s| == 0 then []
    else
      var k := Head(picks, |s|);
      assert s == s[..k] + [s[k]] + s[k + 1..];
      [s[k]] + Shuffle(s[..k] + s[k + 1..], Tail(picks))
  }

  /** `random.sample(s, n)`: n elements of s taken from distinct positions. */
  function Sample<T>(s: seq<T>, picks: seq<nat>, n: nat): (r: seq<T>)
    requires n <= |s|
    ensures |r| == n && multiset(r) <= multiset(s)
  {
    var t := Shuffle(s, picks);
    assert t == t[..n] + t[n..];
    t[..n]
  }

  /** `random.choice(s)`. */
  function Choice<T>(s: seq<T>, pick: nat): (r: T)
    requires |s| > 0
    ensures r in s
  {
    s[pick % |s|]
  }

  /**
   * Every draw of `random.sample` is reached: any n elements taken from
   * distinct positions of s, in any order, are the sample of some picks.
   */
  lemma {:induction false} SampleReaches<T>(s: seq<T>, t: seq<T>) returns (picks: seq<nat>)
    requires multiset(t) <= multiset(s)
    ensures |t| <= |s| && Sample(s, picks, |t|) == t
    decreases |s|
  {
    if t == [] {
      picks := [];
      return;
    }
    assert t[0] in multiset(s);
    var k :| 0 <= k < |s| && s[k] == t[0];
    var rest := s[..k] + s[k + 1..];
    TakeOut(s, t, k);
    var more := SampleReaches(rest, t[1..]);
    picks := [k] + more;
    PickThenSample(s, k, more, t[1..]);
    FirstThenRest(t);
  }

  /** A non-empty sequence is its first element followed by the rest. */
  lemma FirstThenRest<T>(t: seq<T>)
    requires t != []
    ensures t == [t[0]] + t[1..] && |t| == |t[1..]| + 1
  {
  }

  /** Putting pick k before the picks of a sample of the rest puts s[k] before that sample. */
  lemma PickThenSample<T>(s: seq<T>, k: nat, more: seq<nat>, u: seq<T>)
    requires k < |s| && |u| <= |s| - 1 && Sample(s[..k] + s[k + 1..], more, |u|) == u
    ensures |u| + 1 <= |s| && Sample(s, [k] + more, |u| + 1) == [s[k]] + u
  {
    PickFirst(s, k, more);
    var r := Shuffle(s[..k] + s[k + 1..], more);
    assert Sample(s[..k] + s[k + 1..], more, |u|) == r[..|u|];
    ConsTake(s[k], r, |u|);
  }

  /** Taking n + 1 from [x] + r is x followed by the first n of r. */
  lemma ConsTake<T>(x: T, r: seq<T>, n: nat)
    requires n <= |r|
    ensures ([x] + r)[..n + 1] == [x] + r[..n]
  {
  }

  /** Taking the first element of t out of s at position k keeps the rest of t inside what is left. */
  lemma TakeOut<T>(s: seq<T>, t: seq<T>, k: nat)
    requires multiset(t) <= multiset(s) && t != [] && k < |s| && s[k] == t[0]
    ensures multiset(t[1..]) <= multiset(s[..k] + s[k + 1..])
  {
    assert s == s[..k] + [s[k]] + s[k + 1..];
    assert t == [t[0]] + t[1..];
    var rest := s[..k] + s[k + 1..];
    assert multiset(s) == multiset(rest) + multiset{s[k]};
    assert multiset(t) == multiset{t[0]} + multiset(t[1..]);
    forall x
      ensures multiset(t[1..])[x] <= multiset(rest)[x]
    {
      assert multiset(t)[x] <= multiset(s)[x];
    }
  }

  /** A first pick of k puts s[k] first and shuffles the others. */
  lemma PickFirst<T>(s: seq<T>, k: nat, more: seq<nat>)
    requires k < |s|
    ensures Shuffle(s, [k] + more) == [s[k]] + Shuffle(s[..k] + s[k + 1..], more)
  {
    var p := [k] + more;
    assert p[0] == k && p[1..] == more;
    ModBelow(k, |s|);
    assert Head(p, |s|) == k;
  }

  /** A pick below the count is taken as it is. */
  lemma ModBelow(k: int, n: int)
    requires 0 <= k < n
    ensures k % n == k
  {
  }

  /** Every permutation of s is the shuffle of some picks. */
  lemma ShuffleReaches<T>(s: seq<T>, p: seq<T>)
    requires multiset(p) == multiset(s)
    ensures exists picks :: Shuffle(s, picks) == p
  {
    var picks := SampleReaches(s, p);
    var r := Shuffle(s, picks);
    assert |multiset(p)| == |multiset(s)|;
    assert r[..|s|] == r;
  }

  /** Every element of s is the choice of some pick. */
  lemma ChoiceReaches<T>(s: seq<T>, x: T)
    requires x in s
    ensures exists pick :: Choice(s, pick) == x
  {
    var k :| 0 <= k < |s| && s[k] == x;
    ModBelow(k, |s|);
    assert Choice(s, k) == x;
  }

  /** The list comprehension `[x for x in s if x not in rem]`. */
  function Without<T(==)>(s: seq<T>, rem: seq<T>): (r: seq<T>)
    ensures |r| <= |s|
  {
    if s == [] then []
    else (if s[0] in rem then [] else [s[0]]) + Without(s[1..], rem)
  }

  /** Each value keeps its multiplicity in the comprehension, unless it is one of the values taken away. */
  lemma {:induction false} WithoutCount<T>(s: seq<T>, rem: seq<T>, x: T)
    ensures multiset(Without(s, rem))[x] == if x in rem then 0 else multiset(s)[x]
  {
    if s != [] {
      assert s == [s[0]] + s[1..];
      WithoutCount(s[1..], rem, x);
    }
  }

  lemma {:induction false} DistinctHasSingleCopies<T>(s: seq<T>)
    requires Distinct(s)
    ensures forall x :: multiset(s)[x] <= 1
  {
    if s != [] {
      assert s == [s[0]] + s[1..];
      DistinctHasSingleCopies(s[1..]);
      assert s[0] !in s[1..];
    }
  }

  lemma SingleCopiesAreDistinct<T>(s: seq<T>)
    requires forall x :: multiset(s)[x] <= 1
    ensures Distinct(s)
  {
    forall i, j | 0 <= i < j < |s|
      ensures s[i] != s[j]
    {
      assert s == s[..j] + [s[j]] + s[j + 1..];
      assert s[i] in s[..j];
      assert multiset(s[..j])[s[i]] >= 1;
      assert multiset(s)[s[j]] == multiset(s[..j])[s[j]] + 1 + multiset(s[j + 1..])[s[j]];
    }
  }

  /** A sub-multiset of a sequence without repetitions has no repetitions either. */
  lemma DistinctSubset<T>(a: seq<T>, b: seq<T>)
    requires multiset(a) <= multiset(b) && Distinct(b)
    ensures Distinct(a)
  {
    DistinctHasSingleCopies(b);
    SingleCopiesAreDistinct(a);
  }

  /** A shuffle holds the same elements, and no repetitions when there were none. */
  lemma ShuffleMembers<T>(s: seq<T>, picks: seq<nat>)
    ensures forall x :: x in Shuffle(s, picks) <==> x in s
    ensures Distinct(s) ==> Distinct(Shuffle(s, picks))
  {
    var r := Shuffle(s, picks);
    forall x
      ensures x in r <==> x in s
    {
      assert x in r <==> x in multiset(r);
    }
    if Distinct(s) {
      DistinctSubset(r, s);
    }
  }

  /** Taking away a sub-multiset of a sequence without repetitions. */
  lemma WithoutSplits<T(!new)>(s: seq<T>, rem: seq<T>)
    requires Distinct(s) && multiset(rem) <= multiset(s)
    ensures multiset(s) == multiset(Without(s, rem)) + multiset(rem)
    ensures |Without(s, rem)| == |s| - |rem|
    ensures Distinct(Without(s, rem))
  {
    DistinctHasSingleCopies(s);
    var w := Without(s, rem);
    forall x
      ensures multiset(s)[x] == (multiset(w) + multiset(rem))[x]
    {
      WithoutCount(s, rem, x);
      if x in rem {
        assert multiset(rem)[x] >= 1;
      }
    }
    assert multiset(s) == multiset(w) + multiset(rem);
    assert |multiset(s)| == |multiset(w)| + |multiset(rem)|;
    DistinctSubset(w, s);
  }

  /** `[f(x) for x in s]`. */
  function MapSeq<T, U>(f: T -> U, s: seq<T>): (r: seq<U>)
    ensures |r| == |s| && forall i :: 0 <= i < |s| ==> r[i] == f(s[i])
  {
    seq(|s|, i requires 0 <= i < |s| => f(s[i]))
  }

  /** Elements whose images are all different are all different. */
  lemma DistinctImage<T, U>(f: T -> U, s: seq<T>)
    requires Distinct(MapSeq(f, s))
    ensures Distinct(s)
  {
    forall i, j | 0 <= i < j < |s|
      ensures s[i] != s[j]
    {
      assert MapSeq(f, s)[i] != MapSeq(f, s)[j];
    }
  }

  lemma MapSeqAppend<T, U>(f: T -> U, a: seq<T>, b: seq<T>)
    ensures MapSeq(f, a + b) == MapSeq(f, a) + MapSeq(f, b)
  {
  }

  /** Rearranging a sequence rearranges the images of its elements the same way. */
  lemma {:induction false} MapPermutation<T, U>(f: T -> U, a: seq<T>, b: seq<T>)
    requires multiset(a) == multiset(b)
    ensures multiset(MapSeq(f, a)) == multiset(MapSeq(f, b))
    decreases |a|
  {
    if a != [] {
      var x := a[0];
      assert a == [x] + a[1..];
      assert x in multiset(b);
      var k :| 0 <= k < |b| && b[k] == x;
      assert b == b[..k] + [x] + b[k + 1..];
      var b' := b[..k] + b[k + 1..];
      assert multiset(b) == multiset(b[..k]) + multiset([x]) + multiset(b[k + 1..]);
      assert multiset(b') == multiset(b[..k]) + multiset(b[k + 1..]);
      assert multiset(a) == multiset([x]) + multiset(a[1..]);
      forall y
        ensures multiset(a[1..])[y] == multiset(b')[y]
      {
        assert multiset(a)[y] == multiset([x])[y] + multiset(a[1..])[y];
        assert multiset(b)[y] == multiset(b[..k])[y] + multiset([x])[y] + multiset(b[k + 1..])[y];
        assert multiset(b')[y] == multiset(b[..k])[y] + multiset(b[k + 1..])[y];
      }
      assert multiset(a[1..]) == multiset(b');
      MapPermutation(f, a[1..], b');
      MapSeqAppend(f, [x], a[1..]);
      MapSeqAppend(f, b[..k], [x]);
      MapSeqAppend(f, b[..k] + [x], b[k + 1..]);
      MapSeqAppend(f, b[..k], b[k + 1..]);
    }
  }
}
