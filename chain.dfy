/**
 * chain.go: a chain of job wrappers (`JobWrapper` is a function from job to job)
 * that decorates a submitted job. The first wrapper listed ends up outermost.
 */
module JobChain {

  /** The wrappers, in the order they were given to `NewChain`. */
  datatype Chain<!J> = Chain(wrappers: seq<J -> J>)
  {
    /**
     * chain.go `Chain.Then`: applies the wrappers from the last to the first.
     * `applied` records the index of each wrapper in the order it was applied.
     */
    method Then(j0: J) returns (j: J, ghost applied: seq<int>)
      ensures j == Compose(wrappers, j0)
      ensures applied == Countdown(|wrappers|)
    {
      var n := |wrappers|;
      j, applied := j0, [];
      for i := 0 to n
        invariant j == Compose(wrappers[n - i..], j0)
        invariant applied == Countdown(n)[..i]
      {
        assert wrappers[n - i - 1..][1..] == wrappers[n - i..];
        j := wrappers[n - i - 1](j);
        applied := applied + [n - i - 1];
        assert Countdown(n)[..i + 1] == Countdown(n)[..i] + [n - i - 1];
      }
      assert wrappers[0..] == wrappers;
    }
  }

  /** chain.go `NewChain`. */
  function NewChain<J>(c: seq<J -> J>): (r: Chain<J>)
    ensures r.wrappers == c
  {
    Chain(c)
  }

  /** The wrappers applied right to left: `ws[0](ws[1](... ws[|ws|-1](j)))`. */
  function Compose<J>(ws: seq<J -> J>, j: J): J
  {
    if |ws| == 0 then j else ws[0](Compose(ws[1..], j))
  }

  /** The indices `n - 1` down to `0`. */
  function Countdown(n: nat): (r: seq<int>)
    ensures |r| == n && forall k :: 0 <= k < n ==> r[k] == n - 1 - k
  {
    seq(n, k => n - 1 - k)
  }

  /** Every wrapper is applied exactly once. */
  lemma {:induction false} CountdownIsEachIndexOnce(n: nat)
    ensures forall i :: 0 <= i < n ==> multiset(Countdown(n))[i] == 1
    ensures forall x :: x in Countdown(n) ==> 0 <= x < n
  {
    if n > 0 {
      CountdownIsEachIndexOnce(n - 1);
      assert Countdown(n) == [n - 1] + Countdown(n - 1);
    }
  }

  /** An empty chain leaves the job as it is. */
  lemma EmptyChainIsIdentity<J>(j: J)
    ensures Compose(NewChain<J>([]).wrappers, j) == j
  {
  }

  /** `NewChain(m1, m2, m3).Then(job)` is `m1(m2(m3(job)))`. */
  lemma ThreeWrappers<J>(m1: J -> J, m2: J -> J, m3: J -> J, j: J)
    ensures Compose(NewChain([m1, m2, m3]).wrappers, j) == m1(m2(m3(j)))
  {
    assert [m1, m2, m3][1..] == [m2, m3];
    assert [m2, m3][1..] == [m3];
    assert [m3][1..] == [];
    assert Compose([m3], j) == m3(j);
    assert Compose([m2, m3], j) == m2(m3(j));
  }

  /** Wrapping with a concatenation is wrapping with the second part, then with the first. */
  lemma {:induction false} ComposeAppend<J>(a: seq<J -> J>, b: seq<J -> J>, j: J)
    ensures Compose(a + b, j) == Compose(a, Compose(b, j))
  {
    if |a| > 0 {
      assert (a + b)[1..] == a[1..] + b;
      ComposeAppend(a[1..], b, j);
    } else {
      assert a + b == b;
    }
  }
}
