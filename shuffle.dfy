/**
  The reordering done when a game starts. The bank is sorted in place with a
  comparator that answers at random, so which order comes out depends on the
  engine's sort and on those random answers. The model takes that out of the
  program: the environment supplies a sequence of exchanges whose composition
  is the order the sort returns, and the array is rearranged by exactly those
  exchanges. Every
  reordering can be produced this way (EveryReorderingIsExchanged) and no
  other result can (Exchanged keeps the multiset), so the model promises "some
  permutation of the bank" and nothing about how likely each one is.
 */
module Shuffle {

  /** Exchange the elements at positions i and j. */
  datatype Exchange = Exchange(i: nat, j: nat)

  /** Every exchange names two positions of a sequence of length n. */
  predicate InRange(exchanges: seq<Exchange>, n: nat) {
    forall k :: 0 <= k < |exchanges| ==> exchanges[k].i < n && exchanges[k].j < n
  }

  /** One exchange applied to s. */
  function Swap<T>(s: seq<T>, e: Exchange): (r: seq<T>)
    requires e.i < |s| && e.j < |s|
    ensures |r| == |s| && multiset(r) == multiset(s)
    ensures r[e.i] == s[e.j] && r[e.j] == s[e.i]
    ensures forall k :: 0 <= k < |s| && k != e.i && k != e.j ==> r[k] == s[k]
  {
    s[e.i := s[e.j]][e.j := s[e.i]]
  }

  /** s after applying the exchanges in order, first to last. */
  function Exchanged<T>(s: seq<T>, exchanges: seq<Exchange>): (r: seq<T>)
    requires InRange(exchanges, |s|)
    ensures |r| == |s| && multiset(r) == multiset(s)
  {
    if exchanges == [] then s
    else Swap(Exchanged(s, exchanges[..|exchanges| - 1]), exchanges[|exchanges| - 1])
  }

  /** Applying a + b is applying a, then b. */
  lemma {:induction false} ExchangedConcat<T>(s: seq<T>, a: seq<Exchange>, b: seq<Exchange>)
    requires InRange(a, |s|) && InRange(b, |s|)
    ensures InRange(a + b, |s|)
    ensures Exchanged(s, a + b) == Exchanged(Exchanged(s, a), b)
    decreases |b|
  {
    if b == [] {
      assert a + b == a;
    } else {
      var m := |b| - 1;
      assert (a + b)[..|a + b| - 1] == a + b[..m];
      ExchangedConcat(s, a, b[..m]);
    }
  }

  /** The exchanges moved one position to the right. */
  function Shifted(exchanges: seq<Exchange>): (r: seq<Exchange>)
    ensures |r| == |exchanges|
    ensures forall k :: 0 <= k < |r| ==> r[k] == Exchange(exchanges[k].i + 1, exchanges[k].j + 1)
  {
    if exchanges == [] then []
    else Shifted(exchanges[..|exchanges| - 1])
         + [Exchange(exchanges[|exchanges| - 1].i + 1, exchanges[|exchanges| - 1].j + 1)]
  }

  /** A shifted exchange applied behind a fixed head is the exchange applied to the tail. */
  lemma SwapShifted<T>(x: T, u: seq<T>, e: Exchange)
    requires e.i < |u| && e.j < |u|
    ensures Swap([x] + u, Exchange(e.i + 1, e.j + 1)) == [x] + Swap(u, e)
  {
  }

  /** Exchanges shifted past a fixed head leave that head alone. */
  lemma {:induction false} ExchangedShifted<T>(x: T, s: seq<T>, exchanges: seq<Exchange>)
    requires InRange(exchanges, |s|)
    ensures InRange(Shifted(exchanges), |s| + 1)
    ensures Exchanged([x] + s, Shifted(exchanges)) == [x] + Exchanged(s, exchanges)
    decreases |exchanges|
  {
    if exchanges != [] {
      var m := |exchanges| - 1;
      var shifted := Shifted(exchanges);
      assert shifted[..m] == Shifted(exchanges[..m]);
      ExchangedShifted(x, s, exchanges[..m]);
      var u := Exchanged(s, exchanges[..m]);
      var e := exchanges[m];
      assert shifted[m] == Exchange(e.i + 1, e.j + 1);
      calc {
        Exchanged([x] + s, shifted);
        Swap(Exchanged([x] + s, shifted[..m]), shifted[m]);
        Swap([x] + u, Exchange(e.i + 1, e.j + 1));
        { SwapShifted(x, u, e); }
        [x] + Swap(u, e);
        [x] + Exchanged(s, exchanges);
      }
    }
  }

  /** Bringing t's first element to the front of s leaves tails that are reorderings of each other. */
  lemma FrontSwap<T>(s: seq<T>, t: seq<T>, j: nat)
    requires multiset(s) == multiset(t) && j < |s| && |t| > 0 && s[j] == t[0]
    ensures Swap(s, Exchange(0, j))[0] == t[0]
    ensures multiset(Swap(s, Exchange(0, j))[1..]) == multiset(t[1..])
  {
    var s1 := Swap(s, Exchange(0, j));
    assert s1 == [t[0]] + s1[1..];
    assert t == [t[0]] + t[1..];
    DropSameHead(t[0], s1[1..], t[1..]);
  }

  /** Reorderings that share their first element have tails that are reorderings too. */
  lemma DropSameHead<T>(x: T, u: seq<T>, v: seq<T>)
    requires multiset([x] + u) == multiset([x] + v)
    ensures multiset(u) == multiset(v)
  {
    forall y
      ensures multiset(u)[y] == multiset(v)[y]
    {
      assert multiset([x] + u)[y] == multiset([x])[y] + multiset(u)[y];
      assert multiset([x] + v)[y] == multiset([x])[y] + multiset(v)[y];
    }
  }

  /** One exchange at the front followed by shifted exchanges works on the tail. */
  lemma FrontThenShifted<T>(s: seq<T>, j: nat, rest: seq<Exchange>)
    requires 0 < |s| && j < |s| && InRange(rest, |s| - 1)
    ensures InRange([Exchange(0, j)] + Shifted(rest), |s|)
    ensures var s1 := Swap(s, Exchange(0, j));
            Exchanged(s, [Exchange(0, j)] + Shifted(rest)) == [s1[0]] + Exchanged(s1[1..], rest)
  {
    var first := Exchange(0, j);
    var s1 := Swap(s, first);
    assert s1 == [s1[0]] + s1[1..];
    ExchangedShifted(s1[0], s1[1..], rest);
    assert [first][..0] == [];
    assert Exchanged(s, [first]) == s1;
    ExchangedConcat(s, [first], Shifted(rest));
  }

  /** Any reordering of s is what some in-range exchanges make of s. */
  lemma {:induction false} EveryReorderingIsExchanged<T>(s: seq<T>, t: seq<T>)
    returns (exchanges: seq<Exchange>)
    requires multiset(s) == multiset(t)
    ensures InRange(exchanges, |s|) && Exchanged(s, exchanges) == t
    decreases |s|
  {
    assert |s| == |t| by {
      assert |s| == |multiset(s)| && |t| == |multiset(t)|;
    }
    if |s| == 0 {
      exchanges := [];
    } else {
      assert t[0] in multiset(t);
      assert t[0] in s;
      var j :| 0 <= j < |s| && s[j] == t[0];
      FrontSwap(s, t, j);
      var s1 := Swap(s, Exchange(0, j));
      var rest := EveryReorderingIsExchanged(s1[1..], t[1..]);
      FrontThenShifted(s, j, rest);
      exchanges := [Exchange(0, j)] + Shifted(rest);
      assert t == [t[0]] + t[1..];
    }
  }

  /**
    The in-place sort of the bank: rearranges `a` by a sequence of
    exchanges whose composition is the order the sort returns.
   */
  method RandomSort<T>(a: array<T>, exchanges: seq<Exchange>)
    requires InRange(exchanges, a.Length)
    modifies a
    ensures a[..] == Exchanged(old(a[..]), exchanges)
    ensures multiset(a[..]) == multiset(old(a[..]))
  {
    for k := 0 to |exchanges|
      invariant a[..] == Exchanged(old(a[..]), exchanges[..k])
    {
      var e := exchanges[k];
      assert exchanges[..k + 1][..k] == exchanges[..k];
      a[e.i], a[e.j] := a[e.j], a[e.i];
    }
    assert exchanges[..|exchanges|] == exchanges;
  }
}
