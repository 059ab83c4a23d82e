/**
 The partial shuffle of GetAddr_ (src/addrman.cpp): position by position, one of
 the entries not yet drawn is exchanged with the one in its place. Every order
 comes from exactly one sequence of draws.
 */
module AddrDraws {
  import opened Collections

  /** Where draw k leads: to itself or a later position. */
  function DrawnAt(size: nat, draws: nat -> nat, k: nat): (j: nat)
    requires k < size
    ensures k <= j < size
  {
    draws(k) % (size - k) + k
  }

  /** The order after k draws. */
  function Drawn(q: seq<int>, draws: nat -> nat, k: nat): (r: seq<int>)
    requires k <= |q|
    ensures |r| == |q|
  {
    if k == 0 then q
    else
      var r, j := Drawn(q, draws, k - 1), DrawnAt(|q|, draws, k - 1);
      r[k - 1 := r[j]][j := r[k - 1]]
  }

  lemma DrawnNone(q: seq<int>, draws: nat -> nat)
    ensures Drawn(q, draws, 0) == q
  {
  }

  lemma DrawnNext(q: seq<int>, draws: nat -> nat, k: nat)
    requires k < |q|
    ensures
      var r, j := Drawn(q, draws, k), DrawnAt(|q|, draws, k);
      Drawn(q, draws, k + 1) == r[k := r[j]][j := r[k]]
  {
  }

  lemma {:induction false} DrawnSame(q: seq<int>, draws: nat -> nat, k: nat)
    requires k <= |q|
    ensures multiset(Drawn(q, draws, k)) == multiset(q)
  {
    hide DrawnAt, Drawn;
    if k == 0 {
      DrawnNone(q, draws);
    } else {
      DrawnSame(q, draws, k - 1);
      DrawnNext(q, draws, k - 1);
      SwapSame(Drawn(q, draws, k - 1), k - 1, DrawnAt(|q|, draws, k - 1));
    }
  }

  lemma SwapSame(r: seq<int>, i: nat, j: nat)
    requires i < |r| && j < |r|
    ensures multiset(r[i := r[j]][j := r[i]]) == multiset(r)
  {
  }

  /** Later draws leave the earlier positions alone. */
  lemma DrawnPrefix(q: seq<int>, draws: nat -> nat, k: nat)
    requires k < |q|
    ensures Drawn(q, draws, k + 1)[..k] == Drawn(q, draws, k)[..k]
    ensures Drawn(q, draws, k + 1)[k] == Drawn(q, draws, k)[DrawnAt(|q|, draws, k)]
  {
    hide DrawnAt;
    DrawnNext(q, draws, k);
  }

  lemma {:induction false} DrawnAlike(q: seq<int>, draws: nat -> nat, other: nat -> nat, k: nat)
    requires k <= |q| && forall i: nat :: i < k ==> draws(i) == other(i)
    ensures Drawn(q, draws, k) == Drawn(q, other, k)
  {
    if k > 0 {
      DrawnAlike(q, draws, other, k - 1);
    }
  }

  /** Every order of the entries can be drawn. */
  lemma AnyOrder(q: seq<int>, t: seq<int>) returns (draws: nat -> nat)
    requires multiset(q) == multiset(t)
    ensures Drawn(q, draws, |q|) == t
  {
    SameLength(q, t);
    draws := AnyPrefix(q, t, |q|);
    assert Drawn(q, draws, |q|)[..|q|] == Drawn(q, draws, |q|) && t[..|q|] == t;
  }

  lemma SameLength(q: seq<int>, t: seq<int>)
    requires multiset(q) == multiset(t)
    ensures |q| == |t|
  {
    assert |q| == |multiset(q)| && |t| == |multiset(t)|;
  }

  function With(draws: nat -> nat, k: nat, v: nat): (r: nat -> nat)
    ensures r(k) == v && forall i: nat :: i != k ==> r(i) == draws(i)
  {
    (i: nat) => if i == k then v else draws(i)
  }

  lemma {:induction false} AnyPrefix(q: seq<int>, t: seq<int>, k: nat) returns (draws: nat -> nat)
    requires multiset(q) == multiset(t) && k <= |q| == |t|
    ensures Drawn(q, draws, k)[..k] == t[..k]
  {
    if k == 0 {
      draws := (i: nat) => 0;
    } else {
      var before := AnyPrefix(q, t, k - 1);
      draws := OneMore(q, t, before, k - 1);
    }
  }

  lemma OneMore(q: seq<int>, t: seq<int>, before: nat -> nat, k: nat) returns (draws: nat -> nat)
    requires multiset(q) == multiset(t) && k < |q| == |t| && Drawn(q, before, k)[..k] == t[..k]
    ensures Drawn(q, draws, k + 1)[..k + 1] == t[..k + 1]
  {
    hide Drawn, DrawnAt, With;
    DrawnSame(q, before, k);
    var j := Somewhere(Drawn(q, before, k), t, k);
    draws := With(before, k, j - k);
    AimedDraw(q, t, before, draws, k, j);
  }

  lemma AimedDraw(q: seq<int>, t: seq<int>, before: nat -> nat, draws: nat -> nat, k: nat, j: nat)
    requires k < |q| == |t| && k <= j < |q| && (forall i: nat :: i < k ==> draws(i) == before(i)) && draws(k) == j - k
    requires Drawn(q, before, k)[..k] == t[..k] && Drawn(q, before, k)[j] == t[k]
    ensures Drawn(q, draws, k + 1)[..k + 1] == t[..k + 1]
  {
    hide Drawn;
    DrawnAlike(q, draws, before, k);
    DrawnPrefix(q, draws, k);
    assert DrawnAt(|q|, draws, k) == j;
    var u := Drawn(q, draws, k + 1);
    assert u[..k + 1] == u[..k] + [u[k]] && t[..k + 1] == t[..k] + [t[k]];
  }

  /** The next entry wanted is among those not yet drawn. */
  lemma Somewhere(r: seq<int>, t: seq<int>, k: nat) returns (j: nat)
    requires multiset(r) == multiset(t) && k < |r| == |t| && r[..k] == t[..k]
    ensures k <= j < |r| && r[j] == t[k]
  {
    assert r == r[..k] + r[k..] && t == t[..k] + t[k..];
    var x := t[k];
    assert multiset(r)[x] == multiset(r[..k])[x] + multiset(r[k..])[x];
    assert multiset(t)[x] == multiset(t[..k])[x] + multiset(t[k..])[x];
    assert t[k..][0] == x;
    assert x in multiset(r[k..]);
    var i :| 0 <= i < |r[k..]| && r[k..][i] == t[k];
    j := k + i;
  }

  /** And no two sequences of draws give the same first entries, if the entries differ. */
  lemma {:induction false} OneWay(q: seq<int>, draws: nat -> nat, other: nat -> nat, k: nat)
    requires Distinct(q) && k <= |q| && Drawn(q, draws, k)[..k] == Drawn(q, other, k)[..k]
    ensures Drawn(q, draws, k) == Drawn(q, other, k)
    ensures forall i: nat :: i < k ==> DrawnAt(|q|, draws, i) == DrawnAt(|q|, other, i)
  {
    hide DrawnAt, Drawn;
    if k == 0 {
      DrawnNone(q, draws);
      DrawnNone(q, other);
    } else {
      DrawnPrefix(q, draws, k - 1);
      DrawnPrefix(q, other, k - 1);
      assert Drawn(q, draws, k)[..k][..k - 1] == Drawn(q, draws, k)[..k - 1];
      assert Drawn(q, other, k)[..k][..k - 1] == Drawn(q, other, k)[..k - 1];
      OneWay(q, draws, other, k - 1);
      StillDistinct(q, draws, k - 1);
      assert Drawn(q, draws, k)[..k][k - 1] == Drawn(q, other, k)[..k][k - 1];
      DrawnNext(q, draws, k - 1);
      DrawnNext(q, other, k - 1);
    }
  }

  lemma {:induction false} StillDistinct(q: seq<int>, draws: nat -> nat, k: nat)
    requires Distinct(q) && k <= |q|
    ensures Distinct(Drawn(q, draws, k))
  {
    hide DrawnAt;
    if k > 0 {
      StillDistinct(q, draws, k - 1);
    }
  }
}
