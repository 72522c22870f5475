/** Facts about sequences that several models share. */
module Collections {

  ghost predicate Distinct<T>(s: seq<T>) {
    forall i, j :: 0 <= i < j < |s| ==> s[i] != s[j]
  }

  function Elements<T>(s: seq<T>): set<T> {
    set x | x in s
  }

  /** `places` lists exactly the positions in `wanted`, in ascending order. */
  ghost predicate Lists(places: seq<nat>, wanted: set<nat>) {
    && (forall i, j :: 0 <= i < j < |places| ==> places[i] < places[j])
    && (forall p :: p in places <==> p in wanted)
  }

  lemma ListsOneMore(places: seq<nat>, wanted: set<nat>, n: nat)
    requires Lists(places, wanted) && forall p :: p in wanted ==> p < n
    ensures Lists(places + [n], wanted + {n})
  {
    forall i, j | 0 <= i < j < |places + [n]|
      ensures (places + [n])[i] < (places + [n])[j]
    {
      assert (places + [n])[i] in places;
    }
  }

  lemma DistinctConcat<T>(xs: seq<T>, ys: seq<T>)
    requires Distinct(xs) && Distinct(ys) && forall x :: x in xs ==> x !in ys
    ensures Distinct(xs + ys)
  {
    forall i, j | 0 <= i < j < |xs + ys|
      ensures (xs + ys)[i] != (xs + ys)[j]
    {
      if i < |xs| <= j {
        assert xs[i] in xs && ys[j - |xs|] in ys;
      }
    }
  }
}
