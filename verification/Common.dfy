/** Small vocabulary shared by the models. */
module Common {

  datatype Option<+T> = None | Some(value: T)

  datatype Result<+T, +E> = Ok(value: T) | Err(error: E)

  /** No value occurs at two positions. */
  ghost predicate Distinct<T(!new)>(s: seq<T>) {
    forall i, j :: 0 <= i < j < |s| ==> s[i] != s[j]
  }

  ghost function Elements<T>(s: seq<T>): set<T> {
    set x | x in s
  }

  function Min(a: nat, b: nat): nat {
    if a < b then a else b
  }

  lemma SubsetSize<T>(a: set<T>, b: set<T>)
    requires a <= b
    ensures |a| <= |b| && |b - a| == |b| - |a|
    ensures |a| == |b| ==> a == b
  {
    assert b == a + (b - a);
  }

  /** `which` lists, in order, the indices below `n` that `keep` holds of. */
  ghost predicate IndicesOf(which: seq<nat>, n: nat, keep: nat -> bool) {
    && (forall i, j | 0 <= i < j < |which| :: which[i] < which[j])
    && (forall k: nat :: k in which <==> k < n && keep(k))
  }

  lemma NextIndex(which: seq<nat>, n: nat, keep: nat -> bool)
    requires IndicesOf(which, n, keep)
    ensures IndicesOf(if keep(n) then which + [n] else which, n + 1, keep)
  {
    var next := which + [n];
    forall i | 0 <= i < |which|
      ensures which[i] < n
    {
      assert which[i] in which;
    }
    assert forall k: nat :: k in next <==> k in which || k == n;
  }

  /** `picked` is what `all` holds at the indices `which`. */
  ghost predicate Picks<T(!new)>(picked: seq<T>, all: seq<T>, which: seq<nat>) {
    |picked| == |which| && forall i | 0 <= i < |which| :: which[i] < |all| && picked[i] == all[which[i]]
  }

  /** `kept` is, in order, what `all` holds at exactly the indices below `n` that `keep` holds of. */
  ghost predicate Filters<T(!new)>(kept: seq<T>, all: seq<T>, which: seq<nat>, n: nat, keep: nat -> bool) {
    IndicesOf(which, n, keep) && Picks(kept, all, which)
  }

  lemma FilterNext<T(!new)>(kept: seq<T>, more: seq<T>, all: seq<T>, which: seq<nat>, n: nat, keep: nat -> bool)
    returns (next: seq<nat>)
    requires Filters(kept, all, which, n, keep) && n < |all|
    requires more == if keep(n) then kept + [all[n]] else kept
    ensures Filters(more, all, next, n + 1, keep)
  {
    NextIndex(which, n, keep);
    next := which;
    if keep(n) {
      PickNext(kept, all, which, n);
      next := which + [n];
    }
  }

  lemma PickNext<T(!new)>(picked: seq<T>, all: seq<T>, which: seq<nat>, n: nat)
    requires Picks(picked, all, which) && n < |all|
    ensures Picks(picked + [all[n]], all, which + [n])
  {
    forall i | 0 <= i < |which + [n]|
      ensures (which + [n])[i] < |all| && (picked + [all[n]])[i] == all[(which + [n])[i]]
    {
      if i < |which| {
        assert picked[i] == all[which[i]];
      }
    }
  }

  /** The entries that satisfy `keep`, in order. */
  ghost function KeepWhere<T>(all: seq<T>, keep: T -> bool): seq<T> {
    if all == [] then []
    else
      var before, last := KeepWhere(all[..|all| - 1], keep), all[|all| - 1];
      if keep(last) then before + [last] else before
  }

  lemma KeepNext<T>(all: seq<T>, keep: T -> bool, k: nat)
    requires k < |all|
    ensures
      var before := KeepWhere(all[..k], keep);
      KeepWhere(all[..k + 1], keep) == if keep(all[k]) then before + [all[k]] else before
  {
    assert all[..k + 1][..k] == all[..k];
  }

  ghost function KeptAt<T>(all: seq<T>, keep: T -> bool): nat -> bool {
    (k: nat) => k < |all| && keep(all[k])
  }

  lemma {:induction false} KeepWhereExactly<T(!new)>(all: seq<T>, keep: T -> bool, n: nat) returns (which: seq<nat>)
    requires n <= |all|
    ensures Filters(KeepWhere(all[..n], keep), all, which, n, KeptAt(all, keep))
    decreases n
  {
    if n == 0 {
      which := [];
    } else {
      which := KeepWhereExactly(all, keep, n - 1);
      KeepNext(all, keep, n - 1);
      var before := KeepWhere(all[..n - 1], keep);
      which := FilterNext(before, KeepWhere(all[..n], keep), all, which, n - 1, KeptAt(all, keep));
    }
  }
}
