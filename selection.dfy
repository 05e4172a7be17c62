/**
 * Ruby's `select` over a sequence whose keep/drop decision for each
 * position is already known: the kept elements, in their original order.
 */
module Selection {
  /** The elements of `xs` whose flag is set, in order. */
  function Select<T>(flags: seq<bool>, xs: seq<T>): (r: seq<T>)
    requires |flags| == |xs|
    ensures |r| <= |xs|
  {
    if xs == [] then []
    else
      var n := |xs| - 1;
      Select(flags[..n], xs[..n]) + (if flags[n] then [xs[n]] else [])
  }

  /** The positions whose flag is set, in increasing order. */
  function Positions(flags: seq<bool>): (r: seq<nat>)
    ensures forall k :: 0 <= k < |r| ==> r[k] < |flags| && flags[r[k]]
    ensures forall k, l :: 0 <= k < l < |r| ==> r[k] < r[l]
    ensures forall i :: 0 <= i < |flags| && flags[i] ==> i in r
  {
    if flags == [] then []
    else
      var n := |flags| - 1;
      var init := Positions(flags[..n]);
      assert forall k :: 0 <= k < |init| ==> flags[..n][init[k]] == flags[init[k]];
      assert forall i :: 0 <= i < n && flags[i] ==> i in init by {
        forall i | 0 <= i < n && flags[i] ensures i in init {
          assert flags[..n][i];
        }
      }
      if flags[n] then
        var r := init + [n];
        assert forall k :: 0 <= k < |init| ==> r[k] == init[k];
        r
      else
        init
  }

  /** The selected elements are exactly the elements at the flagged positions, in order. */
  lemma {:induction false} SelectAtPositions<T>(flags: seq<bool>, xs: seq<T>)
    requires |flags| == |xs|
    ensures |Select(flags, xs)| == |Positions(flags)|
    ensures forall k :: 0 <= k < |Select(flags, xs)| ==> Select(flags, xs)[k] == xs[Positions(flags)[k]]
  {
    if xs != [] {
      var n := |xs| - 1;
      SelectAtPositions(flags[..n], xs[..n]);
      var s, p := Select(flags[..n], xs[..n]), Positions(flags[..n]);
      var S, P := Select(flags, xs), Positions(flags);
      assert S == s + (if flags[n] then [xs[n]] else []);
      assert P == p + (if flags[n] then [n] else []);
      forall k | 0 <= k < |S| ensures S[k] == xs[P[k]] {
        if k < |s| {
          assert S[k] == s[k] && P[k] == p[k];
          assert xs[..n][p[k]] == xs[p[k]];
        }
      }
    }
  }

  /** With no flag set, no position is kept. */
  lemma {:induction false} NoPositions(flags: seq<bool>)
    requires forall j :: 0 <= j < |flags| ==> !flags[j]
    ensures Positions(flags) == []
  {
    if flags != [] {
      var n := |flags| - 1;
      assert forall j :: 0 <= j < n ==> flags[..n][j] == flags[j];
      NoPositions(flags[..n]);
    }
  }

  /** With exactly one flag set, that flag's position is the only one kept. */
  lemma {:induction false} SolePosition(flags: seq<bool>, i: nat)
    requires i < |flags| && flags[i]
    requires forall j :: 0 <= j < |flags| && j != i ==> !flags[j]
    ensures Positions(flags) == [i]
  {
    var n := |flags| - 1;
    assert forall j :: 0 <= j < n ==> flags[..n][j] == flags[j];
    if n == i {
      NoPositions(flags[..n]);
    } else {
      SolePosition(flags[..n], i);
    }
  }

  /** With no flag set, nothing is selected. */
  lemma {:induction false} SelectNone<T>(flags: seq<bool>, xs: seq<T>)
    requires |flags| == |xs|
    requires forall i :: 0 <= i < |flags| ==> !flags[i]
    ensures Select(flags, xs) == []
  {
    if xs != [] {
      var n := |xs| - 1;
      assert forall i :: 0 <= i < n ==> flags[..n][i] == flags[i];
      SelectNone(flags[..n], xs[..n]);
    }
  }

  /** Selecting a longer prefix adds the next element exactly when its flag is set. */
  lemma SelectPrefix<T>(flags: seq<bool>, xs: seq<T>, i: nat)
    requires |flags| == |xs| && i < |xs|
    ensures Select(flags[..i + 1], xs[..i + 1]) == Select(flags[..i], xs[..i]) + (if flags[i] then [xs[i]] else [])
  {
    assert flags[..i + 1][..i] == flags[..i];
    assert xs[..i + 1][..i] == xs[..i];
  }
}
