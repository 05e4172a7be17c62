/**
 * Ruby's Hash as the step template uses it: an insertion-ordered dictionary.
 * It is kept as a list of key/value pairs with distinct keys; iteration
 * visits the pairs in list order. This is the Hash of Ruby 1.9 and later;
 * the iteration order of a Ruby 1.8 Hash is unspecified.
 */
module OrderedHash {
  import opened Wrappers

  type Hash<K, V> = seq<(K, V)>

  /** No key appears twice: the invariant of every Ruby Hash. */
  predicate KeysDistinct<K(==), V>(h: Hash<K, V>)
  {
    forall i, j :: 0 <= i < j < |h| ==> h[i].0 != h[j].0
  }

  /** `h[k]`: the value stored under `k`, or nil. */
  function Lookup<K(==), V>(h: Hash<K, V>, k: K): Option<V>
  {
    if h == [] then None
    else if h[0].0 == k then Some(h[0].1)
    else Lookup(h[1..], k)
  }

  /**
   * `h[k] = v`: an existing key keeps its position and takes the new value;
   * a new key is appended at the end.
   */
  function Store<K(==), V>(h: Hash<K, V>, k: K, v: V): (r: Hash<K, V>)
    ensures (forall i :: 0 <= i < |h| ==> h[i].0 != k) ==> r == h + [(k, v)]
    ensures forall i :: 0 <= i < |h| && h[i].0 == k && (forall j :: 0 <= j < i ==> h[j].0 != k) ==>
      r == h[i := (k, v)]
    ensures KeysDistinct(h) ==> KeysDistinct(r)
  {
    if h == [] then [(k, v)]
    else if h[0].0 == k then [(k, v)] + h[1..]
    else
      var rest := Store(h[1..], k, v);
      assert forall i :: 1 <= i < |h| ==> h[i] == h[1..][i - 1];
      [h[0]] + rest
  }

  /** The hash built by storing each pair in turn into an empty hash. */
  function FromPairs<K(==), V>(ps: seq<(K, V)>): (r: Hash<K, V>)
    ensures KeysDistinct(r)
  {
    if ps == [] then []
    else Store(FromPairs(ps[..|ps| - 1]), ps[|ps| - 1].0, ps[|ps| - 1].1)
  }

  /** The keys of a list of pairs. */
  function Keys<K, V>(h: seq<(K, V)>): set<K>
  {
    set i | 0 <= i < |h| :: h[i].0
  }

  /** The keys of a non-empty list: the first pair's key and the keys of the rest. */
  lemma KeysCons<K, V>(h: seq<(K, V)>)
    requires h != []
    ensures Keys(h) == {h[0].0} + Keys(h[1..])
  {
    forall x | x in Keys(h) ensures x in {h[0].0} + Keys(h[1..]) {
      var i :| 0 <= i < |h| && h[i].0 == x;
      if i > 0 { assert h[1..][i - 1].0 == x; }
    }
    forall x | x in Keys(h[1..]) ensures x in Keys(h) {
      var i :| 0 <= i < |h[1..]| && h[1..][i].0 == x;
      assert h[i + 1].0 == x;
    }
    assert h[0].0 in Keys(h);
  }

  /** Storing adds its key to the hash's keys and no other. */
  lemma {:induction false} KeysStore<K, V>(h: Hash<K, V>, k: K, v: V)
    ensures Keys(Store(h, k, v)) == Keys(h) + {k}
  {
    var r := Store(h, k, v);
    if h == [] {
      KeysCons(r);
    } else if h[0].0 != k {
      KeysStore(h[1..], k, v);
      KeysCons(h);
      KeysCons(r);
      assert r[1..] == Store(h[1..], k, v);
    } else {
      KeysCons(h);
      KeysCons(r);
      assert r[1..] == h[1..];
    }
  }

  /** The keys of a non-empty list: the keys of all but the last pair, and the last pair's key. */
  lemma KeysSnoc<K, V>(ps: seq<(K, V)>)
    requires ps != []
    ensures Keys(ps) == Keys(ps[..|ps| - 1]) + {ps[|ps| - 1].0}
  {
    var n := |ps| - 1;
    forall x | x in Keys(ps) ensures x in Keys(ps[..n]) + {ps[n].0} {
      var i :| 0 <= i < |ps| && ps[i].0 == x;
      if i < n { assert ps[..n][i].0 == x; }
    }
  }

  /** The hash built from a list of pairs has exactly the keys of those pairs. */
  lemma {:induction false} KeysFromPairs<K, V>(ps: seq<(K, V)>)
    ensures Keys(FromPairs(ps)) == Keys(ps)
  {
    if ps != [] {
      var n := |ps| - 1;
      KeysFromPairs(ps[..n]);
      KeysStore(FromPairs(ps[..n]), ps[n].0, ps[n].1);
      KeysSnoc(ps);
    }
  }

  /** The value of the last pair with key `k`: the one a later store leaves in place. */
  function LastValue<K(==), V>(ps: seq<(K, V)>, k: K): Option<V>
  {
    if ps == [] then None
    else if ps[|ps| - 1].0 == k then Some(ps[|ps| - 1].1)
    else LastValue(ps[..|ps| - 1], k)
  }

  /** When the keys are already distinct, building the hash keeps the pairs as they are. */
  lemma {:induction false} FromDistinctPairs<K, V>(ps: seq<(K, V)>)
    requires KeysDistinct(ps)
    ensures FromPairs(ps) == ps
  {
    if ps != [] {
      var init := ps[..|ps| - 1];
      FromDistinctPairs(init);
      assert ps == init + [ps[|ps| - 1]];
    }
  }

  /** Looking a key up after storing it yields the stored value; other keys are unaffected. */
  lemma {:induction false} LookupStore<K, V>(h: Hash<K, V>, k: K, v: V, k': K)
    ensures Lookup(Store(h, k, v), k') == if k' == k then Some(v) else Lookup(h, k')
  {
    if h != [] && h[0].0 != k {
      LookupStore(h[1..], k, v, k');
    }
  }

  /** A repeated key keeps the value of its last pair. */
  lemma {:induction false} LookupFromPairs<K, V>(ps: seq<(K, V)>, k: K)
    ensures Lookup(FromPairs(ps), k) == LastValue(ps, k)
  {
    if ps != [] {
      var init := ps[..|ps| - 1];
      LookupFromPairs(init, k);
      LookupStore(FromPairs(init), ps[|ps| - 1].0, ps[|ps| - 1].1, k);
    }
  }
}
