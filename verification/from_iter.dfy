/** `FromIterator for Dictionary` (src/lib.rs): a dictionary built from a
    sequence of (key, value) pairs by inserting them in order into a fresh one.

    Because `insert` drops a value whose key already has a node, the result is
    not "the last value wins" nor "one entry per distinct key".  `Expected` says
    what it is without mentioning the trie: a key gets its value from the first
    pair whose key extends it, provided that pair's key is the key itself. */
module Build {
  import opened Types
  import opened Dict
  import Insertion

  /** The `for` loop: insert each pair, in order, into `d`. */
  function FoldInsert<K(==), V>(d: Dictionary<K, V>, pairs: seq<(seq<K>, V)>): (r: Dictionary<K, V>)
    requires Valid(d)
    ensures Valid(r)
    ensures Len(d) <= Len(r) <= Len(d) + |pairs|
    decreases |pairs|
  {
    if |pairs| == 0 then d
    else
      Insertion.InsertGet(d, pairs[0].0, pairs[0].1, []);
      FoldInsert(Insert(d, pairs[0].0, pairs[0].1), pairs[1..])
  }

  /** `from_iter`: start from `Self::default()` and insert every pair. */
  function FromIter<K(==), V>(pairs: seq<(seq<K>, V)>): (r: Dictionary<K, V>)
    ensures Valid(r)
    ensures Len(r) <= |pairs|
    ensures pairs == [] ==> IsEmpty(r) && Len(r) == 0
  {
    FoldInsert(Default(), pairs)
  }

  /** The loop of `from_iter` as written. */
  method FromIterLoop<K(==), V>(pairs: seq<(seq<K>, V)>) returns (d: Dictionary<K, V>)
    ensures d == FromIter(pairs)
  {
    d := Default();
    for i := 0 to |pairs|
      invariant Valid(d)
      invariant FoldInsert(d, pairs[i..]) == FromIter(pairs)
    {
      Insertion.InsertGet(d, pairs[i].0, pairs[i].1, []);
      assert pairs[i..][1..] == pairs[i + 1..];
      d := Insert(d, pairs[i].0, pairs[i].1);
    }
  }

  /** Building from one more pair is inserting it into what the others built. */
  lemma {:induction false} FoldInsertSnoc<K, V>(d: Dictionary<K, V>, pairs: seq<(seq<K>, V)>, p: (seq<K>, V))
    requires Valid(d)
    ensures FoldInsert(d, pairs + [p]) == Insert(FoldInsert(d, pairs), p.0, p.1)
    decreases |pairs|
  {
    if |pairs| == 0 {
      assert ([] + [p])[1..] == [];
    } else {
      Insertion.InsertGet(d, pairs[0].0, pairs[0].1, []);
      assert (pairs + [p])[1..] == pairs[1..] + [p];
      FoldInsertSnoc(Insert(d, pairs[0].0, pairs[0].1), pairs[1..], p);
    }
  }

  // ----------------------------------------------------------------------
  // What the built dictionary holds
  // ----------------------------------------------------------------------

  /** The position of the first pair whose key extends `w`, if any. */
  function FirstCover<K(==), V>(pairs: seq<(seq<K>, V)>, w: seq<K>): (r: Option<nat>)
    ensures r.Some? ==> r.value < |pairs| && w <= pairs[r.value].0
    ensures r.Some? ==> forall j :: 0 <= j < r.value ==> !(w <= pairs[j].0)
    ensures r.None? ==> forall j :: 0 <= j < |pairs| ==> !(w <= pairs[j].0)
    decreases |pairs|
  {
    if |pairs| == 0 then None
    else
      var init := pairs[..|pairs| - 1];
      assert forall j :: 0 <= j < |init| ==> init[j] == pairs[j];
      match FirstCover(init, w)
      case Some(j) => Some(j)
      case None => if w <= pairs[|pairs| - 1].0 then Some(|pairs| - 1) else None
  }

  /** What `get` answers after building from `pairs`, stated without the trie:
      the empty key has nothing; otherwise the first pair whose key extends `w`
      decides, and `w` has a value only if that pair's key is `w` itself. */
  function Expected<K(==), V>(pairs: seq<(seq<K>, V)>, w: seq<K>): Option<V> {
    if w == [] then None
    else match FirstCover(pairs, w)
      case None => None
      case Some(j) => if pairs[j].0 == w then Some(pairs[j].1) else None
  }

  /** How many pairs create an entry: those with a non-empty key that no
      earlier pair's key extends. */
  function CountFresh<K(==), V>(pairs: seq<(seq<K>, V)>): (r: nat)
    ensures r <= |pairs|
    decreases |pairs|
  {
    if |pairs| == 0 then 0
    else
      var init, p := pairs[..|pairs| - 1], pairs[|pairs| - 1];
      CountFresh(init) + if p.0 != [] && FirstCover(init, p.0).None? then 1 else 0
  }

  /** One more pair can only provide a cover where there was none. */
  lemma FirstCoverSnoc<K, V>(pairs: seq<(seq<K>, V)>, p: (seq<K>, V), w: seq<K>)
    ensures FirstCover(pairs + [p], w) ==
              if FirstCover(pairs, w).Some? then FirstCover(pairs, w)
              else if w <= p.0 then Some(|pairs|) else None
  {
    assert (pairs + [p])[..|pairs|] == pairs;
  }

  /** The dictionary built from `pairs`: a non-empty key has a node exactly
      when some pair's key extends it, `get` answers as `Expected`, and `len`
      counts the pairs that created an entry. */
  lemma {:induction false} FromIterContents<K, V>(pairs: seq<(seq<K>, V)>, w: seq<K>)
    ensures FindNode(FromIter(pairs), w).Some? <==> w != [] && FirstCover(pairs, w).Some?
    ensures Dict.Get(FromIter(pairs), w) == Expected(pairs, w)
    ensures Len(FromIter(pairs)) == CountFresh(pairs)
    decreases |pairs|
  {
    if |pairs| > 0 {
      var ps, p := pairs[..|pairs| - 1], pairs[|pairs| - 1];
      assert pairs == ps + [p];
      var d := FromIter(ps);
      FoldInsertSnoc(Default(), ps, p);
      FromIterContents(ps, w);
      FromIterContents(ps, p.0);
      FirstCoverSnoc(ps, p, w);
      Insertion.InsertNodes(d, p.0, p.1, w);
      Insertion.InsertGet(d, p.0, p.1, w);
    }
  }

  /** A pair with a non-empty key that no earlier pair's key extends is found
      with its own value. */
  lemma FirstPairWins<K, V>(pairs: seq<(seq<K>, V)>, i: nat)
    requires i < |pairs| && pairs[i].0 != []
    requires forall j :: 0 <= j < i ==> !(pairs[i].0 <= pairs[j].0)
    ensures Dict.Get(FromIter(pairs), pairs[i].0) == Some(pairs[i].1)
  {
    FromIterContents(pairs, pairs[i].0);
  }

  /** A key no pair was given has no value, even when it is a prefix of
      some pair's key. */
  lemma NeverInsertedIsAbsent<K, V>(pairs: seq<(seq<K>, V)>, w: seq<K>)
    requires forall j :: 0 <= j < |pairs| ==> pairs[j].0 != w
    ensures Dict.Get(FromIter(pairs), w) == None
  {
    FromIterContents(pairs, w);
  }

  /** With no key a prefix of an earlier pair's key (so no key repeats), every
      pair creates its own entry. */
  lemma PrefixFreeLen<K, V>(pairs: seq<(seq<K>, V)>)
    requires forall i :: 0 <= i < |pairs| ==> pairs[i].0 != []
    requires forall i, j :: 0 <= j < i < |pairs| ==> !(pairs[i].0 <= pairs[j].0)
    ensures Len(FromIter(pairs)) == |pairs|
  {
    FromIterContents(pairs, []);
    CountFreshAll(pairs);
  }

  /** Under the same conditions every pair counts as fresh. */
  lemma {:induction false} CountFreshAll<K, V>(pairs: seq<(seq<K>, V)>)
    requires forall i :: 0 <= i < |pairs| ==> pairs[i].0 != []
    requires forall i, j :: 0 <= j < i < |pairs| ==> !(pairs[i].0 <= pairs[j].0)
    ensures CountFresh(pairs) == |pairs|
    decreases |pairs|
  {
    if |pairs| > 0 {
      var init := pairs[..|pairs| - 1];
      assert forall j :: 0 <= j < |init| ==> init[j] == pairs[j];
      CountFreshAll(init);
    }
  }
}
