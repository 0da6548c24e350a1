/** What `Dictionary::insert` (src/dict.rs) does to the trie.

    An insertion either changes nothing (empty key, or the key's node already
    exists) or, from the first part that has no edge, appends a chain of new
    nodes: valueless ones for all parts but the last, and one holding the value
    for the last.  `Grow` is that chain in closed form; every theorem about
    insertion goes through it. */
module Insertion {
  import opened Types
  import opened Dict

  /** The node values a fresh chain of `m` parts appends. */
  ghost function NewVals<V>(m: nat, v: V): (r: seq<Option<V>>)
    requires m > 0
    ensures |r| == m
    decreases m
  {
    if m == 1 then [Some(v)] else [None] + NewVals(m - 1, v)
  }

  /** Only the last node of a fresh chain holds a value. */
  lemma {:induction false} NewValsAt<V>(m: nat, v: V)
    requires m > 0
    ensures forall t :: 0 <= t < m ==> NewVals(m, v)[t] == if t == m - 1 then Some(v) else None
    ensures CountSome(NewVals(m, v)) == 1
    decreases m
  {
    if m > 1 {
      NewValsAt(m - 1, v);
      assert NewVals(m, v)[1..] == NewVals(m - 1, v);
    }
  }

  /** The edges a fresh chain for `s` appends when it hangs off node `x` and its
      first new node is `b`. */
  ghost function NewEdges<K>(x: NodeIndex, b: NodeIndex, s: seq<K>): (r: seq<Edge<K>>)
    requires |s| > 0
    ensures |r| == |s|
    decreases |s|
  {
    [Edge(x, s[0], b)] + (if |s| == 1 then [] else NewEdges(b, b + 1, s[1..]))
  }

  /** Edge `t` of a fresh chain enters node `b + t` and leaves the node the
      previous edge entered. */
  lemma {:induction false} NewEdgesAt<K>(x: NodeIndex, b: NodeIndex, s: seq<K>)
    requires |s| > 0
    ensures forall t :: 0 <= t < |s| ==> NewEdges(x, b, s)[t] == Edge(if t == 0 then x else b + t - 1, s[t], b + t)
    decreases |s|
  {
    if |s| > 1 {
      NewEdgesAt(b, b + 1, s[1..]);
      assert forall t :: 1 <= t < |s| ==> NewEdges(x, b, s)[t] == NewEdges(b, b + 1, s[1..])[t - 1];
    }
  }

  /** The dictionary after hanging a fresh chain for `s`, ending in `v`, off node `x`. */
  ghost function Grow<K, V>(d: Dictionary<K, V>, x: NodeIndex, s: seq<K>, v: V): Dictionary<K, V>
    requires |s| > 0
  {
    Dictionary(d.vals + NewVals(|s|, v), d.edges + NewEdges(x, |d.vals|, s))
  }

  // ----------------------------------------------------------------------
  // The shape of an insertion
  // ----------------------------------------------------------------------

  /** Once a part has no edge, the loop creates one node per remaining part. */
  lemma {:induction false} InsertFromMiss<K, V>(d: Dictionary<K, V>, curr: NodeIndex, key: seq<K>, v: V)
    requires EdgesInRange(d.edges, |d.vals|) && curr < |d.vals|
    requires |key| > 0 && Find(d.edges, curr, key[0]).None?
    ensures InsertFrom(d, curr, key, v) == Grow(d, curr, key, v)
    decreases |key|
  {
    var b := |d.vals|;
    if |key| > 1 {
      var d1 := AddChild(d, curr, key[0], None);
      assert forall i :: 0 <= i < |d1.edges| ==> d1.edges[i].src != b;
      FindNone(d1.edges, b, key[1..][0]);
      InsertFromMiss(d1, b, key[1..], v);
      GrowStep(d, curr, key, v);
    } else {
      assert NewVals(1, v) == [Some(v)];
      assert NewEdges(curr, b, key) == [Edge(curr, key[0], b)];
    }
  }

  /** A chain is its first node and edge followed by the chain for the rest. */
  lemma GrowStep<K, V>(d: Dictionary<K, V>, curr: NodeIndex, key: seq<K>, v: V)
    requires |key| > 1
    ensures Grow(AddChild(d, curr, key[0], None), |d.vals|, key[1..], v) == Grow(d, curr, key, v)
  {
    var b := |d.vals|;
    assert NewVals(|key|, v) == [None] + NewVals(|key| - 1, v);
    assert NewEdges(curr, b, key) == [Edge(curr, key[0], b)] + NewEdges(b, b + 1, key[1..]);
    ConcatAssoc(d.vals, [None], NewVals(|key| - 1, v));
    ConcatAssoc(d.edges, [Edge(curr, key[0], b)], NewEdges(b, b + 1, key[1..]));
  }

  /** The length of the longest prefix of `key` that can be walked from `n`,
      for a key that cannot be walked in full. */
  ghost function Frontier<K>(es: seq<Edge<K>>, count: nat, n: NodeIndex, key: seq<K>): (j: nat)
    requires EdgesInRange(es, count) && n < count && Walk(es, n, key).None?
    ensures j < |key|
    ensures Walk(es, n, key[..j]).Some? && Walk(es, n, key[..j]).value < count
    ensures Find(es, Walk(es, n, key[..j]).value, key[j]).None?
    decreases |key|
  {
    match Find(es, n, key[0])
    case None => 0
    case Some(c) =>
      var j := Frontier(es, count, c, key[1..]);
      assert key[..j + 1][0] == key[0] && key[..j + 1][1..] == key[1..][..j];
      j + 1
  }

  /** An insertion that cannot walk its whole key grows a chain from the frontier. */
  lemma {:induction false} InsertFromSplit<K, V>(d: Dictionary<K, V>, n: NodeIndex, key: seq<K>, v: V)
    requires EdgesInRange(d.edges, |d.vals|) && n < |d.vals| && Walk(d.edges, n, key).None?
    ensures var j := Frontier(d.edges, |d.vals|, n, key);
            InsertFrom(d, n, key, v) == Grow(d, Walk(d.edges, n, key[..j]).value, key[j..], v)
    decreases |key|
  {
    match Find(d.edges, n, key[0])
    case None =>
      assert key[..0] == [] && key[0..] == key;
      InsertFromMiss(d, n, key, v);
    case Some(c) =>
      var j := Frontier(d.edges, |d.vals|, c, key[1..]);
      InsertFromSplit(d, c, key[1..], v);
      assert Frontier(d.edges, |d.vals|, n, key) == j + 1;
      assert key[1..][j..] == key[j + 1..];
      assert key[..j + 1][1..] == key[1..][..j];
      assert Walk(d.edges, n, key[..j + 1]) == Walk(d.edges, c, key[1..][..j]);
      assert InsertFrom(d, n, key, v) == InsertFrom(d, c, key[1..], v);
  }

  /** An insertion whose key can be walked in full writes nothing. */
  lemma {:induction false} InsertFromExisting<K, V>(d: Dictionary<K, V>, n: NodeIndex, key: seq<K>, v: V)
    requires Walk(d.edges, n, key).Some?
    ensures InsertFrom(d, n, key, v) == d
    decreases |key|
  {
    if |key| > 0 {
      InsertFromExisting(d, Find(d.edges, n, key[0]).value, key[1..], v);
    }
  }

  // ----------------------------------------------------------------------
  // Walking a grown dictionary
  // ----------------------------------------------------------------------

  /** `es'` is `es` followed by a chain for `s`: the first new edge leaves `x`,
      edge `t` of the chain enters node `b + t`, and each later edge leaves the
      node the previous one entered. */
  ghost predicate ChainAppended<K>(es: seq<Edge<K>>, es': seq<Edge<K>>, x: NodeIndex, b: NodeIndex, s: seq<K>) {
    && |es'| == |es| + |s|
    && (forall i :: 0 <= i < |es| ==> es'[i] == es[i])
    && (forall i :: |es| <= i < |es'| ==>
          es'[i] == Edge(if i == |es| then x else b + (i - |es|) - 1, s[i - |es|], b + (i - |es|)))
  }

  /** The grown dictionary, entry by entry: old nodes and edges are untouched,
      the new edges form a chain, and only the last new node holds a value. */
  lemma GrowShape<K, V>(d: Dictionary<K, V>, x: NodeIndex, s: seq<K>, v: V)
    requires |s| > 0
    ensures ChainAppended(d.edges, Grow(d, x, s, v).edges, x, |d.vals|, s)
    ensures var d' := Grow(d, x, s, v);
      && |d'.vals| == |d.vals| + |s|
      && (forall n :: 0 <= n < |d.vals| ==> d'.vals[n] == d.vals[n])
      && (forall n :: |d.vals| <= n < |d'.vals| ==> d'.vals[n] == if n == |d'.vals| - 1 then Some(v) else None)
  {
    var d' := Grow(d, x, s, v);
    var ne := NewEdges(x, |d.vals|, s);
    var nv := NewVals(|s|, v);
    NewEdgesAt(x, |d.vals|, s);
    NewValsAt(|s|, v);
    assert forall i :: |d.edges| <= i < |d'.edges| ==> d'.edges[i] == ne[i - |d.edges|];
    assert forall n :: |d.vals| <= n < |d'.vals| ==> d'.vals[n] == nv[n - |d.vals|];
  }

  /** Growing a chain off a node that has no edge for its first part keeps
      every structural invariant. */
  lemma GrowValid<K, V>(d: Dictionary<K, V>, x: NodeIndex, s: seq<K>, v: V)
    requires Valid(d) && x < |d.vals| && |s| > 0 && Find(d.edges, x, s[0]).None?
    ensures Valid(Grow(d, x, s, v))
  {
    GrowShape(d, x, s, v);
    GrowLabelsUnique(d, x, s, v);
    GrowParents(d, x, s, v);
    GrowChildren(d, x, s, v);
  }

  lemma GrowParents<K, V>(d: Dictionary<K, V>, x: NodeIndex, s: seq<K>, v: V)
    requires Valid(d) && |s| > 0
    ensures NonRootHaveParents(Grow(d, x, s, v))
  {
    GrowShape(d, x, s, v);
    var d' := Grow(d, x, s, v);
    var b, e := |d.vals|, |d.edges|;
    forall n | 0 < n < |d'.vals|
      ensures HasParent(d'.edges, n)
    {
      if n < b {
        assert HasParent(d.edges, n);
        var i :| 0 <= i < |d.edges| && d.edges[i].dst == n;
        assert d'.edges[i].dst == n;
      } else {
        assert d'.edges[e + (n - b)].dst == n;
      }
    }
  }

  lemma GrowLabelsUnique<K, V>(d: Dictionary<K, V>, x: NodeIndex, s: seq<K>, v: V)
    requires Valid(d) && x < |d.vals| && |s| > 0 && Find(d.edges, x, s[0]).None?
    ensures LabelsUnique(Grow(d, x, s, v).edges)
  {
    GrowShape(d, x, s, v);
    var d' := Grow(d, x, s, v);
    var e := |d.edges|;
    forall i, j | 0 <= i < j < |d'.edges|
      ensures d'.edges[i].src == d'.edges[j].src ==> d'.edges[i].part != d'.edges[j].part
    {
      if i < e && j == e {
        FindNone(d.edges, x, s[0]);
        assert !Matches(d.edges[i], x, s[0]);
      }
    }
  }

  lemma GrowChildren<K, V>(d: Dictionary<K, V>, x: NodeIndex, s: seq<K>, v: V)
    requires Valid(d) && x < |d.vals| && |s| > 0
    ensures ValuelessHaveChildren(Grow(d, x, s, v))
  {
    GrowShape(d, x, s, v);
    var d' := Grow(d, x, s, v);
    var b, e := |d.vals|, |d.edges|;
    forall n | 0 < n < |d'.vals|
      ensures d'.vals[n].None? ==> HasChild(d'.edges, n)
    {
      if n < b {
        if d.vals[n].None? {
          var i :| 0 <= i < |d.edges| && d.edges[i].src == n;
          assert d'.edges[i].src == n;
        }
      } else if n - b < |s| - 1 {
        assert d'.edges[e + (n - b) + 1].src == n;
      }
    }
  }

  /** Walks of the old dictionary survive in any dictionary that extends its edges. */
  lemma {:induction false} WalkMonotone<K>(es: seq<Edge<K>>, es': seq<Edge<K>>, n: NodeIndex, w: seq<K>)
    requires es <= es' && LabelsUnique(es') && Walk(es, n, w).Some?
    ensures Walk(es', n, w) == Walk(es, n, w)
    decreases |w|
  {
    if |w| > 0 {
      var c := Find(es, n, w[0]).value;
      var i :| 0 <= i < |es| && Matches(es[i], n, w[0]) && es[i].dst == c;
      assert es'[i] == es[i];
      FindMatch(es', n, w[0], i);
      WalkMonotone(es, es', c, w[1..]);
    }
  }

  /** One more part along a known edge. */
  lemma WalkStep<K>(es: seq<Edge<K>>, w: seq<K>, y: NodeIndex, p: K, i: nat)
    requires LabelsUnique(es) && Walk(es, Root, w) == Some(y)
    requires i < |es| && Matches(es[i], y, p)
    ensures Walk(es, Root, w + [p]) == Some(es[i].dst)
  {
    WalkSnoc(es, Root, w, p);
    FindMatch(es, y, p, i);
  }

  lemma SnocSlice<T>(a: seq<T>, s: seq<T>, t: nat)
    requires t < |s|
    ensures a + s[..t + 1] == (a + s[..t]) + [s[t]]
    ensures t == 0 ==> a + s[..1] == a + [s[0]]
  {
    assert s[..t + 1] == s[..t] + [s[t]];
  }

  /** What a walk `w` from the root tells about the chain: ending at an old node
      it was a walk of the old edges; ending at the `t`-th new node it spelled
      `kp` (the key of the attachment node) followed by `s[..t + 1]`. */
  ghost predicate ChainWalk<K>(es: seq<Edge<K>>, es': seq<Edge<K>>, b: NodeIndex, s: seq<K>, kp: seq<K>, w: seq<K>) {
    Walk(es', Root, w).Some? ==>
      var m := Walk(es', Root, w).value;
      && (m < b ==> Walk(es, Root, w) == Some(m))
      && (m >= b ==> m - b < |s| && w == kp + s[..m - b + 1])
  }

  /** The inductive step of `WalkOnChain`: one more part.  The edge taken is
      either an old one, the first edge of the chain, or a later one. */
  lemma ChainWalkStep<K>(es: seq<Edge<K>>, es': seq<Edge<K>>, x: NodeIndex, b: NodeIndex,
                         s: seq<K>, kp: seq<K>, u: seq<K>, p: K)
    requires ChainAppended(es, es', x, b, s) && |s| > 0
    requires 0 < b && EdgesInRange(es, b) && LabelsUnique(es) && SingleParent(es)
    requires Walk(es, Root, kp) == Some(x) && x < b
    requires ChainWalk(es, es', b, s, kp, u)
    ensures ChainWalk(es, es', b, s, kp, u + [p])
  {
    WalkSnoc(es', Root, u, p);
    if Walk(es', Root, u).Some? {
      var y := Walk(es', Root, u).value;
      if Find(es', y, p).Some? {
        var i := FindEdge(es', y, p);
        ChainStepAlong(es, es', x, b, s, kp, u, y, p, i);
      }
    }
  }

  /** `ChainWalkStep` once the edge taken, at position `i`, is known. */
  lemma ChainStepAlong<K>(es: seq<Edge<K>>, es': seq<Edge<K>>, x: NodeIndex, b: NodeIndex,
                          s: seq<K>, kp: seq<K>, u: seq<K>, y: NodeIndex, p: K, i: nat)
    requires ChainAppended(es, es', x, b, s) && |s| > 0
    requires 0 < b && EdgesInRange(es, b) && LabelsUnique(es) && SingleParent(es)
    requires Walk(es, Root, kp) == Some(x) && x < b
    requires ChainWalk(es, es', b, s, kp, u) && Walk(es', Root, u) == Some(y)
    requires i < |es'| && Matches(es'[i], y, p) && Walk(es', Root, u + [p]) == Some(es'[i].dst)
    ensures ChainWalk(es, es', b, s, kp, u + [p])
  {
    var e := |es|;
    ChainEdge(es, es', x, b, s, i);
    if i < e {
      StepOld(es, b, u, y, p, i);
    } else if i == e {
      StepFirst(es, b, s, kp, x, u, p);
    } else {
      SnocSlice(kp, s, i - e);
    }
  }

  /** One edge of an extended edge list, by where it sits. */
  lemma ChainEdge<K>(es: seq<Edge<K>>, es': seq<Edge<K>>, x: NodeIndex, b: NodeIndex, s: seq<K>, i: nat)
    requires ChainAppended(es, es', x, b, s) && i < |es'|
    ensures i < |es| ==> es'[i] == es[i]
    ensures i == |es| ==> es'[i] == Edge(x, s[0], b)
    ensures |es| < i ==> es'[i] == Edge(b + (i - |es|) - 1, s[i - |es|], b + (i - |es|))
  {
  }

  /** Along an old edge, a walk of the old edges goes one part further. */
  lemma StepOld<K>(es: seq<Edge<K>>, b: NodeIndex, u: seq<K>, y: NodeIndex, p: K, i: nat)
    requires EdgesInRange(es, b) && LabelsUnique(es)
    requires i < |es| && Matches(es[i], y, p)
    requires y < b ==> Walk(es, Root, u) == Some(y)
    ensures es[i].dst < b && Walk(es, Root, u + [p]) == Some(es[i].dst)
  {
    WalkStep(es, u, y, p, i);
  }

  /** Only the attachment key reaches the attachment node, so the first chain
      edge extends exactly that key. */
  lemma StepFirst<K>(es: seq<Edge<K>>, b: NodeIndex, s: seq<K>, kp: seq<K>, x: NodeIndex, u: seq<K>, p: K)
    requires EdgesInRange(es, b) && SingleParent(es) && |s| > 0 && p == s[0]
    requires Walk(es, Root, kp) == Some(x) && Walk(es, Root, u) == Some(x)
    ensures u + [p] == kp + s[..1]
  {
    WalkInjective(es, b, u, kp);
    SnocSlice(kp, s, 0);
  }

  /** After a chain is appended, every walk from the root satisfies `ChainWalk`. */
  lemma {:induction false} WalkOnChain<K>(es: seq<Edge<K>>, es': seq<Edge<K>>, x: NodeIndex, b: NodeIndex,
                                          s: seq<K>, kp: seq<K>, w: seq<K>)
    requires ChainAppended(es, es', x, b, s) && |s| > 0
    requires 0 < b && EdgesInRange(es, b) && LabelsUnique(es) && SingleParent(es)
    requires Walk(es, Root, kp) == Some(x) && x < b
    ensures ChainWalk(es, es', b, s, kp, w)
    decreases |w|
  {
    if |w| > 0 {
      var u, p := w[..|w| - 1], w[|w| - 1];
      LastPart(w);
      WalkOnChain(es, es', x, b, s, kp, u);
      ChainWalkStep(es, es', x, b, s, kp, u, p);
    }
  }

  /** After a chain is appended, `kp` followed by `t + 1` chain parts leads to
      the `t`-th new node. */
  lemma {:induction false} WalkAlongChain<K>(es: seq<Edge<K>>, es': seq<Edge<K>>, x: NodeIndex, b: NodeIndex,
                                             s: seq<K>, kp: seq<K>, t: nat)
    requires ChainAppended(es, es', x, b, s) && LabelsUnique(es')
    requires Walk(es', Root, kp) == Some(x) && t < |s|
    ensures Walk(es', Root, kp + s[..t + 1]) == Some(b + t)
    decreases t
  {
    var e := |es|;
    if t == 0 {
      assert es'[e] == Edge(x, s[0], b);
      WalkStep(es', kp, x, s[0], e);
      SnocSlice(kp, s, 0);
    } else {
      WalkAlongChain(es, es', x, b, s, kp, t - 1);
      assert es'[e + t] == Edge(b + t - 1, s[t], b + t);
      WalkStep(es', kp + s[..t], b + t - 1, s[t], e + t);
      SnocSlice(kp, s, t);
    }
  }

  /** A fresh non-empty key, in the terms the walk lemmas need: the key splits
      into a walkable prefix ending at node `x` and a rest `key[j..]` that the
      insertion appends as a chain of new nodes, the last holding the value. */
  lemma InsertShape<K, V>(d: Dictionary<K, V>, key: seq<K>, v: V) returns (j: nat, x: NodeIndex)
    requires Valid(d) && key != [] && FindNode(d, key).None?
    ensures j < |key| && x < |d.vals| && key == key[..j] + key[j..]
    ensures Walk(d.edges, Root, key[..j]) == Some(x)
    ensures var d' := Insert(d, key, v);
      && d.edges <= d'.edges
      && ChainAppended(d.edges, d'.edges, x, |d.vals|, key[j..])
      && LabelsUnique(d'.edges)
      && |d'.vals| == |d.vals| + |key| - j
      && (forall n :: |d.vals| <= n < |d'.vals| ==> d'.vals[n] == if n == |d'.vals| - 1 then Some(v) else None)
  {
    j := Frontier(d.edges, |d.vals|, Root, key);
    var s := key[j..];
    x := Walk(d.edges, Root, key[..j]).value;
    InsertFromSplit(d, Root, key, v);
    SplitAt(key, j);
    GrowShape(d, x, s, v);
    GrowLabelsUnique(d, x, s, v);
  }

  /** A fresh non-empty key keeps every structural invariant and adds one entry. */
  lemma InsertFreshValid<K, V>(d: Dictionary<K, V>, key: seq<K>, v: V)
    requires Valid(d) && key != [] && FindNode(d, key).None?
    ensures Valid(Insert(d, key, v))
    ensures Len(Insert(d, key, v)) == Len(d) + 1
  {
    var j := Frontier(d.edges, |d.vals|, Root, key);
    var s := key[j..];
    var x := Walk(d.edges, Root, key[..j]).value;
    InsertFromSplit(d, Root, key, v);
    GrowValid(d, x, s, v);
    NewValsAt(|s|, v);
    CountSomeAppend(d.vals, NewVals(|s|, v));
  }

  /** After a chain for `s` is hung off the end of the walk of `kp`, every
      non-empty prefix of `kp + s` can be walked, and the whole of it leads to
      the last new node. */
  lemma ChainPrefixes<K>(es: seq<Edge<K>>, es': seq<Edge<K>>, x: NodeIndex, b: NodeIndex,
                         s: seq<K>, kp: seq<K>, w: seq<K>)
    requires ChainAppended(es, es', x, b, s) && es <= es' && LabelsUnique(es')
    requires Walk(es, Root, kp) == Some(x) && |s| > 0 && w <= kp + s
    ensures Walk(es', Root, w).Some?
    ensures w == kp + s ==> Walk(es', Root, w) == Some(b + |s| - 1)
  {
    PrefixOfConcat(kp, s, w);
    WalkMonotone(es, es', Root, kp);
    if |w| <= |kp| {
      WalkPrefix(es, Root, w, kp);
      WalkMonotone(es, es', Root, w);
    } else {
      WalkAlongChain(es, es', x, b, s, kp, |w| - |kp| - 1);
      SplitAt(s, 0);
    }
  }

  // ----------------------------------------------------------------------
  // Theorems about insert
  // ----------------------------------------------------------------------

  /** An empty key, or a key whose node already exists (an identical key, or a
      prefix of an earlier key), leaves the dictionary exactly as it was: the
      value is dropped. */
  lemma InsertUnchanged<K, V>(d: Dictionary<K, V>, key: seq<K>, v: V)
    requires key == [] || FindNode(d, key).Some?
    ensures Insert(d, key, v) == d
  {
    if key != [] {
      InsertFromExisting(d, Root, key, v);
    }
  }

  /** A fresh non-empty key: the structure stays valid, the key now maps to the
      value, and one more entry is counted. */
  lemma InsertFresh<K, V>(d: Dictionary<K, V>, key: seq<K>, v: V)
    requires Valid(d) && key != [] && FindNode(d, key).None?
    ensures Valid(Insert(d, key, v))
    ensures Get(Insert(d, key, v), key) == Some(v)
    ensures Len(Insert(d, key, v)) == Len(d) + 1
  {
    InsertFreshValid(d, key, v);
    InsertFreshGet(d, key, v);
  }

  /** A fresh non-empty key leads to the last node the insertion created,
      which holds the value. */
  lemma InsertFreshGet<K, V>(d: Dictionary<K, V>, key: seq<K>, v: V)
    requires Valid(d) && key != [] && FindNode(d, key).None?
    ensures Get(Insert(d, key, v), key) == Some(v)
  {
    var j, x := InsertShape(d, key, v);
    var d' := Insert(d, key, v);
    ChainPrefixes(d.edges, d'.edges, x, |d.vals|, key[j..], key[..j], key);
    GetAt(d', key, |d'.vals| - 1);
  }

  /** A fresh insertion leaves `get` unchanged for every other key. */
  lemma InsertFreshOthers<K, V>(d: Dictionary<K, V>, key: seq<K>, v: V, other: seq<K>)
    requires Valid(d) && key != [] && FindNode(d, key).None?
    requires other != key
    ensures Get(Insert(d, key, v), other) == Get(d, other)
  {
    var j, x := InsertShape(d, key, v);
    var d' := Insert(d, key, v);
    var kp, s := key[..j], key[j..];
    if other != [] {
      WalkOnChain(d.edges, d'.edges, x, |d.vals|, s, kp, other);
      if Walk(d.edges, Root, other).Some? {
        WalkMonotone(d.edges, d'.edges, Root, other);
      }
      if Walk(d'.edges, Root, other).Some? {
        var m := Walk(d'.edges, Root, other).value;
        if m >= |d.vals| {
          SplitAt(s, 0);
        }
      }
    }
  }

  /** A fresh insertion gives a node to every non-empty prefix of its key. */
  lemma InsertFreshPrefixes<K, V>(d: Dictionary<K, V>, key: seq<K>, v: V, w: seq<K>)
    requires Valid(d) && key != [] && FindNode(d, key).None?
    requires w != [] && w <= key
    ensures FindNode(Insert(d, key, v), w).Some?
  {
    var j, x := InsertShape(d, key, v);
    var d' := Insert(d, key, v);
    ChainPrefixes(d.edges, d'.edges, x, |d.vals|, key[j..], key[..j], w);
  }

  /** A fresh insertion keeps every old node and creates no node off its key. */
  lemma InsertFreshNodes<K, V>(d: Dictionary<K, V>, key: seq<K>, v: V, w: seq<K>)
    requires Valid(d) && key != [] && FindNode(d, key).None? && w != []
    ensures FindNode(d, w).Some? ==> FindNode(Insert(d, key, v), w).Some?
    ensures FindNode(Insert(d, key, v), w).Some? ==> FindNode(d, w).Some? || w <= key
  {
    var j, x := InsertShape(d, key, v);
    var d' := Insert(d, key, v);
    var kp, s := key[..j], key[j..];
    if Walk(d.edges, Root, w).Some? {
      WalkMonotone(d.edges, d'.edges, Root, w);
    }
    WalkOnChain(d.edges, d'.edges, x, |d.vals|, s, kp, w);
    if Walk(d'.edges, Root, w).Some? {
      var m := Walk(d'.edges, Root, w).value;
      if m >= |d.vals| {
        assert kp + s[..m - |d.vals| + 1] <= kp + s;
      }
    }
  }

  /** After any insertion, the keys that have a node are the old ones plus the
      non-empty prefixes of the inserted key. */
  lemma InsertNodes<K, V>(d: Dictionary<K, V>, key: seq<K>, v: V, w: seq<K>)
    requires Valid(d)
    ensures FindNode(Insert(d, key, v), w).Some? <==> FindNode(d, w).Some? || (w != [] && w <= key)
  {
    if key == [] || FindNode(d, key).Some? {
      InsertUnchanged(d, key, v);
      if w != [] && w <= key {
        WalkPrefix(d.edges, Root, w, key);
      }
    } else if w != [] {
      InsertFreshNodes(d, key, v, w);
      if w <= key {
        InsertFreshPrefixes(d, key, v, w);
      }
    }
  }

  /** `get` after any insertion, in one statement: only a fresh non-empty key
      gains a value, and nothing else changes. */
  lemma InsertGet<K, V>(d: Dictionary<K, V>, key: seq<K>, v: V, w: seq<K>)
    requires Valid(d)
    ensures Valid(Insert(d, key, v))
    ensures Get(Insert(d, key, v), w) ==
              if w == key && key != [] && FindNode(d, key).None? then Some(v) else Get(d, w)
    ensures Len(Insert(d, key, v)) == if key != [] && FindNode(d, key).None? then Len(d) + 1 else Len(d)
  {
    if key == [] || FindNode(d, key).Some? {
      InsertUnchanged(d, key, v);
    } else {
      InsertFresh(d, key, v);
      if w != key {
        InsertFreshOthers(d, key, v, w);
      }
    }
  }

  /** Inserting a key that is a prefix of an earlier key drops its value:
      `get` keeps answering `None` for it. */
  lemma PrefixInsertDropped<K, V>(a: K, b: K, v1: V, v2: V)
    ensures var d := Insert(Default(), [a, b], v1);
            && Insert(d, [a], v2) == d
            && Get(Insert(d, [a], v2), [a]) == None
            && Get(Insert(d, [a], v2), [a, b]) == Some(v1)
  {
    var d0: Dictionary<K, V> := Default();
    InsertFresh(d0, [a, b], v1);
    var d := Insert(d0, [a, b], v1);
    InsertNodes(d0, [a, b], v1, [a]);
    InsertUnchanged(d, [a], v2);
    InsertFreshOthers(d0, [a, b], v1, [a]);
  }
}
