/** The trie of `src/dict.rs`, as an arena.

    Node `n` of the graph holds the optional value `vals[n]`; the edges are kept in
    the order the graph received them.  Nodes are only ever appended, so a node
    index stays valid for the life of the dictionary.  Node 0 is the root. */
module Dict {
  import opened Types

  type NodeIndex = nat

  /** The root is the first node of the arena, the one `default` creates. */
  const Root: NodeIndex := 0

  /** Following the key part `part` out of node `src` leads to node `dst`. */
  datatype Edge<K> = Edge(src: NodeIndex, part: K, dst: NodeIndex)

  datatype Dictionary<K, V> = Dictionary(vals: seq<Option<V>>, edges: seq<Edge<K>>)

  // ----------------------------------------------------------------------
  // Structural invariants
  // ----------------------------------------------------------------------

  /** The root exists and never holds a value. */
  ghost predicate RootValueless<K, V>(d: Dictionary<K, V>) {
    |d.vals| > 0 && d.vals[Root].None?
  }

  /** Every edge leaves an existing node and enters an existing node created
      after its source (so never the root, and the graph has no cycle). */
  ghost predicate EdgesInRange<K>(es: seq<Edge<K>>, count: nat) {
    forall i :: 0 <= i < |es| ==> es[i].src < es[i].dst < count
  }

  /** No node has two outgoing edges with the same label. */
  ghost predicate LabelsUnique<K>(es: seq<Edge<K>>) {
    forall i, j :: 0 <= i < j < |es| && es[i].src == es[j].src ==> es[i].part != es[j].part
  }

  /** No node has two incoming edges: the graph is a tree. */
  ghost predicate SingleParent<K>(es: seq<Edge<K>>) {
    forall i, j :: 0 <= i < j < |es| ==> es[i].dst != es[j].dst
  }

  ghost predicate HasChild<K>(es: seq<Edge<K>>, n: NodeIndex) {
    exists i :: 0 <= i < |es| && es[i].src == n
  }

  ghost predicate HasParent<K>(es: seq<Edge<K>>, n: NodeIndex) {
    exists i :: 0 <= i < |es| && es[i].dst == n
  }

  /** Every node other than the root was created together with the edge into it. */
  ghost predicate NonRootHaveParents<K, V>(d: Dictionary<K, V>) {
    forall n :: 0 < n < |d.vals| ==> HasParent(d.edges, n)
  }

  /** A valueless node other than the root lies strictly inside some key. */
  ghost predicate ValuelessHaveChildren<K, V>(d: Dictionary<K, V>) {
    forall n :: 0 < n < |d.vals| && d.vals[n].None? ==> HasChild(d.edges, n)
  }

  ghost predicate Valid<K, V>(d: Dictionary<K, V>) {
    && RootValueless(d)
    && EdgesInRange(d.edges, |d.vals|)
    && LabelsUnique(d.edges)
    && SingleParent(d.edges)
    && NonRootHaveParents(d)
    && ValuelessHaveChildren(d)
  }

  // ----------------------------------------------------------------------
  // Construction and bookkeeping
  // ----------------------------------------------------------------------

  /** `Dictionary::default` (and `new`): a graph holding only the valueless root. */
  function Default<K, V>(): (r: Dictionary<K, V>)
    ensures Valid(r)
    ensures IsEmpty(r) && Len(r) == 0
  {
    Dictionary([None], [])
  }

  /** `is_empty`: the graph holds at most the root.  It counts nodes, not
      values, yet on a valid dictionary it agrees with `len() == 0`: the newest
      node has no child, so it must hold a value. */
  function IsEmpty<K, V>(d: Dictionary<K, V>): (r: bool)
    ensures Valid(d) ==> (r <==> Len(d) == 0)
  {
    if |d.vals| <= 1 then true
    else
      var last := |d.vals| - 1;
      assert Valid(d) ==> !HasChild(d.edges, last);
      assert Valid(d) ==> d.vals[last].Some?;
      false
  }

  /** The number of nodes of `s` that hold a value. */
  function CountSome<V>(s: seq<Option<V>>): (r: nat)
    ensures r <= |s|
    ensures r == 0 <==> forall i :: 0 <= i < |s| ==> s[i].None?
  {
    if |s| == 0 then 0
    else (if s[0].Some? then 1 else 0) + CountSome(s[1..])
  }

  /** `len`: the number of nodes holding a value. */
  function Len<K, V>(d: Dictionary<K, V>): (r: nat)
    ensures r <= |d.vals|
    ensures r == 0 <==> forall n :: 0 <= n < |d.vals| ==> d.vals[n].None?
  {
    CountSome(d.vals)
  }

  // ----------------------------------------------------------------------
  // Traversal
  // ----------------------------------------------------------------------

  predicate Matches<K(==)>(e: Edge<K>, n: NodeIndex, p: K) {
    e.src == n && e.part == p
  }

  /** `edges(n).find(|e| e.weight() == p)`: the target of the first edge out of
      `n` labelled `p`, if there is one. */
  function Find<K(==)>(es: seq<Edge<K>>, n: NodeIndex, p: K): (r: Option<NodeIndex>)
    ensures r.Some? ==> exists i :: 0 <= i < |es| && Matches(es[i], n, p) && es[i].dst == r.value
  {
    if |es| == 0 then None
    else if Matches(es[0], n, p) then Some(es[0].dst)
    else
      var r := Find(es[1..], n, p);
      assert forall i :: 1 <= i < |es| ==> es[i] == es[1..][i - 1];
      r
  }

  /** The node reached from `n` by following the parts of `key` in order. */
  function Walk<K(==)>(es: seq<Edge<K>>, n: NodeIndex, key: seq<K>): Option<NodeIndex>
    decreases |key|
  {
    if |key| == 0 then Some(n)
    else match Find(es, n, key[0])
      case None => None
      case Some(c) => Walk(es, c, key[1..])
  }

  /** `find_node`: the node of a non-empty key; the empty key has no node. */
  function FindNode<K(==), V>(d: Dictionary<K, V>, key: seq<K>): (r: Option<NodeIndex>)
    ensures key == [] ==> r.None?
    ensures Valid(d) && r.Some? ==> Root < r.value < |d.vals|
  {
    if |key| == 0 then None
    else
      WalkBounds(d.edges, |d.vals|, Root, key);
      Walk(d.edges, Root, key)
  }

  /** `node_weight(n)?.as_ref()`: the value held at `n`, if `n` is a node. */
  function ValueAt<K, V>(d: Dictionary<K, V>, n: NodeIndex): Option<V> {
    if n < |d.vals| then d.vals[n] else None
  }

  /** `get`: the value stored under the whole key. */
  function Get<K(==), V>(d: Dictionary<K, V>, key: seq<K>): (r: Option<V>)
    ensures key == [] ==> r.None?
    ensures r.Some? ==> FindNode(d, key).Some?
  {
    match FindNode(d, key)
    case None => None
    case Some(n) => ValueAt(d, n)
  }

  /** `get_mut`: the node whose value a caller may overwrite, present exactly
      when `get` finds a value. */
  function GetMut<K(==), V>(d: Dictionary<K, V>, key: seq<K>): (r: Option<NodeIndex>)
    ensures r.Some? <==> Get(d, key).Some?
    ensures r.Some? ==> r.value < |d.vals| && d.vals[r.value] == Get(d, key)
  {
    match FindNode(d, key)
    case None => None
    case Some(n) => if n < |d.vals| && d.vals[n].Some? then Some(n) else None
  }

  /** Assignment through the reference `get_mut` returned. */
  function WriteThrough<K, V>(d: Dictionary<K, V>, slot: NodeIndex, v: V): Dictionary<K, V>
    requires slot < |d.vals| && d.vals[slot].Some?
  {
    d.(vals := d.vals[slot := Some(v)])
  }

  // ----------------------------------------------------------------------
  // Insertion
  // ----------------------------------------------------------------------

  /** `add_node(val)` followed by `add_edge(parent, new, label)`. */
  function AddChild<K, V>(d: Dictionary<K, V>, parent: NodeIndex, part: K, val: Option<V>): Dictionary<K, V> {
    Dictionary(d.vals + [val], d.edges + [Edge(parent, part, |d.vals|)])
  }

  /** One pass of the insertion loop from node `curr` with `key` the parts not
      yet consumed: follow an existing edge, or create a valueless node when
      more parts follow, or create the node holding `value` and stop.  When the
      loop runs out of parts while following edges nothing is written. */
  function InsertFrom<K(==), V>(d: Dictionary<K, V>, curr: NodeIndex, key: seq<K>, value: V): (r: Dictionary<K, V>)
    ensures |d.vals| <= |r.vals| && r.vals[..|d.vals|] == d.vals
    ensures |d.edges| <= |r.edges| && r.edges[..|d.edges|] == d.edges
    decreases |key|
  {
    if |key| == 0 then d
    else match Find(d.edges, curr, key[0])
      case Some(c) => InsertFrom(d, c, key[1..], value)
      case None =>
        if |key| > 1 then
          var d1 := AddChild(d, curr, key[0], None);
          var r := InsertFrom(d1, |d.vals|, key[1..], value);
          assert r.vals[..|d.vals|] == r.vals[..|d1.vals|][..|d.vals|];
          assert r.edges[..|d.edges|] == r.edges[..|d1.edges|][..|d.edges|];
          r
        else AddChild(d, curr, key[0], Some(value))
  }

  /** `insert`. */
  function Insert<K(==), V>(d: Dictionary<K, V>, key: seq<K>, value: V): (r: Dictionary<K, V>)
    ensures |d.vals| <= |r.vals| && r.vals[..|d.vals|] == d.vals
    ensures |d.edges| <= |r.edges| && r.edges[..|d.edges|] == d.edges
  {
    InsertFrom(d, Root, key, value)
  }

  /** The `while let` loop of `insert`, written as a loop. */
  method InsertLoop<K(==), V>(d0: Dictionary<K, V>, key: seq<K>, value: V) returns (d: Dictionary<K, V>)
    ensures d == Insert(d0, key, value)
  {
    d := d0;
    var curr: NodeIndex := Root;
    var i := 0;
    while i < |key|
      invariant 0 <= i <= |key|
      invariant InsertFrom(d, curr, key[i..], value) == Insert(d0, key, value)
      decreases |key| - i
    {
      var part := key[i];
      match Find(d.edges, curr, part)
      case Some(c) =>
        curr := c;
        i := i + 1;
      case None =>
        if i + 1 < |key| {
          var n := |d.vals|;
          d := AddChild(d, curr, part, None);
          curr := n;
          i := i + 1;
        } else {
          d := AddChild(d, curr, part, Some(value));
          return;
        }
    }
  }

  /** The loop of `find_node`: after each step it peeks for a further part and
      returns the node reached when there is none. */
  method FindNodeLoop<K(==), V>(d: Dictionary<K, V>, key: seq<K>) returns (r: Option<NodeIndex>)
    ensures r == FindNode(d, key)
  {
    var curr: NodeIndex := Root;
    var i := 0;
    while i < |key|
      invariant 0 <= i <= |key|
      invariant i < |key| || |key| == 0
      invariant Walk(d.edges, curr, key[i..]) == Walk(d.edges, Root, key)
      decreases |key| - i
    {
      match Find(d.edges, curr, key[i])
      case Some(c) =>
        assert key[i..][1..] == key[i + 1..];
        curr := c;
        i := i + 1;
        if i == |key| {
          return Some(curr);
        }
      case None =>
        return None;
    }
    return None;
  }

  // ----------------------------------------------------------------------
  // Facts about traversal
  // ----------------------------------------------------------------------

  /** The edge `find` met. */
  lemma FindEdge<K>(es: seq<Edge<K>>, n: NodeIndex, p: K) returns (i: nat)
    requires Find(es, n, p).Some?
    ensures i < |es| && Matches(es[i], n, p) && es[i].dst == Find(es, n, p).value
  {
    i :| 0 <= i < |es| && Matches(es[i], n, p) && es[i].dst == Find(es, n, p).value;
  }

  /** `find` comes back empty exactly when no edge out of `n` is labelled `p`. */
  lemma {:induction false} FindNone<K>(es: seq<Edge<K>>, n: NodeIndex, p: K)
    ensures Find(es, n, p).None? <==> forall i :: 0 <= i < |es| ==> !Matches(es[i], n, p)
    decreases |es|
  {
    if |es| > 0 && !Matches(es[0], n, p) {
      FindNone(es[1..], n, p);
      assert forall i :: 1 <= i < |es| ==> es[i] == es[1..][i - 1];
    }
  }

  /** `get` of a key whose walk ends at node `n` reads `n`'s value. */
  lemma GetAt<K, V>(d: Dictionary<K, V>, key: seq<K>, n: NodeIndex)
    requires key != [] && Walk(d.edges, Root, key) == Some(n) && n < |d.vals|
    ensures Get(d, key) == d.vals[n]
  {
  }

  /** Under label uniqueness, the edge `find` meets is the only matching one,
      so the order in which edges are visited does not matter. */
  lemma FindMatch<K>(es: seq<Edge<K>>, n: NodeIndex, p: K, i: nat)
    requires LabelsUnique(es)
    requires i < |es| && Matches(es[i], n, p)
    ensures Find(es, n, p) == Some(es[i].dst)
  {
    FindNone(es, n, p);
    var k := FindEdge(es, n, p);
    assert forall j :: 0 <= j < |es| && Matches(es[j], n, p) ==> j == i;
  }

  /** Walking `a + b` is walking `a`, then `b` from where `a` ended. */
  lemma {:induction false} WalkAppend<K>(es: seq<Edge<K>>, n: NodeIndex, a: seq<K>, b: seq<K>)
    ensures Walk(es, n, a + b) ==
              match Walk(es, n, a)
              case None => None
              case Some(x) => Walk(es, x, b)
    decreases |a|
  {
    if |a| > 0 {
      assert (a + b)[0] == a[0];
      assert (a + b)[1..] == a[1..] + b;
      match Find(es, n, a[0])
      case None =>
      case Some(c) => WalkAppend(es, c, a[1..], b);
    } else {
      assert a + b == b;
    }
  }

  /** Walking one more part is one more `find`. */
  lemma WalkSnoc<K>(es: seq<Edge<K>>, n: NodeIndex, a: seq<K>, p: K)
    ensures Walk(es, n, a + [p]) ==
              match Walk(es, n, a)
              case None => None
              case Some(x) => Find(es, x, p)
  {
    WalkAppend(es, n, a, [p]);
    match Walk(es, n, a)
    case None =>
    case Some(x) =>
      assert [p][1..] == [];
  }

  /** In a graph whose edges go forward, a non-empty walk ends at a later, existing node. */
  lemma {:induction false} WalkBounds<K>(es: seq<Edge<K>>, count: nat, n: NodeIndex, key: seq<K>)
    ensures EdgesInRange(es, count) && Walk(es, n, key).Some? && |key| > 0 ==>
              n < Walk(es, n, key).value < count
    decreases |key|
  {
    if EdgesInRange(es, count) && Walk(es, n, key).Some? && |key| > 0 {
      var c := Find(es, n, key[0]).value;
      if |key| > 1 {
        WalkBounds(es, count, c, key[1..]);
      }
    }
  }

  /** A prefix of a walkable key is walkable. */
  lemma WalkPrefix<K>(es: seq<Edge<K>>, n: NodeIndex, w: seq<K>, key: seq<K>)
    requires w <= key && Walk(es, n, key).Some?
    ensures Walk(es, n, w).Some?
  {
    assert key == w + key[|w|..];
    WalkAppend(es, n, w, key[|w|..]);
  }

  /** In a tree, different keys lead from the root to different nodes. */
  lemma {:induction false} WalkInjective<K>(es: seq<Edge<K>>, count: nat, w1: seq<K>, w2: seq<K>)
    requires EdgesInRange(es, count) && SingleParent(es)
    requires Walk(es, Root, w1).Some? && Walk(es, Root, w1) == Walk(es, Root, w2)
    ensures w1 == w2
    decreases |w1|
  {
    var m := Walk(es, Root, w1).value;
    WalkBounds(es, count, Root, w1);
    WalkBounds(es, count, Root, w2);
    if |w1| > 0 && |w2| > 0 {
      var u1, p1 := w1[..|w1| - 1], w1[|w1| - 1];
      var u2, p2 := w2[..|w2| - 1], w2[|w2| - 1];
      LastPart(w1);
      LastPart(w2);
      WalkSnoc(es, Root, u1, p1);
      WalkSnoc(es, Root, u2, p2);
      var i1 := FindEdge(es, Walk(es, Root, u1).value, p1);
      var i2 := FindEdge(es, Walk(es, Root, u2).value, p2);
      assert i1 == i2;
      WalkInjective(es, count, u1, u2);
    }
  }

  /** In a graph where every node but the root has an incoming edge, every
      node is reached from the root by some key, non-empty unless the node is
      the root. */
  lemma {:induction false} KeyOf<K>(es: seq<Edge<K>>, count: nat, n: NodeIndex) returns (w: seq<K>)
    requires EdgesInRange(es, count) && LabelsUnique(es)
    requires forall m :: 0 < m < count ==> HasParent(es, m)
    requires n < count
    ensures Walk(es, Root, w) == Some(n)
    ensures w == [] <==> n == Root
    decreases n
  {
    if n == Root {
      w := [];
    } else {
      assert HasParent(es, n);
      var i :| 0 <= i < |es| && es[i].dst == n;
      var u := KeyOf(es, count, es[i].src);
      FindMatch(es, es[i].src, es[i].part, i);
      WalkSnoc(es, Root, u, es[i].part);
      w := u + [es[i].part];
    }
  }

  lemma ConcatAssoc<T>(a: seq<T>, b: seq<T>, c: seq<T>)
    ensures (a + b) + c == a + (b + c)
  {
  }

  /** A prefix of `a + b` is a prefix of `a`, or `a` followed by a prefix of `b`. */
  lemma PrefixOfConcat<T>(a: seq<T>, b: seq<T>, w: seq<T>)
    requires w <= a + b
    ensures |w| <= |a| ==> w <= a
    ensures |a| < |w| ==> w == a + b[..|w| - |a|]
  {
    if |a| < |w| {
      assert w[|a|..] == b[..|w| - |a|];
      SplitAt(w, |a|);
    }
  }

  /** `a` followed by a prefix of `b` is a prefix of `a + b`. */
  lemma ConcatPrefix<T>(a: seq<T>, b: seq<T>, t: nat)
    requires t <= |b|
    ensures a + b[..t] <= a + b
  {
    assert (a + b)[..|a| + t] == a + b[..t];
  }

  /** A non-empty sequence is its front followed by its last element. */
  lemma LastPart<T>(w: seq<T>)
    requires |w| > 0
    ensures w == w[..|w| - 1] + [w[|w| - 1]]
  {
  }

  /** A sequence is its prefix followed by the rest. */
  lemma SplitAt<T>(a: seq<T>, j: nat)
    requires j <= |a|
    ensures a == a[..j] + a[j..] && a[..|a|] == a
  {
  }

  // ----------------------------------------------------------------------
  // Counting values
  // ----------------------------------------------------------------------

  /** The nodes `len` counts are exactly the key-value pairs: every node
      holding a value is the node of exactly one key, whose `get` is that
      value (and, by `Get`'s contract, every key with a value has a node). */
  lemma ValueNodeKey<K, V>(d: Dictionary<K, V>, n: NodeIndex) returns (w: seq<K>)
    requires Valid(d) && n < |d.vals| && d.vals[n].Some?
    ensures FindNode(d, w) == Some(n) && Get(d, w) == d.vals[n]
    ensures forall u :: FindNode(d, u) == Some(n) ==> u == w
  {
    w := KeyOf(d.edges, |d.vals|, n);
    forall u | FindNode(d, u) == Some(n)
      ensures u == w
    {
      WalkInjective(d.edges, |d.vals|, u, w);
    }
  }

  lemma {:induction false} CountSomeAppend<V>(a: seq<Option<V>>, b: seq<Option<V>>)
    ensures CountSome(a + b) == CountSome(a) + CountSome(b)
    decreases |a|
  {
    if |a| == 0 {
      assert a + b == b;
    } else {
      assert (a + b)[0] == a[0];
      assert (a + b)[1..] == a[1..] + b;
      CountSomeAppend(a[1..], b);
    }
  }

  /** Replacing a value by another value leaves the count alone. */
  lemma {:induction false} CountSomeOverwrite<V>(s: seq<Option<V>>, i: nat, v: V)
    requires i < |s| && s[i].Some?
    ensures CountSome(s[i := Some(v)]) == CountSome(s)
    decreases |s|
  {
    if i > 0 {
      assert s[i := Some(v)][1..] == s[1..][i - 1 := Some(v)];
      CountSomeOverwrite(s[1..], i - 1, v);
    }
  }

  // ----------------------------------------------------------------------
  // get_mut
  // ----------------------------------------------------------------------

  /** Overwriting the value `get_mut` hands out changes `get` for that key only,
      keeps `len`, and keeps the invariants. */
  lemma GetMutWrite<K, V>(d: Dictionary<K, V>, key: seq<K>, v: V, other: seq<K>)
    requires Valid(d) && GetMut(d, key).Some?
    ensures Valid(WriteThrough(d, GetMut(d, key).value, v))
    ensures Get(WriteThrough(d, GetMut(d, key).value, v), key) == Some(v)
    ensures Len(WriteThrough(d, GetMut(d, key).value, v)) == Len(d)
    ensures other != key ==> Get(WriteThrough(d, GetMut(d, key).value, v), other) == Get(d, other)
  {
    var h := GetMut(d, key).value;
    var d' := WriteThrough(d, h, v);
    CountSomeOverwrite(d.vals, h, v);
    assert ValuelessHaveChildren(d') by {
      forall n | 0 < n < |d'.vals| && d'.vals[n].None?
        ensures HasChild(d'.edges, n)
      {
        assert d.vals[n].None?;
      }
    }
    if other != key && FindNode(d, other).Some? {
      if FindNode(d, other).value == h {
        WalkInjective(d.edges, |d.vals|, other, key);
      }
    }
  }
}
