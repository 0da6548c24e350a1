/** The search cursor `Lookup` of `src/dict.rs`.

    A cursor borrows a dictionary and remembers one node, starting at the
    root.  Feeding it key parts one at a time moves it along the matching
    edges; a part with no edge sends it back to the root and reports
    `InvalidKeyPartErr`.  At any point it can report the value of the node it
    sits on.  The theorems below show that the cursor always sits on the node
    of the parts fed since it last started over (`FeedTracksKey`), so that
    feeding a whole key and resolving agrees with `get`. */
module Search {
  import opened Types
  import opened Dict
  import Insertion

  /** The dictionary searched and the node reached so far. */
  datatype Lookup<K, V> = Lookup(dict: Dictionary<K, V>, curr: NodeIndex)

  /** `Dictionary::lookup`: a cursor at the root, which resolves to nothing. */
  function NewLookup<K, V>(d: Dictionary<K, V>): (r: Lookup<K, V>)
    ensures r.dict == d
    ensures Valid(d) ==> TryResolve(r) == None
    ensures r.curr == Root
  {
    Lookup(d, Root)
  }

  /** `partial_search`: follow the edge labelled `p` out of the current node if
      there is one; otherwise start over at the root and report the error. */
  function PartialSearch<K(==), V>(l: Lookup<K, V>, p: K): (r: (Lookup<K, V>, Result<(), InvalidKeyPartErr>))
    ensures r.0.dict == l.dict
    ensures r.1.Ok? <==> exists i :: 0 <= i < |l.dict.edges| && Matches(l.dict.edges[i], l.curr, p)
    ensures r.1.Ok? ==> Walk(l.dict.edges, l.curr, [p]) == Some(r.0.curr)
    ensures r.1.Err? ==> r.0 == NewLookup(l.dict)
  {
    FindNone(l.dict.edges, l.curr, p);
    match Find(l.dict.edges, l.curr, p)
    case Some(c) => (l.(curr := c), Ok(()))
    case None => (l.(curr := Root), Err(InvalidKeyPartErr))
  }

  /** `try_resolve`: the value held at the current node. */
  function TryResolve<K, V>(l: Lookup<K, V>): (r: Option<V>)
    ensures l.curr < |l.dict.vals| ==> r == l.dict.vals[l.curr]
    ensures r.Some? ==> l.curr < |l.dict.vals|
    ensures Valid(l.dict) && l.curr == Root ==> r.None?
  {
    ValueAt(l.dict, l.curr)
  }

  /** `Lookup::get`: a whole-key query, which does not depend on the cursor. */
  function Get<K(==), V>(l: Lookup<K, V>, key: seq<K>): (r: Option<V>)
    ensures key == [] ==> r.None?
    ensures r.Some? ==> FindNode(l.dict, key).Some?
  {
    Dict.Get(l.dict, key)
  }

  /** `reset`: back to the state of a fresh cursor. */
  function Reset<K, V>(l: Lookup<K, V>): (r: Lookup<K, V>)
    ensures r == NewLookup(l.dict)
    ensures Valid(l.dict) ==> TryResolve(r) == None
  {
    l.(curr := Root)
  }

  /** Feeding `parts` one after the other to `partial_search`, ignoring the
      individual results as the caller of a streaming search does; the flag
      says whether every step succeeded. */
  function Feed<K(==), V>(l: Lookup<K, V>, parts: seq<K>): (r: (Lookup<K, V>, bool))
    ensures r.0.dict == l.dict
    decreases |parts|
  {
    if |parts| == 0 then (l, true)
    else
      var (l1, res) := PartialSearch(l, parts[0]);
      var (l2, ok) := Feed(l1, parts[1..]);
      (l2, res.Ok? && ok)
  }

  // ----------------------------------------------------------------------
  // The cursor tracks a key
  // ----------------------------------------------------------------------

  /** A step from a cursor sitting at the node of `w` sits at the node of
      `w + [p]` when it succeeds, and at the node of the empty key (the root)
      when it fails. */
  lemma StepTracksKey<K, V>(l: Lookup<K, V>, w: seq<K>, p: K)
    requires Walk(l.dict.edges, Root, w) == Some(l.curr)
    ensures var (l', res) := PartialSearch(l, p);
            Walk(l.dict.edges, Root, if res.Ok? then w + [p] else []) == Some(l'.curr)
  {
    WalkSnoc(l.dict.edges, Root, w, p);
  }

  /** Feeding succeeds exactly when the parts can be walked from the cursor,
      and then the cursor ends on the node they lead to. */
  lemma {:induction false} FeedFollowsWalk<K, V>(l: Lookup<K, V>, parts: seq<K>)
    ensures Feed(l, parts).1 <==> Walk(l.dict.edges, l.curr, parts).Some?
    ensures Feed(l, parts).1 ==> Some(Feed(l, parts).0.curr) == Walk(l.dict.edges, l.curr, parts)
    decreases |parts|
  {
    if |parts| > 0 {
      var (l1, res) := PartialSearch(l, parts[0]);
      FeedFollowsWalk(l1, parts[1..]);
      if res.Err? {
        FindNone(l.dict.edges, l.curr, parts[0]);
      }
    }
  }

  /** The key a cursor stands for after `parts`, starting from the key `w`:
      each part is appended while the extended key can still be walked from
      the root, and a part that cannot be followed starts over with the empty
      key (what follows the last failure). */
  function Tracked<K(==)>(es: seq<Edge<K>>, w: seq<K>, parts: seq<K>): seq<K>
    decreases |parts|
  {
    if |parts| == 0 then w
    else if Walk(es, Root, w + [parts[0]]).Some? then Tracked(es, w + [parts[0]], parts[1..])
    else Tracked(es, [], parts[1..])
  }

  /** For any stream of parts, failures included, the cursor sits on the node
      of `Tracked`; that key is either everything fed after `w`, or a suffix
      of the parts that starts right after the last failed step. */
  lemma {:induction false} FeedTracksKey<K, V>(l: Lookup<K, V>, w: seq<K>, parts: seq<K>)
    requires Walk(l.dict.edges, Root, w) == Some(l.curr)
    ensures Walk(l.dict.edges, Root, Tracked(l.dict.edges, w, parts)) == Some(Feed(l, parts).0.curr)
    ensures Feed(l, parts).1 ==> Tracked(l.dict.edges, w, parts) == w + parts
    ensures !Feed(l, parts).1 ==> exists k :: 0 < k <= |parts| && Tracked(l.dict.edges, w, parts) == parts[k..]
    decreases |parts|
  {
    if |parts| == 0 {
      assert w + parts == w;
    } else {
      var es, p := l.dict.edges, parts[0];
      var (l1, res) := PartialSearch(l, p);
      StepTracksKey(l, w, p);
      WalkSnoc(es, Root, w, p);
      var w1 := if res.Ok? then w + [p] else [];
      FeedTracksKey(l1, w1, parts[1..]);
      assert w + parts == w + [p] + parts[1..];
      if !Feed(l, parts).1 {
        if Feed(l1, parts[1..]).1 {
          assert res.Err?;
          assert Tracked(es, w, parts) == [] + parts[1..];
        } else {
          var k :| 0 < k <= |parts[1..]| && Tracked(es, w1, parts[1..]) == parts[1..][k..];
          assert parts[1..][k..] == parts[k + 1..];
        }
      }
    }
  }

  /** At any point of a stream, failures included, `try_resolve` answers what
      `get` answers for the key built from the parts fed since the last
      failure (the empty key, with no value, right after one). */
  lemma TryResolveTracks<K, V>(l: Lookup<K, V>, w: seq<K>, parts: seq<K>)
    requires Valid(l.dict) && Walk(l.dict.edges, Root, w) == Some(l.curr)
    ensures TryResolve(Feed(l, parts).0) == Dict.Get(l.dict, Tracked(l.dict.edges, w, parts))
  {
    FeedTracksKey(l, w, parts);
    WalkBounds(l.dict.edges, |l.dict.vals|, Root, Tracked(l.dict.edges, w, parts));
  }

  /** Whatever was fed, a cursor on a valid dictionary sits on an existing node
      that some key leads to. */
  lemma FeedStaysOnKey<K, V>(l: Lookup<K, V>, w: seq<K>, parts: seq<K>)
    requires Valid(l.dict) && Walk(l.dict.edges, Root, w) == Some(l.curr)
    ensures var l' := Feed(l, parts).0;
            l'.curr < |l.dict.vals| && exists u :: Walk(l.dict.edges, Root, u) == Some(l'.curr)
  {
    FeedTracksKey(l, w, parts);
    WalkBounds(l.dict.edges, |l.dict.vals|, Root, Tracked(l.dict.edges, w, parts));
  }

  /** Searching a whole key part by part from a fresh cursor agrees with
      `get`: if every step succeeded, resolving gives `get`'s answer; if a step
      failed, `get` has no value for the key. */
  lemma SearchResolves<K, V>(d: Dictionary<K, V>, key: seq<K>)
    requires Valid(d)
    ensures var (l, ok) := Feed(NewLookup(d), key);
            && (ok ==> TryResolve(l) == Get(l, key))
            && (!ok ==> Get(l, key) == None)
  {
    FeedFollowsWalk(NewLookup(d), key);
    var (l, ok) := Feed(NewLookup(d), key);
    if ok {
      WalkBounds(d.edges, |d.vals|, Root, key);
    }
  }

  /** After a failed step the cursor is a fresh one: what follows is searched
      from the root. */
  lemma FailureStartsOver<K, V>(l: Lookup<K, V>, p: K, rest: seq<K>)
    requires PartialSearch(l, p).1.Err?
    ensures Feed(l, [p] + rest) == (Feed(NewLookup(l.dict), rest).0, false)
  {
    assert ([p] + rest)[0] == p && ([p] + rest)[1..] == rest;
  }

  // ----------------------------------------------------------------------
  // Scenarios
  // ----------------------------------------------------------------------

  /** Two keys sharing their first part, searched part by part from fresh
      cursors, resolve to their own values. */
  lemma SharedPrefixSearch<V>(v1: V, v2: V)
    ensures var d := Insert(Insert(Default(), [':', 'D'], v1), [':', ')'], v2);
            && Feed(NewLookup(d), [':', 'D']).1
            && TryResolve(Feed(NewLookup(d), [':', 'D']).0) == Some(v1)
            && Feed(NewLookup(d), [':', ')']).1
            && TryResolve(Feed(NewLookup(d), [':', ')']).0) == Some(v2)
  {
    var d0: Dictionary<char, V> := Default();
    var k1, k2 := [':', 'D'], [':', ')'];
    Insertion.InsertFresh(d0, k1, v1);
    var d1 := Insert(d0, k1, v1);
    Insertion.InsertNodes(d0, k1, v1, k2);
    Insertion.InsertGet(d1, k2, v2, k1);
    Insertion.InsertGet(d1, k2, v2, k2);
    var d := Insert(d1, k2, v2);
    SearchResolves(d, k1);
    SearchResolves(d, k2);
  }
}
