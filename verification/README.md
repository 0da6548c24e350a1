# capillary in Dafny

capillary provides `Dictionary<K, V>`, a trie stored as a directed graph.
Keys are sequences of parts. Each node holds an optional value, and each edge
carries one key part. A `Lookup` cursor walks the trie one part at a time, so a
caller can feed a stream of parts (characters of a text, say) and ask at any
point whether a value has been reached. This project models the dictionary,
its cursor and its bulk constructor, and proves what they do.

## The model

- `types.dfy` (`Types`): `Option`, `Result` and the single error `InvalidKeyPartErr`.
- `dict.dfy` (`Dict`): the dictionary as an arena.
  - Node `n` holds `vals[n]`. Node 0 is the root, created valueless by `default`.
  - Edges are kept in the order they were added.
  - `Valid` collects the invariants every reachable dictionary keeps:
    - the root holds no value;
    - every edge leads to a newer node;
    - no node has two outgoing edges with the same part;
    - no node has two incoming edges;
    - every node other than the root has an incoming edge;
    - every valueless non-root node has a child.
  - Also here: `is_empty`, `len`, `get`, `get_mut`, `find_node`, and the two `while let` loops as methods.
- `insert.dfy` (`Insertion`): what `insert` does to the trie.
  - The key is followed as far as edges exist.
  - From there, one new node is appended per remaining part. All are valueless except the last, which holds the value.
  - If the whole key can already be followed, nothing changes.
- `lookup.dfy` (`Search`): the `Lookup` cursor. It covers `partial_search`, `try_resolve`, `get` and `reset`, and shows that feeding a key part by part and resolving agrees with `get`.
- `from_iter.dfy` (`Build`): `FromIterator`.
  - The result is characterized without mentioning the trie. For a non-empty key `w`, the first pair whose key extends `w` decides.
  - `w` holds that pair's value if that key is `w` itself. Otherwise `w` holds nothing.

Behaviour worth knowing:

- `insert` never overwrites. The value is dropped when the key's node already exists. That happens when the key was inserted before, and also when the key is a proper prefix of an earlier key.
- `len` counts the nodes that hold a value. So inserting a key that a longer, earlier key extends adds nothing: see `Insertion.PrefixInsertDropped` and `Build.FromIterContents`.

`Dictionary::new` (src/dict.rs:41-43) is `default`, so it is modelled by `Dict.Default`.

## Model

| member | source | states |
|---|---|---|
| Dict.Default | src/dict.rs:28-33 | A new dictionary holds only the valueless root. It satisfies every structural invariant, is empty and has length 0. |
| Dict.Len | src/dict.rs:51-57 | `len` is at most the number of nodes. It is 0 exactly when no node holds a value. |
| Dict.ValueNodeKey | src/dict.rs:51-57 | Every node holding a value is the node of exactly one key, and `get` of that key returns the value. Together with `Dict.Get` (a key with a value has a node), the nodes `len` counts correspond one to one with the key-value pairs. |
| Dict.IsEmpty | src/dict.rs:45-57 | `is_empty` counts nodes rather than values. On any valid dictionary it still holds exactly when `len` is 0, as its doc comment promises. |
| Dict.Find | src/dict.rs:69-73 | A target found for part `p` out of node `n` is the end of some edge out of `n` labelled `p`. |
| Dict.FindNone | src/dict.rs:69-73 | The search for an edge comes back empty exactly when no edge out of the node carries the part. |
| Dict.FindMatch | src/dict.rs:125-129 | With unique labels, the edge `find` meets is the only matching edge. So the order in which the graph lists edges does not affect any result. |
| Dict.FindNode | src/dict.rs:116-142 | The empty key has no node. In a valid dictionary, a node found for a key exists and is not the root. |
| Dict.FindNodeLoop | src/dict.rs:116-142 | The peek-and-return loop gives the same node as walking the whole key. It returns none for the empty key and for a missing edge. |
| Dict.WalkInjective | src/dict.rs:77-87 | Each node is created with exactly one incoming edge. So two keys that reach the same node are the same key. |
| Dict.Get | src/dict.rs:96-103 | The empty key has no value. A key with a value has a node. |
| Dict.GetMut | src/dict.rs:107-114 | A writable slot exists exactly when `get` has a value. The slot holds that value. |
| Dict.GetMutWrite | src/dict.rs:107-114 | Writing through the slot keeps the invariants and `len`. `get` then returns the new value for that key and the old answer for every other key. |
| Dict.Insert | src/dict.rs:60-92 | Insertion only appends: existing nodes keep their values and existing edges stay as they were. |
| Dict.InsertFrom | src/dict.rs:68-91 | The `while let` loop, continued from a given node, only appends: existing node values and edges are untouched. What it appends is stated by `Insertion.InsertFromMiss` and `Insertion.InsertFromExisting`. |
| Dict.InsertLoop | src/dict.rs:60-92 | The `while let` loop computes the insertion. It follows an edge, or adds a valueless node while parts remain, or adds the value node and stops. |
| Insertion.InsertUnchanged | src/dict.rs:64-76 | An empty key, or a key whose node already exists, leaves the dictionary unchanged. The value is dropped, not stored. |
| Insertion.InsertFromMiss | src/dict.rs:77-88 | Once a part has no edge, each remaining part gets a new node and edge. Only the last node holds the value. |
| Insertion.InsertShape | src/dict.rs:68-88 | A fresh key splits into a prefix that can be walked, followed by a chain of new nodes hung off its end. The new edges are labelled with the remaining parts, and only the last new node holds the value. |
| Insertion.GrowValid | src/dict.rs:77-88 | Hanging such a chain off a node with no edge for its first part keeps every structural invariant. |
| Insertion.InsertFresh | src/dict.rs:77-88 | For a fresh non-empty key, the result is valid, `get` returns the inserted value and `len` grows by one. |
| Insertion.InsertFreshOthers | src/dict.rs:77-88 | A fresh insertion does not change `get` for any other key. |
| Insertion.InsertNodes | src/dict.rs:60-92 | After any insertion, the keys with a node are the old ones plus the non-empty prefixes of the inserted key. |
| Insertion.InsertGet | src/dict.rs:60-92 | After any insertion, only a fresh non-empty key gains a value (the inserted one). Every other key keeps its answer, and `len` grows by one exactly in the fresh case. |
| Insertion.PrefixInsertDropped | src/dict.rs:74-76 | Inserting `[a]` after `[a, b]` changes nothing. `get([a])` stays none and `get([a, b])` keeps its value. |
| Search.NewLookup | src/dict.rs:144-150 | A new cursor sits at the root of the same dictionary and resolves to nothing. |
| Search.PartialSearch | src/dict.rs:157-175 | A step succeeds exactly when an edge out of the cursor's node carries the part, and then moves the cursor one part along. A failure puts the cursor back at the root and reports `InvalidKeyPartErr`. The dictionary is never touched. |
| Search.TryResolve | src/dict.rs:177-181 | The answer is the value stored at the cursor's node whenever that node exists, and nothing otherwise. On a valid dictionary, a cursor at the root reports nothing. |
| Search.Get | src/dict.rs:183-190 | A whole-key query through the cursor. The empty key has no value, and a key with a value has a node. |
| Search.Reset | src/dict.rs:192-196 | After `reset`, the cursor equals a new cursor on the same dictionary. |
| Search.StepTracksKey | src/dict.rs:157-175 | If the cursor sits at the node of `w`, a successful step leaves it at the node of `w + [p]`. A failed step leaves it at the node of the empty key. |
| Search.FeedFollowsWalk | src/dict.rs:157-175 | Feeding parts one by one succeeds exactly when they can be walked from the cursor. The cursor then ends on the node they lead to. |
| Search.FeedTracksKey | src/dict.rs:157-181 | For any stream of parts, failures included, the cursor sits on the node of the key built from the parts fed since the last failure. If no step failed, that key is everything fed; otherwise it is the suffix of the stream after the last failed part. |
| Search.TryResolveTracks | src/dict.rs:157-181 | At any point of a stream, failures included, `try_resolve` answers what `get` answers for the key built from the parts fed since the last failure. Right after a failure that key is empty and the answer is nothing. |
| Search.FeedStaysOnKey | src/dict.rs:157-175 | Whatever is fed, on a valid dictionary the cursor stays on an existing node that some key leads to. |
| Search.FailureStartsOver | src/dict.rs:167-170 | After a failed step, the rest of the stream is searched as if by a new cursor. |
| Search.SearchResolves | src/dict.rs:157-190 | Feed any key to a new cursor. If every step succeeded, `try_resolve` equals `get`. If a step failed, `get` has no value for the key. |
| Search.SharedPrefixSearch | src/dict.rs:231-253 | After inserting `:D` and `:)`, searching either key part by part from a new cursor resolves to its own value. |
| Build.FoldInsert | src/lib.rs:28-30 | Inserting pairs in order keeps the invariants. `len` grows by at most one per pair. |
| Build.FromIter | src/lib.rs:25-33 | The built dictionary is valid and its `len` is at most the number of pairs. From no pairs it is empty. |
| Build.FromIterLoop | src/lib.rs:25-33 | The `for` loop starting from `default` computes `FromIter`. |
| Build.FoldInsertSnoc | src/lib.rs:28-30 | Building from one more pair is inserting that pair into what the earlier pairs built. |
| Build.FromIterContents | src/lib.rs:25-33 | A non-empty key has a node exactly when some pair's key extends it. `get` answers as `Expected`: the first pair whose key extends the key decides. `len` equals the number of pairs with a non-empty key that no earlier key extends. |
| Build.FirstPairWins | src/lib.rs:25-33 | A non-empty key that no earlier pair's key extends is found with its own value. Later duplicates are ignored. |
| Build.NeverInsertedIsAbsent | src/lib.rs:25-33 | A key that no pair gave has no value, even when it is a prefix of some pair's key. |
| Build.PrefixFreeLen | src/lib.rs:25-33 | When no key is empty and no key is a prefix of an earlier one, `len` equals the number of pairs. |

## Left out

- The graph library's internals.
  - Node indices are modelled as positions in an append-only arena. Nothing is ever removed, so a stable graph numbers nodes the same way.
  - The graph lists a node's edges newest first, and the model scans them oldest first. `Dict.FindMatch` shows the order cannot matter while labels are unique.
- Iterators and `peekable`: a key is a finite `seq<K>`. Infinite or side-effecting key iterators are not modelled.
- `K: PartialEq` is modelled as Dafny equality. A `PartialEq` that is not an equivalence is not modelled.
- References and lifetimes.
  - `get` and `try_resolve` return the value rather than a reference.
  - `get_mut` returns the slot of the value, and `Dict.WriteThrough` models assignment through the returned `&mut V`.
  - A `Lookup` holds its dictionary by value, since the shared borrow forbids changes while it lives.
- `usize`: `len`, node counts and indices are unbounded naturals. Overflow and allocation failure are not modelled.
- The derived `Debug` implementations: they are formatting only.
- Search.Feed is not a function of the library. It models a caller that feeds parts one by one and ignores each step's result except for whether all succeeded.
- Search.Get: its own contract states only the two facts in its row. Its answer is `Dict.Get`'s, and `Search.SearchResolves` relates it to part-by-part search.
- Dict.InsertFrom: its own contract states only that the loop appends. What is appended is stated by `Insertion.InsertFromMiss` and `Insertion.InsertFromExisting`.
- Dict.Insert: its own contract states only that insertion appends. What is appended is stated by the `Insertion` lemmas.
