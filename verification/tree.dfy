/**
 * Translation data: a schema-free tree of string-keyed mappings whose leaves
 * carry opaque values, and the segment-by-segment walk a dotted key makes
 * through such a tree.
 */
module Tree {
  import opened Wrappers

  /** A node of a loaded document: a nested mapping (the only kind of value
      that can be merged) or a leaf of any other kind. */
  datatype Node<V> = Map(entries: map<string, Node<V>>) | Leaf(value: V)

  /** A top-level document, or the merged cache: a mapping from keys
      (locale names at the top) to nodes. */
  type Table<V> = map<string, Node<V>>

  /** A sequence of key segments, as produced by splitting a dotted key. */
  type KeyPath = seq<string>

  /** Looks a key up in a mapping; `None` when it is absent. */
  function Get<V>(t: Table<V>, k: string): (r: Option<Node<V>>)
    ensures r.Some? <==> k in t
    ensures r.Some? ==> r.value == t[k]
  {
    if k in t then Some(t[k]) else None
  }

  /** One step of the walk: index the current node by one segment. A missing
      node stays missing, and indexing a leaf finds nothing. */
  function Step<V>(cur: Option<Node<V>>, k: string): (r: Option<Node<V>>)
    ensures cur.None? ==> r.None?
    ensures r.Some? <==> cur.Some? && cur.value.Map? && k in cur.value.entries
    ensures r.Some? ==> r.value == cur.value.entries[k]
  {
    match cur
    case None => None
    case Some(Leaf(_)) => None
    case Some(Map(m)) => Get(m, k)
  }

  /** The walk of a dotted key: a left fold of `Step` over the segments,
      starting from `start`. A walk from nothing finds nothing, and a walk of
      one or more segments that finds something started at a mapping. */
  function Walk<V>(start: Option<Node<V>>, path: KeyPath): (r: Option<Node<V>>)
    ensures start.None? ==> r.None?
    ensures r.Some? && |path| > 0 ==> start.Some? && start.value.Map?
    decreases |path|
  {
    if |path| == 0 then start else Walk(Step(start, path[0]), path[1..])
  }

  /** Reference definition of "the node reached from `n` along `path`",
      by structural descent into the tree rather than by folding. */
  ghost predicate Reaches<V>(n: Node<V>, path: KeyPath, target: Node<V>)
    decreases |path|
  {
    if |path| == 0 then target == n
    else n.Map? && path[0] in n.entries && Reaches(n.entries[path[0]], path[1..], target)
  }

  /** The walk finds exactly the node the descent definition reaches, and
      finds nothing exactly when no node is reached. */
  lemma {:induction false} WalkFindsReachedNode<V>(n: Node<V>, path: KeyPath, target: Node<V>)
    ensures Walk(Some(n), path) == Some(target) <==> Reaches(n, path, target)
    decreases |path|
  {
    if |path| > 0 && n.Map? && path[0] in n.entries {
      WalkFindsReachedNode(n.entries[path[0]], path[1..], target);
    } else if |path| > 0 {
      WalkFromNothing<V>(path[1..]);
    }
  }

  /** Once a step yields nothing, every later step yields nothing too; a
      named form of `Walk`'s first postcondition. */
  lemma WalkFromNothing<V>(path: KeyPath)
    ensures Walk<V>(None, path).None?
  {
  }

  /** Walking `p + q` is walking `p` and then walking `q` from where `p` ended. */
  lemma {:induction false} WalkAppend<V>(start: Option<Node<V>>, p: KeyPath, q: KeyPath)
    ensures Walk(start, p + q) == Walk(Walk(start, p), q)
    decreases |p|
  {
    if |p| > 0 {
      assert (p + q)[0] == p[0];
      assert (p + q)[1..] == p[1..] + q;
      WalkAppend(Step(start, p[0]), p[1..], q);
    } else {
      assert p + q == q;
    }
  }

  /** If a key path finds nothing, so does every extension of it. */
  lemma WalkMissingPrefix<V>(start: Option<Node<V>>, p: KeyPath, q: KeyPath)
    requires Walk(start, p).None?
    ensures Walk(start, p + q).None?
  {
    WalkAppend(start, p, q);
    WalkFromNothing<V>(q);
  }

  /** A walk that reaches a leaf before the last segment finds nothing. */
  lemma WalkThroughLeaf<V>(start: Option<Node<V>>, p: KeyPath, k: string, q: KeyPath)
    requires Walk(start, p).Some? && Walk(start, p).value.Leaf?
    ensures Walk(start, p + [k] + q).None?
  {
    WalkAppend(start, p, [k] + q);
    assert p + [k] + q == p + ([k] + q);
    assert ([k] + q)[1..] == q;
    WalkFromNothing<V>(q);
  }
}
