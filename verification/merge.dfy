/**
 * Deep merge of translation documents. Two nodes that are both mappings are
 * combined key by key; in every other conflict the later node wins.
 */
module DeepMerge {
  import opened Wrappers
  import opened Tree

  /** Merges `newer` into `older`. Keys held by one side only pass through;
      a key held by both sides is merged recursively when both values are
      mappings, and otherwise takes the newer value. */
  function MergeNodes<V>(older: Node<V>, newer: Node<V>): (r: Node<V>)
    ensures older.Map? && newer.Map? ==> r.Map? && r.entries.Keys == older.entries.Keys + newer.entries.Keys
    ensures !(older.Map? && newer.Map?) ==> r == newer
    decreases older
  {
    if older.Map? && newer.Map? then
      var a := older.entries;
      var b := newer.entries;
      Map(map k | k in a.Keys + b.Keys ::
            if k in a && k in b then MergeNodes(a[k], b[k])
            else if k in b then b[k]
            else a[k])
    else
      newer
  }

  /** One pairwise step of the merge of two documents (`acc.merge(hash)`
      with the conflict block). */
  function MergeTables<V>(acc: Table<V>, next: Table<V>): (r: Table<V>)
    ensures r.Keys == acc.Keys + next.Keys
    ensures forall k :: k in acc && k !in next ==> r[k] == acc[k]
    ensures forall k :: k in next && k !in acc ==> r[k] == next[k]
    ensures forall k :: k in acc && k in next && acc[k].Map? && next[k].Map? ==> r[k] == MergeNodes(acc[k], next[k])
    ensures forall k :: k in acc && k in next && !(acc[k].Map? && next[k].Map?) ==> r[k] == next[k]
  {
    MergeNodes(Map(acc), Map(next)).entries
  }

  /** Every key defined by some document of `docs`. */
  ghost function AllKeys<V>(docs: seq<Table<V>>): set<string>
  {
    set i, k | 0 <= i < |docs| && k in docs[i] :: k
  }

  lemma AllKeysSnoc<V>(docs: seq<Table<V>>, last: Table<V>)
    ensures AllKeys(docs + [last]) == AllKeys(docs) + last.Keys
  {
    var all := docs + [last];
    forall k | k in AllKeys(all) ensures k in AllKeys(docs) + last.Keys {
      var i :| 0 <= i < |all| && k in all[i];
      if i < |docs| { assert all[i] == docs[i]; }
    }
    forall k | k in AllKeys(docs) + last.Keys ensures k in AllKeys(all) {
      if k in last {
        assert all[|docs|] == last;
      } else {
        var i :| 0 <= i < |docs| && k in docs[i];
        assert all[i] == docs[i];
      }
    }
  }

  /** The left fold `docs.inject { |acc, hash| ... }` over a non-empty list. */
  function Inject<V>(docs: seq<Table<V>>): (r: Table<V>)
    requires |docs| > 0
    ensures r.Keys == AllKeys(docs)
    decreases |docs|
  {
    if |docs| == 1 then
      assert forall k :: k in AllKeys(docs) ==> k in docs[0];
      docs[0]
    else
      var init := docs[..|docs| - 1];
      var last := docs[|docs| - 1];
      assert docs == init + [last];
      AllKeysSnoc(init, last);
      MergeTables(Inject(init), last)
  }

  /** `deep_hash_merge`: a one-element list yields its element unchanged, an
      empty list yields nothing (Ruby's `nil`), and a longer list is folded
      from the left. The merged keys are those of all documents. */
  function DeepHashMerge<V>(docs: seq<Table<V>>): (r: Option<Table<V>>)
    ensures r.None? <==> |docs| == 0
    ensures |docs| == 1 ==> r == Some(docs[0])
    ensures r.Some? ==> r.value.Keys == AllKeys(docs)
  {
    if |docs| == 0 then None
    else if |docs| == 1 then Some(docs[0])
    else Some(Inject(docs))
  }

  /** A key that only one document defines keeps that document's value. */
  lemma {:induction false} InjectSoleDefinition<V>(docs: seq<Table<V>>, j: nat, k: string)
    requires j < |docs| && k in docs[j]
    requires forall i :: 0 <= i < |docs| && i != j ==> k !in docs[i]
    ensures k in Inject(docs) && Inject(docs)[k] == docs[j][k]
    decreases |docs|
  {
    if |docs| > 1 {
      var init := docs[..|docs| - 1];
      var last := docs[|docs| - 1];
      if j < |docs| - 1 {
        InjectSoleDefinition(init, j, k);
      } else {
        assert k !in Inject(init) by {
          forall i | 0 <= i < |init| ensures k !in init[i] { assert init[i] == docs[i]; }
        }
      }
    }
  }

  /** When the last document defining a key holds a non-mapping value there,
      that value is the merged value, whatever earlier documents held. */
  lemma {:induction false} InjectLastLeafWins<V>(docs: seq<Table<V>>, j: nat, k: string)
    requires j < |docs| && k in docs[j] && !docs[j][k].Map?
    requires forall i :: j < i < |docs| ==> k !in docs[i]
    ensures k in Inject(docs) && Inject(docs)[k] == docs[j][k]
    decreases |docs|
  {
    if |docs| > 1 && j < |docs| - 1 {
      var init := docs[..|docs| - 1];
      InjectLastLeafWins(init, j, k);
    }
  }

  /** The whole-list form of the two lemmas above. */
  lemma DeepHashMergeKeyPrecedence<V>(docs: seq<Table<V>>, j: nat, k: string)
    requires j < |docs| && k in docs[j]
    requires forall i :: j < i < |docs| ==> k !in docs[i]
    requires !docs[j][k].Map? || forall i :: 0 <= i < j ==> k !in docs[i]
    ensures DeepHashMerge(docs).Some?
    ensures k in DeepHashMerge(docs).value && DeepHashMerge(docs).value[k] == docs[j][k]
  {
    if |docs| > 1 {
      if !docs[j][k].Map? {
        InjectLastLeafWins(docs, j, k);
      } else {
        InjectSoleDefinition(docs, j, k);
      }
    }
  }

  /** Merging a node with itself gives the node back. */
  lemma {:induction false} MergeNodesIdempotent<V>(n: Node<V>)
    ensures MergeNodes(n, n) == n
    decreases n
  {
    if n.Map? {
      forall k | k in n.entries ensures MergeNodes(n.entries[k], n.entries[k]) == n.entries[k] {
        MergeNodesIdempotent(n.entries[k]);
      }
      assert MergeNodes(n, n).entries == n.entries;
    }
  }

  /** Along any key path where the newer node has a leaf, the merged node has
      that same leaf: later documents win every leaf they define. */
  lemma {:induction false} MergeWalkNewerLeafWins<V>(older: Node<V>, newer: Node<V>, p: KeyPath)
    requires Walk(Some(newer), p).Some? && Walk(Some(newer), p).value.Leaf?
    ensures Walk(Some(MergeNodes(older, newer)), p) == Walk(Some(newer), p)
    decreases |p|
  {
    if |p| > 0 {
      if newer.Map? && p[0] in newer.entries {
        if older.Map? && p[0] in older.entries {
          MergeWalkNewerLeafWins(older.entries[p[0]], newer.entries[p[0]], p[1..]);
        }
      }
    }
  }

  /** `newer` leaves the path `p` open: along `p` it holds only mappings, and
      it stops defining the path before its end. */
  ghost predicate LeavesOpen<V>(newer: Node<V>, p: KeyPath)
    decreases |p|
  {
    |p| > 0 && newer.Map? &&
    (p[0] !in newer.entries || LeavesOpen(newer.entries[p[0]], p[1..]))
  }

  /** Whatever the older node holds along a path the newer node leaves open
      survives the merge. */
  lemma {:induction false} MergeWalkOlderSurvives<V>(older: Node<V>, newer: Node<V>, p: KeyPath)
    requires Walk(Some(older), p).Some?
    requires LeavesOpen(newer, p)
    ensures Walk(Some(MergeNodes(older, newer)), p) == Walk(Some(older), p)
    decreases |p|
  {
    if p[0] in newer.entries {
      MergeWalkOlderSurvives(older.entries[p[0]], newer.entries[p[0]], p[1..]);
    }
  }

  /** Order decides which leaf wins a conflict: {x:1, y:2} then {y:3, z:4}
      gives {x:1, y:3, z:4}, and the reverse order keeps y:2. */
  lemma PrecedenceExample()
    ensures DeepHashMerge([map["x" := Leaf(1), "y" := Leaf(2)], map["y" := Leaf(3), "z" := Leaf(4)]])
         == Some(map["x" := Leaf(1), "y" := Leaf(3), "z" := Leaf(4)])
    ensures DeepHashMerge([map["y" := Leaf(3), "z" := Leaf(4)], map["x" := Leaf(1), "y" := Leaf(2)]])
         == Some(map["x" := Leaf(1), "y" := Leaf(2), "z" := Leaf(4)])
  {
    var a: Table<int> := map["x" := Leaf(1), "y" := Leaf(2)];
    var b: Table<int> := map["y" := Leaf(3), "z" := Leaf(4)];
    assert [a, b][..1] == [a];
    assert [b, a][..1] == [b];
    assert MergeTables(a, b) == map["x" := Leaf(1), "y" := Leaf(3), "z" := Leaf(4)];
    assert MergeTables(b, a) == map["x" := Leaf(1), "y" := Leaf(2), "z" := Leaf(4)];
  }

  /** Three documents on which the order of merging matters. */
  function NestedY(): Table<int> { map["x" := Map(map["y" := Leaf(1)])] }
  function ScalarX(): Table<int> { map["x" := Leaf(2)] }
  function NestedZ(): Table<int> { map["x" := Map(map["z" := Leaf(3)])] }

  /** Merged as one flat list, {x:{y:1}}, {x:2}, {x:{z:3}} give {x:{z:3}}:
      the scalar cuts the nested mapping off before the last document. */
  lemma FlatMergeExample()
    ensures DeepHashMerge([NestedY(), ScalarX(), NestedZ()]) == Some(NestedZ())
  {
    var docs := [NestedY(), ScalarX(), NestedZ()];
    assert docs[..2] == [NestedY(), ScalarX()];
    assert docs[..2][..1] == [NestedY()];
    assert Inject([NestedY()]) == NestedY();
    assert MergeTables(NestedY(), ScalarX()) == ScalarX();
    assert Inject(docs[..2]) == ScalarX();
    assert MergeTables(ScalarX(), NestedZ()) == NestedZ();
    assert Inject(docs) == NestedZ();
  }

  /** The documents {x:{y:1}} and {x:{z:3}} under two paths merge
      recursively at x into {x:{y:1, z:3}}. */
  lemma NestedMergeExample()
    ensures DeepHashMerge([NestedY(), NestedZ()]) == Some(map["x" := Map(map["y" := Leaf(1), "z" := Leaf(3)])])
  {
    assert [NestedY(), NestedZ()][..1] == [NestedY()];
    assert Inject([NestedY()]) == NestedY();
    var inner := MergeNodes(NestedY()["x"], NestedZ()["x"]);
    assert inner.entries == map["y" := Leaf(1), "z" := Leaf(3)];
    assert MergeTables(NestedY(), NestedZ()) == map["x" := Map(map["y" := Leaf(1), "z" := Leaf(3)])];
  }

  /** Merging the documents of each path first and then the per-path results
      is a different operation: with [{x:{y:1}}] under one path and
      [{x:2}, {x:{z:3}}] under the next, the two-stage merge gives
      {x:{y:1, z:3}}, not the flat merge's {x:{z:3}}. The store merges the
      flat list. */
  lemma TwoStageMergeDiffers()
    ensures DeepHashMerge([DeepHashMerge([NestedY()]).value, DeepHashMerge([ScalarX(), NestedZ()]).value])
         == Some(map["x" := Map(map["y" := Leaf(1), "z" := Leaf(3)])])
    ensures DeepHashMerge([NestedY(), ScalarX(), NestedZ()]) != Some(map["x" := Map(map["y" := Leaf(1), "z" := Leaf(3)])])
  {
    assert DeepHashMerge([ScalarX(), NestedZ()]) == Some(NestedZ()) by {
      assert [ScalarX(), NestedZ()][..1] == [ScalarX()];
      assert Inject([ScalarX()]) == ScalarX();
      assert MergeTables(ScalarX(), NestedZ()) == NestedZ();
    }
    NestedMergeExample();
    FlatMergeExample();
    assert "y" !in NestedZ()["x"].entries;
  }
}
