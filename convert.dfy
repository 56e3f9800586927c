/** The converter's main flow on an already parsed document: choose the
    item elements (a forced tag, or detection), flatten each, and render
    the table. */
module Pipeline {
  import opened Seqs
  import opened Tree
  import opened Detect
  import opened Candidates
  import opened Flatten
  import opened Csv

  /** `[e for e in root.iter() if e.tag == t]`: every element of the tree
      tagged t, the root included, in document order. */
  function Forced(root: Node, t: string): seq<Node> {
    WithTag(PreOrder(root), t)
  }

  /** The items the converter processes: the forced tag's elements when a
      tag is given and found (an empty tag counts as none given), and
      otherwise the detected items. */
  function Select(root: Node, forceTag: string): seq<Node> {
    if forceTag != "" && Forced(root, forceTag) != [] then Forced(root, forceTag)
    else Detection(root).0
  }

  /** The flattened records of the items, in item order. */
  function Rows(items: seq<Node>): seq<Row> {
    seq(|items|, i requires 0 <= i < |items| => Merge(Leaves(items[i], "")))
  }

  /** One more item extends the records by its flattened record. */
  lemma RowsStep(items: seq<Node>, i: nat)
    requires i < |items|
    ensures Rows(items[..i + 1]) == Rows(items[..i]) + [Merge(Leaves(items[i], ""))]
  {
    assert items[..i + 1][..i] == items[..i];
  }

  /** A forced tag that is found selects exactly the elements of the tree
      with that tag. */
  lemma ForcedExact(root: Node, t: string)
    requires t != "" && Forced(root, t) != []
    ensures forall x :: x in Select(root, t) <==> x in PreOrder(root) && x.tag == t
  {
    WithTagMembers(PreOrder(root), t);
  }

  /** Without a forced tag, or when no element carries it, the converter
      falls back to detection. */
  lemma ForcedFallback(root: Node, t: string)
    requires t == "" || forall x :: x in PreOrder(root) ==> x.tag != t
    ensures Select(root, t) == Detection(root).0
  {
    if t != "" {
      WithTagNone(PreOrder(root), t);
    }
  }

  /** A root carrying the forced tag is itself the first item, before any
      descendant with the tag. */
  lemma ForcedRootFirst(root: Node, t: string)
    requires t != "" && root.tag == t
    ensures Select(root, t) == [root] + WithTag(PreOrderAll(root.children), t)
  {
    WithTagAppend([root], PreOrderAll(root.children), t);
    assert [root][..0] == [];
  }

  /** The selection step of the converter's main flow. */
  method SelectItems(root: Node, forceTag: string) returns (items: seq<Node>)
    ensures items == Select(root, forceTag)
  {
    var tag;
    if forceTag != "" {
      items := Forced(root, forceTag);
      if items == [] {
        // the tag was not found: detect automatically
        items, tag := DetectItems(root);
      }
    } else {
      items, tag := DetectItems(root);
    }
  }

  /** The converter's main flow after parsing: select, flatten every item,
      render. */
  method Convert(root: Node, forceTag: string) returns (t: Table)
    ensures t == Render(Rows(Select(root, forceTag)))
  {
    var items := SelectItems(root, forceTag);
    var rows: seq<Row> := [];
    var i := 0;
    while i < |items|
      invariant i <= |items| && rows == Rows(items[..i])
    {
      var flat := FlattenItem(items[i]);
      RowsStep(items, i);
      rows := rows + [flat];
      i := i + 1;
    }
    assert items[..i] == items;
    t := WriteCsv(rows);
  }

  /** The table has one line per selected item; it is the `no_data` table
      exactly when nothing was selected. */
  lemma OneLinePerItem(root: Node, forceTag: string)
    ensures |Render(Rows(Select(root, forceTag))).body| == |Select(root, forceTag)|
    ensures Select(root, forceTag) == [] ==> Render(Rows(Select(root, forceTag))).header == ["no_data"]
  {
  }

  /** Without a forced tag, the converter writes the `no_data` table exactly
      when the root has no children. */
  lemma NoDataWhenChildless(root: Node)
    ensures Select(root, "") == [] <==> root.children == []
  {
    var _ := DetectionShape(root);
  }
}
