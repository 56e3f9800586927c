/** Item detection (`detect_items`): find the element with the most direct
    children sharing one tag, and return those children as the records. */
module Detect {
  import opened Seqs
  import opened Tree

  function Max(a: nat, b: nat): nat {
    if a < b then b else a
  }

  /** The distinct tags of a list of children, in order of first occurrence:
      the key order of the source's per-parent `counts` dictionary. */
  function ChildTags(cs: seq<Node>): seq<string> {
    Dedup(Tags(cs))
  }

  /** The largest number of children of cs sharing one of the tags ts. */
  function MaxCount(cs: seq<Node>, ts: seq<string>): nat {
    if ts == [] then 0 else Max(MaxCount(cs, ts[..|ts| - 1]), Count(cs, ts[|ts| - 1]))
  }

  /** MaxCount bounds the count of every listed tag. */
  lemma {:induction false} MaxCountBound(cs: seq<Node>, ts: seq<string>, q: nat)
    requires q < |ts|
    ensures Count(cs, ts[q]) <= MaxCount(cs, ts)
  {
    if q < |ts| - 1 {
      assert ts[..|ts| - 1][q] == ts[q];
      MaxCountBound(cs, ts[..|ts| - 1], q);
    }
  }

  /** MaxCount is the count of some listed tag (when any is listed). */
  lemma {:induction false} MaxCountAttained(cs: seq<Node>, ts: seq<string>) returns (q: nat)
    requires ts != []
    ensures q < |ts| && Count(cs, ts[q]) == MaxCount(cs, ts)
  {
    var init := ts[..|ts| - 1];
    if init == [] || MaxCount(cs, init) <= Count(cs, ts[|ts| - 1]) {
      q := |ts| - 1;
    } else {
      q := MaxCountAttained(cs, init);
      assert init[q] == ts[q];
    }
  }

  /** The largest same-tag group among n's direct children (0 when it has none). */
  function Fanout(n: Node): nat {
    MaxCount(n.children, ChildTags(n.children))
  }

  /** The largest Fanout over a list of elements. */
  function MaxFanout(ns: seq<Node>): nat {
    if ns == [] then 0 else Max(MaxFanout(ns[..|ns| - 1]), Fanout(ns[|ns| - 1]))
  }

  /** MaxFanout bounds the Fanout of every listed element. */
  lemma {:induction false} MaxFanoutBound(ns: seq<Node>, i: nat)
    requires i < |ns|
    ensures Fanout(ns[i]) <= MaxFanout(ns)
  {
    if i < |ns| - 1 {
      assert ns[..|ns| - 1][i] == ns[i];
      MaxFanoutBound(ns[..|ns| - 1], i);
    }
  }

  /** Element i of the traversal ns, with its q-th distinct child tag, is the
      group the source keeps: it has m members, no earlier element has a
      group of m, and no tag before it in dictionary order has m children.
      The source replaces its best triple only on a strictly greater count. */
  ghost predicate Leads(ns: seq<Node>, i: nat, q: nat, m: nat) {
    && i < |ns|
    && q < |ChildTags(ns[i].children)|
    && Count(ns[i].children, ChildTags(ns[i].children)[q]) == m
    && (forall i' :: 0 <= i' < i ==> Fanout(ns[i']) < m)
    && (forall q' :: 0 <= q' < q ==> Count(ns[i].children, ChildTags(ns[i].children)[q']) < m)
  }

  /** (items, tag) is what `detect_items(root)` returns. When no element has
      children the source falls back to the root's children and tag;
      otherwise it returns the leading group's children. */
  ghost predicate IsDetection(root: Node, items: seq<Node>, tag: string) {
    var ns := PreOrder(root);
    var m := MaxFanout(ns);
    if m == 0 then items == root.children && tag == root.tag
    else exists i: nat, q: nat :: Leads(ns, i, q, m) && tag == ChildTags(ns[i].children)[q]
                        && items == WithTag(ns[i].children, tag)
  }

  /** counts holds each tag's number of children among cs, and no entry for an absent tag. */
  ghost predicate Counted(cs: seq<Node>, counts: map<string, nat>) {
    && (forall t :: t in counts ==> counts[t] == Count(cs, t))
    && (forall t :: t !in counts ==> Count(cs, t) == 0)
  }

  /** After k children of cs, `order` and `counts` are the source's
      `counts` dictionary: its keys in insertion order, and each key's count. */
  ghost predicate Tallied(cs: seq<Node>, k: nat, order: seq<string>, counts: map<string, nat>) {
    && k <= |cs|
    && order == ChildTags(cs[..k])
    && (forall t :: t in counts <==> t in order)
    && Counted(cs[..k], counts)
  }

  /** Counting one more child adds one to its tag's count. */
  lemma CountedStep(cs: seq<Node>, k: nat, counts: map<string, nat>, counts': map<string, nat>)
    requires k < |cs| && Counted(cs[..k], counts)
    requires counts' == counts[cs[k].tag := (if cs[k].tag in counts then counts[cs[k].tag] else 0) + 1]
    ensures Counted(cs[..k + 1], counts')
  {
    forall u ensures Count(cs[..k + 1], u) == Count(cs[..k], u) + (if cs[k].tag == u then 1 else 0) {
      CountSnoc(cs, k, u);
    }
  }

  /** A tag enters the dictionary's order when it is first counted. */
  lemma TagOrderStep(cs: seq<Node>, k: nat, order: seq<string>, counts: map<string, nat>,
                     order': seq<string>, counts': map<string, nat>)
    requires k < |cs| && order == ChildTags(cs[..k]) && (forall t :: t in counts <==> t in order)
    requires order' == if cs[k].tag in counts then order else order + [cs[k].tag]
    requires counts' == counts[cs[k].tag := (if cs[k].tag in counts then counts[cs[k].tag] else 0) + 1]
    ensures order' == ChildTags(cs[..k + 1])
    ensures forall t :: t in counts' <==> t in order'
  {
    TagsSnoc(cs, k);
    DedupSnoc(Tags(cs[..k]), cs[k].tag);
  }

  /** One child counted into the source's `counts` dictionary. */
  lemma TallyStep(cs: seq<Node>, k: nat, order: seq<string>, counts: map<string, nat>,
                  order': seq<string>, counts': map<string, nat>)
    requires k < |cs| && Tallied(cs, k, order, counts)
    requires order' == if cs[k].tag in counts then order else order + [cs[k].tag]
    requires counts' == counts[cs[k].tag := (if cs[k].tag in counts then counts[cs[k].tag] else 0) + 1]
    ensures Tallied(cs, k + 1, order', counts')
  {
    TagOrderStep(cs, k, order, counts, order', counts');
    CountedStep(cs, k, counts, counts');
  }

  /** The per-parent tally of `detect_items`: `counts[child.tag] =
      counts.get(child.tag, 0) + 1` over the children, with the
      dictionary's key order returned as `order`. */
  method CountTags(cs: seq<Node>) returns (order: seq<string>, counts: map<string, nat>)
    ensures order == ChildTags(cs)
    ensures forall t :: t in counts <==> t in order
    ensures forall t :: t in counts ==> counts[t] == Count(cs, t)
  {
    order, counts := [], map[];
    var k := 0;
    while k < |cs|
      invariant Tallied(cs, k, order, counts)
    {
      var t := cs[k].tag;
      // a key enters the dictionary's order when it is first set
      var order' := if t in counts then order else order + [t];
      var counts' := counts[t := (if t in counts then counts[t] else 0) + 1];
      TallyStep(cs, k, order, counts, order', counts');
      order, counts, k := order', counts', k + 1;
    }
    assert cs[..|cs|] == cs;
  }

  /** The source's `best` triple: (count, parent, tag), with None until a
      group has been seen. */
  datatype Best = Best(count: nat, parent: Option<Node>, tag: Option<string>)

  /** Leads, stated through the running maxima the loops maintain: every
      element before i, and every tag of element i before q, has a smaller
      group than m. */
  ghost predicate Ahead(ns: seq<Node>, i: nat, q: nat, m: nat) {
    && i < |ns|
    && q < |ChildTags(ns[i].children)|
    && Count(ns[i].children, ChildTags(ns[i].children)[q]) == m
    && MaxFanout(ns[..i]) < m
    && MaxCount(ns[i].children, ChildTags(ns[i].children)[..q]) < m
  }

  lemma AheadLeads(ns: seq<Node>, i: nat, q: nat, m: nat)
    requires Ahead(ns, i, q, m)
    ensures Leads(ns, i, q, m)
  {
    var cs := ns[i].children;
    var order := ChildTags(cs);
    forall i' | 0 <= i' < i ensures Fanout(ns[i']) < m {
      MaxFanoutBound(ns[..i], i');
      assert ns[..i][i'] == ns[i'];
    }
    forall q' | 0 <= q' < q ensures Count(cs, order[q']) < m {
      MaxCountBound(cs, order[..q], q');
      assert order[..q][q'] == order[q'];
    }
  }

  /** Offering the tags ts of parent p, in order, to the best triple: a tag
      replaces it only when its count is strictly greater. */
  function Offer(best: Best, p: Node, ts: seq<string>): Best {
    if ts == [] then best
    else
      var b := Offer(best, p, ts[..|ts| - 1]);
      var t := ts[|ts| - 1];
      var c := Count(p.children, t);
      if c > b.count then Best(c, Some(p), Some(t)) else b
  }

  /** The best triple after the outer loop has visited the elements ns. */
  function Scan(ns: seq<Node>): Best {
    if ns == [] then Best(0, None, None)
    else
      var p := ns[|ns| - 1];
      Offer(Scan(ns[..|ns| - 1]), p, ChildTags(p.children))
  }

  /** What `detect_items(root)` returns, read off the finished scan. */
  function Detection(root: Node): (seq<Node>, string) {
    var b := Scan(PreOrder(root));
    match (b.parent, b.tag)
    case (Some(p), Some(t)) => (WithTag(p.children, t), t)
    case _ => (root.children, root.tag)
  }

  /** Offering tags raises the count to the largest of theirs, and keeps
      "no tag yet" and "count 0" together. */
  lemma {:induction false} OfferCount(best: Best, p: Node, ts: seq<string>)
    ensures Offer(best, p, ts).count == Max(best.count, MaxCount(p.children, ts))
    ensures (best.tag.None? <==> best.count == 0) ==> (Offer(best, p, ts).tag.None? <==> Offer(best, p, ts).count == 0)
    ensures Offer(best, p, ts).count == best.count ==> Offer(best, p, ts) == best
  {
    if ts != [] {
      OfferCount(best, p, ts[..|ts| - 1]);
    }
  }

  /** When offering raises the count, the new triple is some tag's group, and
      every earlier tag, like the old best, had a smaller count. */
  lemma {:induction false} OfferWitness(best: Best, p: Node, ts: seq<string>) returns (q: nat)
    requires Offer(best, p, ts).count > best.count
    ensures q < |ts|
    ensures Offer(best, p, ts) == Best(Count(p.children, ts[q]), Some(p), Some(ts[q]))
    ensures Max(best.count, MaxCount(p.children, ts[..q])) < Count(p.children, ts[q])
  {
    var init := ts[..|ts| - 1];
    var b := Offer(best, p, init);
    OfferCount(best, p, init);
    if Count(p.children, ts[|ts| - 1]) > b.count {
      q := |ts| - 1;
    } else {
      q := OfferWitness(best, p, init);
      assert init[q] == ts[q];
      assert init[..q] == ts[..q];
    }
  }

  /** The scan computes the largest fanout, and when it is positive the kept
      triple is the leading group of element i's q-th tag. */
  lemma {:induction false} ScanLeads(ns: seq<Node>) returns (i: nat, q: nat)
    ensures Scan(ns).count == MaxFanout(ns)
    ensures Scan(ns).tag.None? <==> Scan(ns).count == 0
    ensures Scan(ns).count > 0 ==>
      && Ahead(ns, i, q, Scan(ns).count)
      && Scan(ns).parent == Some(ns[i])
      && Scan(ns).tag == Some(ChildTags(ns[i].children)[q])
  {
    i, q := 0, 0;
    if ns != [] {
      var init, p := ns[..|ns| - 1], ns[|ns| - 1];
      var i0, q0 := ScanLeads(init);
      var b := Scan(init);
      var order := ChildTags(p.children);
      OfferCount(b, p, order);
      if Offer(b, p, order).count > b.count {
        q := OfferWitness(b, p, order);
        i := |ns| - 1;
      } else {
        i, q := i0, q0;
        if b.count > 0 {
          assert ns[i] == init[i];
          assert ns[..i] == init[..i];
        }
      }
    }
  }

  /** The computed detection meets the description of `detect_items`. */
  lemma DetectionMeets(root: Node)
    ensures IsDetection(root, Detection(root).0, Detection(root).1)
  {
    var ns := PreOrder(root);
    var i, q := ScanLeads(ns);
    if Scan(ns).count > 0 {
      AheadLeads(ns, i, q, Scan(ns).count);
    }
  }

  /** One iteration of the outer loop of `detect_items`: tally the
      children of the element, then offer each tag, in the dictionary's
      order, to the best triple. */
  method ScanParent(parent: Node, best: Best) returns (best': Best)
    ensures best' == Offer(best, parent, ChildTags(parent.children))
  {
    var order, counts := CountTags(parent.children);
    best' := best;
    var q := 0;
    while q < |order|
      invariant q <= |order| && best' == Offer(best, parent, order[..q])
    {
      var t := order[q];
      var cnt := counts[t];
      if cnt > best'.count {
        best' := Best(cnt, Some(parent), Some(t));
      }
      assert order[..q + 1][..q] == order[..q];
      q := q + 1;
    }
    assert order[..q] == order;
  }

  /** The source's `detect_items`: one pass over `root.iter()` keeping the
      best (count, parent, tag), replaced only on a strictly greater count. */
  method DetectItems(root: Node) returns (items: seq<Node>, tag: string)
    ensures (items, tag) == Detection(root)
    ensures IsDetection(root, items, tag)
  {
    var nodes := PreOrder(root);
    var best := Best(0, None, None);
    var i := 0;
    while i < |nodes|
      invariant i <= |nodes| && best == Scan(nodes[..i])
    {
      best := ScanParent(nodes[i], best);
      assert nodes[..i + 1][..i] == nodes[..i];
      i := i + 1;
    }
    assert nodes[..i] == nodes;
    ghost var bi, bq := ScanLeads(nodes);
    if best.tag.None? {
      // fallback: the root's direct children
      items, tag := root.children, root.tag;
    } else {
      tag := best.tag.value;
      var parent := best.parent.value;
      items := WithTag(parent.children, tag);
    }
    DetectionMeets(root);
  }

  /** A tag with a positive count is the tag of some child. */
  lemma CountWitness(cs: seq<Node>, t: string) returns (j: nat)
    requires Count(cs, t) > 0
    ensures j < |cs| && cs[j].tag == t && t in Tags(cs)
  {
    CountIsLength(cs, t);
    WithTagMembers(cs, t);
    TagsAt(cs);
    var x := WithTag(cs, t)[0];
    assert x in WithTag(cs, t);
    j :| 0 <= j < |cs| && cs[j] == x;
    assert Tags(cs)[j] == t;
  }

  /** No tag has more of n's children than n's Fanout. */
  lemma FanoutBound(n: Node, t: string)
    ensures Count(n.children, t) <= Fanout(n)
  {
    var cs := n.children;
    if Count(cs, t) > 0 {
      var j := CountWitness(cs, t);
      DedupSpec(Tags(cs));
      assert t in ChildTags(cs);
      MaxCountBound(cs, ChildTags(cs), FirstIndex(ChildTags(cs), t));
    }
  }

  /** The largest group over the whole traversal bounds every element's groups. */
  lemma GroupBound(root: Node, p: Node, t: string)
    requires p in PreOrder(root)
    ensures Count(p.children, t) <= MaxFanout(PreOrder(root))
  {
    var ns := PreOrder(root);
    FanoutBound(p, t);
    MaxFanoutBound(ns, FirstIndex(ns, p));
  }

  /** The source falls back to the root's children exactly when no element
      of the tree has a child, i.e. when the root itself has none. */
  lemma FallbackOnlyWhenChildless(root: Node)
    ensures MaxFanout(PreOrder(root)) == 0 <==> root.children == []
  {
    var ns := PreOrder(root);
    if root.children != [] {
      CountPositive(root.children, 0);
      GroupBound(root, root, root.children[0].tag);
    } else {
      assert PreOrderAll(root.children) == [];
      assert ns == [root];
      assert ns[..0] == [];
    }
  }

  /** When the scan found a group, its element and tag are the leading ones. */
  lemma DetectionWitness(root: Node) returns (i: nat, q: nat)
    requires MaxFanout(PreOrder(root)) > 0
    ensures Leads(PreOrder(root), i, q, MaxFanout(PreOrder(root)))
    ensures Detection(root).1 == ChildTags(PreOrder(root)[i].children)[q]
    ensures Detection(root).0 == WithTag(PreOrder(root)[i].children, Detection(root).1)
  {
    var ns := PreOrder(root);
    i, q := ScanLeads(ns);
    AheadLeads(ns, i, q, Scan(ns).count);
  }

  /** The shape of the result of `detect_items`: children of one element
      of the tree, all with the returned tag, as many as the largest group
      anywhere, and empty exactly when the root has no children. */
  lemma DetectionShape(root: Node) returns (p: Node)
    ensures p in PreOrder(root)
    ensures Detection(root).0 == WithTag(p.children, Detection(root).1)
    ensures root.children != [] ==> forall x :: x in Detection(root).0 ==> x in p.children && x.tag == Detection(root).1
    ensures |Detection(root).0| == MaxFanout(PreOrder(root))
    ensures Detection(root).0 == [] <==> root.children == []
  {
    var ns := PreOrder(root);
    var (items, tag) := Detection(root);
    FallbackOnlyWhenChildless(root);
    if MaxFanout(ns) == 0 {
      var i, q := ScanLeads(ns);
      p := root;
      assert root.children == [];
    } else {
      var i, q := DetectionWitness(root);
      p := ns[i];
      WithTagMembers(p.children, tag);
      CountIsLength(p.children, tag);
    }
  }

  /** No element of the tree has more children with one tag than the
      detected item list holds. */
  lemma DetectionMaximal(root: Node, p: Node, t: string)
    requires p in PreOrder(root)
    ensures Count(p.children, t) <= |Detection(root).0|
  {
    GroupBound(root, p, t);
    var _ := DetectionShape(root);
  }

  /** Within one element, the tag at position q of the dictionary order,
      when no earlier tag reaches its count m, is the first tag in child
      order to reach m. */
  lemma FirstTagToReach(cs: seq<Node>, q: nat, m: nat)
    requires q < |ChildTags(cs)| && Count(cs, ChildTags(cs)[q]) == m
    requires forall q' :: 0 <= q' < q ==> Count(cs, ChildTags(cs)[q']) < m
    ensures ChildTags(cs)[q] in Tags(cs)
    ensures forall j :: 0 <= j < |cs| && Count(cs, cs[j].tag) == m ==> FirstIndex(Tags(cs), ChildTags(cs)[q]) <= j
  {
    var ts := Tags(cs);
    var ct := ChildTags(cs);
    assert ct == Dedup(ts);
    DedupSpec(ts);
    TagsAt(cs);
    forall j | 0 <= j < |cs| && Count(cs, cs[j].tag) == m
      ensures FirstIndex(ts, ct[q]) <= j
    {
      var u := cs[j].tag;
      assert ts[j] == u;
      var q' := FirstIndex(ct, u);
      assert ct[q'] == u;
      if q' > q {
        DedupFirstSeen(ts, q, q');
      } else {
        assert q' == q;
      }
    }
  }

  /** Ties go to the element first in document order, and within it to the
      tag whose first child comes first: the source keeps its best triple
      unless a count is strictly greater. */
  lemma DetectionTieBreak(root: Node) returns (i: nat, p: Node)
    requires root.children != []
    ensures i < |PreOrder(root)| && p == PreOrder(root)[i]
    ensures Detection(root).0 == WithTag(p.children, Detection(root).1)
    ensures forall i' :: 0 <= i' < i ==> Fanout(PreOrder(root)[i']) < |Detection(root).0|
    ensures Detection(root).1 in Tags(p.children)
    ensures forall j :: 0 <= j < |p.children| && Count(p.children, p.children[j].tag) == |Detection(root).0| ==> FirstIndex(Tags(p.children), Detection(root).1) <= j
  {
    var ns := PreOrder(root);
    FallbackOnlyWhenChildless(root);
    var q;
    i, q := DetectionWitness(root);
    p := ns[i];
    var _ := DetectionShape(root);
    FirstTagToReach(p.children, q, MaxFanout(ns));
  }

  /** The description of `detect_items` determines its result: two results
      that both meet it are equal. */
  lemma DetectionUnique(root: Node, a: seq<Node>, t: string, b: seq<Node>, u: string)
    requires IsDetection(root, a, t) && IsDetection(root, b, u)
    ensures a == b && t == u
  {
    var ns := PreOrder(root);
    var m := MaxFanout(ns);
    if m > 0 {
      var i: nat, q: nat :| Leads(ns, i, q, m) && t == ChildTags(ns[i].children)[q]
        && a == WithTag(ns[i].children, t);
      var i': nat, q': nat :| Leads(ns, i', q', m) && u == ChildTags(ns[i'].children)[q']
        && b == WithTag(ns[i'].children, u);
      FanoutBound(ns[i], t);
      FanoutBound(ns[i'], u);
      assert i == i';
      assert q == q';
    }
  }

  /** When no element has two children with the same tag, the source does
      not fall back: it returns the root's first child alone. */
  lemma NoRepeatPicksFirstChild(root: Node)
    requires root.children != []
    requires forall p, t :: p in PreOrder(root) ==> Count(p.children, t) <= 1
    ensures Detection(root) == ([root.children[0]], root.children[0].tag)
  {
    var cs := root.children;
    var items, tag := Detection(root).0, Detection(root).1;
    var i, p := DetectionTieBreak(root);
    CountIsLength(p.children, tag);
    assert |items| <= 1;
    OnlyChild(root, i);
    assert p == root;
    CountPositive(cs, 0);
    assert Count(cs, cs[0].tag) == 1 by {
      assert root in PreOrder(root);
    }
    GroupBound(root, root, cs[0].tag);
    var _ := DetectionShape(root);
    assert FirstIndex(Tags(cs), tag) == 0;
    TagsAt(cs);
    assert tag == cs[0].tag;
    WithTagMembers(cs, tag);
    assert cs[0] in items;
    Singleton(items, cs[0]);
    var d := Detection(root);
    assert d == (d.0, d.1);
  }

  /** Helper for the lemma above: once some group is found, a tie-broken
      element must be the root when the root has children and the group has size 1. */
  lemma OnlyChild(root: Node, i: nat)
    requires root.children != [] && i < |PreOrder(root)|
    requires forall i' :: 0 <= i' < i ==> Fanout(PreOrder(root)[i']) < 1
    ensures i == 0
  {
    if i > 0 {
      CountPositive(root.children, 0);
      FanoutBound(root, root.children[0].tag);
    }
  }
}
