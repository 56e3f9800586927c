/** The parsed XML tree the converter works on, as an immutable value:
    the shape of an ElementTree element, reduced to what the converter reads. */
module Tree {
  import opened Strings

  datatype Option<T> = None | Some(value: T)

  /** One element: its tag, its attributes in document order, its direct
      text (absent or a string), and its child elements in source order. */
  datatype Node = Node(tag: string, attrs: seq<(string, string)>, text: Option<string>, children: seq<Node>)

  /** The element's direct text, stripped; "" when there is none. */
  function TextOf(n: Node): string {
    match n.text
    case None => ""
    case Some(t) => Trim(t)
  }

  /** The tags of a list of elements, position by position. */
  function Tags(ns: seq<Node>): seq<string> {
    if ns == [] then [] else Tags(ns[..|ns| - 1]) + [ns[|ns| - 1].tag]
  }

  /** Tags(ns) lists ns's tags position by position. */
  lemma {:induction false} TagsAt(ns: seq<Node>)
    ensures |Tags(ns)| == |ns|
    ensures forall j :: 0 <= j < |ns| ==> Tags(ns)[j] == ns[j].tag
  {
    if ns != [] {
      TagsAt(ns[..|ns| - 1]);
    }
  }

  /** One more element adds its tag at the end. */
  lemma TagsSnoc(ns: seq<Node>, k: nat)
    requires k < |ns|
    ensures Tags(ns[..k + 1]) == Tags(ns[..k]) + [ns[k].tag]
  {
    assert ns[..k + 1][..k] == ns[..k];
  }

  /** The elements of ns whose tag is t, in their order in ns. */
  function WithTag(ns: seq<Node>, t: string): seq<Node> {
    if ns == [] then []
    else WithTag(ns[..|ns| - 1], t) + (if ns[|ns| - 1].tag == t then [ns[|ns| - 1]] else [])
  }

  /** WithTag keeps exactly the elements with tag t. */
  lemma {:induction false} WithTagMembers(ns: seq<Node>, t: string)
    ensures forall n :: n in WithTag(ns, t) <==> n in ns && n.tag == t
  {
    if ns != [] {
      WithTagMembers(ns[..|ns| - 1], t);
      assert ns == ns[..|ns| - 1] + [ns[|ns| - 1]];
    }
  }

  /** With no element tagged t, the filter is empty. */
  lemma {:induction false} WithTagNone(ns: seq<Node>, t: string)
    requires forall n :: n in ns ==> n.tag != t
    ensures WithTag(ns, t) == []
  {
    if ns != [] {
      var init := ns[..|ns| - 1];
      assert forall n :: n in init ==> n in ns;
      WithTagNone(init, t);
      assert ns[|ns| - 1] in ns;
    }
  }

  /** How many elements of ns have tag t. */
  function Count(ns: seq<Node>, t: string): nat {
    if ns == [] then 0 else Count(ns[..|ns| - 1], t) + (if ns[|ns| - 1].tag == t then 1 else 0)
  }

  /** Count is the length of the WithTag filter. */
  lemma {:induction false} CountIsLength(ns: seq<Node>, t: string)
    ensures Count(ns, t) == |WithTag(ns, t)|
  {
    if ns != [] {
      CountIsLength(ns[..|ns| - 1], t);
    }
  }

  /** Counting over one more element adds one exactly when its tag matches. */
  lemma CountSnoc(ns: seq<Node>, k: nat, t: string)
    requires k < |ns|
    ensures Count(ns[..k + 1], t) == Count(ns[..k], t) + (if ns[k].tag == t then 1 else 0)
  {
    assert ns[..k + 1][..k] == ns[..k];
  }

  /** Filtering distributes over concatenation, so it keeps the relative order of the kept elements. */
  lemma {:induction false} WithTagAppend(a: seq<Node>, b: seq<Node>, t: string)
    ensures WithTag(a + b, t) == WithTag(a, t) + WithTag(b, t)
  {
    if b != [] {
      var init := b[..|b| - 1];
      assert (a + b)[..|a + b| - 1] == a + init;
      WithTagAppend(a, init, t);
    } else {
      assert a + b == a;
    }
  }

  /** An element whose tag is t is counted among the elements with tag t. */
  lemma CountPositive(ns: seq<Node>, j: nat)
    requires j < |ns|
    ensures Count(ns, ns[j].tag) >= 1
  {
    WithTagMembers(ns, ns[j].tag);
    CountIsLength(ns, ns[j].tag);
    assert ns[j] in WithTag(ns, ns[j].tag);
  }

  /** ElementTree's `root.iter()`: the element itself, then each child's
      subtree in source order (document order, pre-order). */
  function PreOrder(n: Node): (r: seq<Node>)
    ensures r != [] && r[0] == n
  {
    [n] + PreOrderAll(n.children)
  }

  /** The pre-order traversals of a list of sibling subtrees, one after the other. */
  function PreOrderAll(ns: seq<Node>): seq<Node> {
    if ns == [] then [] else PreOrder(ns[0]) + PreOrderAll(ns[1..])
  }

  /** Every child of a traversed element is traversed too, so the traversal
      reaches every element of the tree. */
  lemma {:induction false} PreOrderClosed(root: Node, p: Node, j: nat)
    requires p in PreOrder(root) && j < |p.children|
    ensures p.children[j] in PreOrder(root)
  {
    if p == root {
      PreOrderAllHas(root.children, j);
    } else {
      var k := PreOrderAllFind(root.children, p);
      PreOrderClosed(root.children[k], p, j);
      PreOrderAllSub(root.children, k);
    }
  }

  /** The traversal of a sibling list contains the k-th sibling. */
  lemma {:induction false} PreOrderAllHas(ns: seq<Node>, k: nat)
    requires k < |ns|
    ensures ns[k] in PreOrderAll(ns)
  {
    if k > 0 {
      PreOrderAllHas(ns[1..], k - 1);
    }
  }

  /** The traversal of a sibling list contains the k-th sibling's whole traversal. */
  lemma {:induction false} PreOrderAllSub(ns: seq<Node>, k: nat)
    requires k < |ns|
    ensures forall x :: x in PreOrder(ns[k]) ==> x in PreOrderAll(ns)
  {
    if k > 0 {
      PreOrderAllSub(ns[1..], k - 1);
    }
  }

  /** An element of a sibling list's traversal lies in one sibling's traversal. */
  lemma {:induction false} PreOrderAllFind(ns: seq<Node>, x: Node) returns (k: nat)
    requires x in PreOrderAll(ns)
    ensures k < |ns| && x in PreOrder(ns[k])
  {
    if x in PreOrder(ns[0]) {
      k := 0;
    } else {
      var k' := PreOrderAllFind(ns[1..], x);
      k := k' + 1;
    }
  }
}
