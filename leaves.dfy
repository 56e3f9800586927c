/** Leaf extraction (`iter_leaves`): the (key, value) candidates an element
    contributes to its record, in the order the source's generator yields them. */
module Candidates {
  import opened Strings
  import opened Tree

  /** A non-empty value without leading or trailing whitespace: what stripping
      a non-blank string gives. */
  predicate Stripped(v: string) {
    v != "" && !IsWhitespace(v[0]) && !IsWhitespace(v[|v| - 1])
  }

  /** The prefix handed to the children of an element tagged tag: the tag and
      an underscore are appended, unless the tag is empty. */
  function ChildPrefix(prefix: string, tag: string): string {
    if tag != "" then prefix + tag + "_" else prefix
  }

  /** The attribute candidates: for each attribute in document order, the key
      base + name with the stripped value, skipped when that value is blank. */
  function AttrLeaves(base: string, attrs: seq<(string, string)>): seq<(string, string)> {
    if attrs == [] then []
    else
      var a := attrs[|attrs| - 1];
      AttrLeaves(base, attrs[..|attrs| - 1]) + (if Trim(a.1) != "" then [(base + a.0, Trim(a.1))] else [])
  }

  /** The text candidate of a childless element: its key is prefix + tag,
      and there is none when the stripped text is empty. */
  function TextLeaf(n: Node, prefix: string): seq<(string, string)> {
    if TextOf(n) != "" then [(prefix + n.tag, TextOf(n))] else []
  }

  /** `iter_leaves(n, prefix)`: the attribute candidates, then either the
      text candidate (no children) or the children's candidates under the
      extended prefix; the text of an element with children is ignored. */
  function Leaves(n: Node, prefix: string): seq<(string, string)> {
    AttrLeaves(prefix + n.tag + "@", n.attrs)
    + if n.children == [] then TextLeaf(n, prefix) else ChildLeaves(n.children, ChildPrefix(prefix, n.tag))
  }

  /** The candidates of a list of siblings, one after the other. */
  function ChildLeaves(cs: seq<Node>, prefix: string): seq<(string, string)> {
    if cs == [] then [] else Leaves(cs[0], prefix) + ChildLeaves(cs[1..], prefix)
  }

  /** Stripping a non-blank string gives a stripped value. */
  lemma TrimStripped(v: string)
    requires Trim(v) != ""
    ensures Stripped(Trim(v))
  {
    TrimEnds(v);
  }

  /** Attribute keys start with base; attribute values are stripped and non-empty. */
  lemma {:induction false} AttrLeavesShape(base: string, attrs: seq<(string, string)>)
    ensures forall e :: e in AttrLeaves(base, attrs) ==> base <= e.0 && Stripped(e.1)
  {
    if attrs != [] {
      AttrLeavesShape(base, attrs[..|attrs| - 1]);
      var v := attrs[|attrs| - 1].1;
      if Trim(v) != "" {
        TrimStripped(v);
      }
    }
  }

  /** Every candidate of n has a key starting with prefix + n.tag and a
      stripped, non-empty value. */
  lemma {:induction false} LeavesShape(n: Node, prefix: string)
    ensures forall e :: e in Leaves(n, prefix) ==> prefix + n.tag <= e.0 && Stripped(e.1)
  {
    var head := prefix + n.tag;
    var base := head + "@";
    AttrLeavesShape(base, n.attrs);
    forall e | e in AttrLeaves(base, n.attrs) ensures head <= e.0 {
      PrefixTrans(head, base, e.0);
    }
    if n.children == [] {
      if TextOf(n) != "" {
        match n.text
        case Some(t) => TrimStripped(t);
        case None =>
      }
    } else {
      var p := ChildPrefix(prefix, n.tag);
      ChildLeavesShape(n.children, p);
      forall e | e in ChildLeaves(n.children, p) ensures head <= e.0 {
        assert head <= p;
        PrefixTrans(head, p, e.0);
      }
    }
  }

  /** Every candidate of a sibling list has a key starting with prefix and
      a stripped, non-empty value. */
  lemma {:induction false} ChildLeavesShape(cs: seq<Node>, prefix: string)
    ensures forall e :: e in ChildLeaves(cs, prefix) ==> prefix <= e.0 && Stripped(e.1)
  {
    if cs != [] {
      LeavesShape(cs[0], prefix);
      ChildLeavesShape(cs[1..], prefix);
      forall e | e in Leaves(cs[0], prefix) ensures prefix <= e.0 {
        PrefixTrans(prefix, prefix + cs[0].tag, e.0);
      }
    }
  }

  lemma PrefixTrans(a: string, b: string, c: string)
    requires a <= b && b <= c
    ensures a <= c
  {
    assert c[..|a|] == b[..|a|];
  }

  /** A non-blank attribute is a candidate. */
  lemma {:induction false} AttrKept(base: string, attrs: seq<(string, string)>, j: nat)
    requires j < |attrs| && Trim(attrs[j].1) != ""
    ensures (base + attrs[j].0, Trim(attrs[j].1)) in AttrLeaves(base, attrs)
  {
    if j < |attrs| - 1 {
      var init := attrs[..|attrs| - 1];
      assert init[j] == attrs[j];
      AttrKept(base, init, j);
    }
  }

  /** Every attribute candidate comes from a non-blank attribute. */
  lemma {:induction false} AttrSource(base: string, attrs: seq<(string, string)>, e: (string, string)) returns (j: nat)
    requires e in AttrLeaves(base, attrs)
    ensures j < |attrs| && e == (base + attrs[j].0, Trim(attrs[j].1)) && !IsBlank(attrs[j].1)
  {
    var init := attrs[..|attrs| - 1];
    if e in AttrLeaves(base, init) {
      j := AttrSource(base, init, e);
      assert init[j] == attrs[j];
    } else {
      j := |attrs| - 1;
      TrimBlank(attrs[j].1);
    }
  }

  /** An attribute of n yields the candidate (prefix + tag + "@" + name,
      stripped value) exactly when its value is not blank. */
  lemma AttributeCandidate(n: Node, prefix: string, j: nat)
    requires j < |n.attrs|
    ensures (prefix + n.tag + "@" + n.attrs[j].0, Trim(n.attrs[j].1)) in Leaves(n, prefix)
            <==> !IsBlank(n.attrs[j].1)
  {
    var v := n.attrs[j].1;
    TrimBlank(v);
    LeavesShape(n, prefix);
    if Trim(v) != "" {
      AttrKept(prefix + n.tag + "@", n.attrs, j);
    }
  }

  /** A childless element yields the candidate (prefix + tag, stripped text)
      exactly when its stripped text is not empty. */
  lemma TextCandidate(n: Node, prefix: string)
    requires n.children == []
    ensures (prefix + n.tag, TextOf(n)) in Leaves(n, prefix) <==> TextOf(n) != ""
  {
    LeavesShape(n, prefix);
  }

  /** The key prefix + tag belongs to the element's own text: it never
      appears for an element with children, and for a childless element it
      carries the stripped text. */
  lemma OwnKey(n: Node, prefix: string)
    requires n.tag != ""
    ensures forall e :: e in Leaves(n, prefix) && e.0 == prefix + n.tag ==> n.children == [] && e.1 == TextOf(n)
  {
    var head := prefix + n.tag;
    var base := head + "@";
    AttrLeavesShape(base, n.attrs);
    forall e | e in AttrLeaves(base, n.attrs) ensures e.0 != head {
      assert |e.0| >= |base|;
    }
    if n.children != [] {
      var p := ChildPrefix(prefix, n.tag);
      ChildLeavesShape(n.children, p);
      forall e | e in ChildLeaves(n.children, p) ensures e.0 != head {
        assert |e.0| >= |p|;
      }
    }
  }

  /** The candidates with prefix p prepended to every key. */
  function Prefixed(p: string, es: seq<(string, string)>): seq<(string, string)> {
    if es == [] then [] else [(p + es[0].0, es[0].1)] + Prefixed(p, es[1..])
  }

  lemma {:induction false} PrefixedAppend(p: string, a: seq<(string, string)>, b: seq<(string, string)>)
    ensures Prefixed(p, a + b) == Prefixed(p, a) + Prefixed(p, b)
  {
    if a != [] {
      assert (a + b)[1..] == a[1..] + b;
      PrefixedAppend(p, a[1..], b);
    } else {
      assert a + b == b;
    }
  }

  lemma {:induction false} AttrLeavesShift(p: string, base: string, attrs: seq<(string, string)>)
    ensures AttrLeaves(p + base, attrs) == Prefixed(p, AttrLeaves(base, attrs))
  {
    if attrs != [] {
      var init := attrs[..|attrs| - 1];
      var a := attrs[|attrs| - 1];
      AttrLeavesShift(p, base, init);
      var last := if Trim(a.1) != "" then [(base + a.0, Trim(a.1))] else [];
      PrefixedAppend(p, AttrLeaves(base, init), last);
      assert p + base + a.0 == p + (base + a.0);
    }
  }

  /** The prefix only ever prepends: the candidates under prefix p + q are
      those under q with p in front of every key. */
  lemma {:induction false} LeavesShift(n: Node, p: string, q: string)
    ensures Leaves(n, p + q) == Prefixed(p, Leaves(n, q))
  {
    assert p + q + n.tag + "@" == p + (q + n.tag + "@");
    AttrLeavesShift(p, q + n.tag + "@", n.attrs);
    var rest := if n.children == [] then TextLeaf(n, q) else ChildLeaves(n.children, ChildPrefix(q, n.tag));
    PrefixedAppend(p, AttrLeaves(q + n.tag + "@", n.attrs), rest);
    if n.children == [] {
      assert p + q + n.tag == p + (q + n.tag);
    } else {
      assert ChildPrefix(p + q, n.tag) == p + ChildPrefix(q, n.tag);
      ChildLeavesShift(n.children, p, ChildPrefix(q, n.tag));
    }
  }

  lemma {:induction false} ChildLeavesShift(cs: seq<Node>, p: string, q: string)
    ensures ChildLeaves(cs, p + q) == Prefixed(p, ChildLeaves(cs, q))
  {
    if cs != [] {
      LeavesShift(cs[0], p, q);
      ChildLeavesShift(cs[1..], p, q);
      PrefixedAppend(p, Leaves(cs[0], q), ChildLeaves(cs[1..], q));
    }
  }

  /** A nested record: the item's own tag and every ancestor tag in between
      are part of the key, joined with underscores. */
  lemma NestedKeyExample()
    ensures Leaves(Node("offer", [], None, [Node("seller", [], None, [Node("name", [], Some(" Acme "), [])])]), "")
            == [("offer_seller_name", "Acme")]
  {
    var name := Node("name", [], Some(" Acme "), []);
    var seller := Node("seller", [], None, [name]);
    var offer := Node("offer", [], None, [seller]);
    var leaf := [("offer_seller_name", "Acme")];
    assert TrimStart(" Acme ") == "Acme ";
    assert TrimEnd("Acme ") == "Acme";
    assert TextOf(name) == "Acme";
    assert "offer_seller_" + "name" == "offer_seller_name";
    assert TextLeaf(name, "offer_seller_") == leaf;
    assert Leaves(name, "offer_seller_") == leaf;
    assert ChildLeaves([name], "offer_seller_") == leaf;
    assert ChildPrefix("offer_", "seller") == "offer_seller_";
    assert Leaves(seller, "offer_") == leaf;
    assert ChildLeaves([seller], "offer_") == leaf;
    assert ChildPrefix("", "offer") == "offer_";
    assert Leaves(offer, "") == leaf;
  }

  /** A childless element with an attribute yields the attribute first,
      then its text; a blank attribute yields nothing. */
  lemma AttributeExample()
    ensures Leaves(Node("price", [("currency", "PLN"), ("note", "  ")], Some("10"), []), "")
            == [("price@currency", "PLN"), ("price", "10")]
  {
    var attrs := [("currency", "PLN"), ("note", "  ")];
    assert Trim("PLN") == "PLN";
    assert TrimStart("  ") == "";
    assert Trim("  ") == "";
    assert Trim("10") == "10";
    assert attrs[..1] == [("currency", "PLN")];
    assert attrs[..1][..0] == [];
    assert "" + "price" + "@" == "price@";
    assert "price@" + "currency" == "price@currency";
    assert "" + "price" == "price";
    assert AttrLeaves("price@", attrs[..1]) == [("price@currency", "PLN")];
    assert AttrLeaves("price@", attrs) == [("price@currency", "PLN")];
  }
}
