/** Record flattening (`flatten_item`): group an element's candidates by key,
    drop repeated values per key, and join what is left with " | ". */
module Flatten {
  import opened Seqs
  import opened Strings
  import opened Tree
  import opened Candidates

  /** A record as the source's dictionary: (key, value) pairs in key
      insertion order. */
  type Row = seq<(string, string)>

  /** The separator multi-valued fields are joined with. */
  const Separator: string := " | "

  /** The keys of a list of pairs, in order, repeats included. */
  function Keys(es: seq<(string, string)>): seq<string> {
    if es == [] then [] else Keys(es[..|es| - 1]) + [es[|es| - 1].0]
  }

  /** The values paired with key k, in order: the source's `bucket[k]`. */
  function ValuesFor(es: seq<(string, string)>, k: string): seq<string> {
    if es == [] then []
    else ValuesFor(es[..|es| - 1], k) + (if es[|es| - 1].0 == k then [es[|es| - 1].1] else [])
  }

  /** A key's merged value: its distinct values in first-seen order, joined. */
  function MergeValues(vals: seq<string>): string {
    Join(Dedup(vals), Separator)
  }

  /** The merged entries of the keys ks, in the order of ks. */
  function MergeKeys(es: seq<(string, string)>, ks: seq<string>): Row {
    if ks == [] then []
    else
      var k := ks[|ks| - 1];
      MergeKeys(es, ks[..|ks| - 1]) + [(k, MergeValues(ValuesFor(es, k)))]
  }

  /** The dictionary `flatten_item` builds from the candidates es: one entry
      per distinct key, in first-seen order. */
  function Merge(es: seq<(string, string)>): Row {
    MergeKeys(es, Dedup(Keys(es)))
  }

  /** `row.get(k)`: the value bound to k, or None. */
  function Lookup(r: Row, k: string): Option<string> {
    if r == [] then None
    else if r[|r| - 1].0 == k then Some(r[|r| - 1].1)
    else Lookup(r[..|r| - 1], k)
  }

  /** One more pair extends the key list by its key. */
  lemma KeysSnoc(es: seq<(string, string)>, k: nat)
    requires k < |es|
    ensures Keys(es[..k + 1]) == Keys(es[..k]) + [es[k].0]
  {
    assert es[..k + 1][..k] == es[..k];
  }

  /** One more pair extends exactly its own key's values. */
  lemma ValuesSnoc(es: seq<(string, string)>, k: nat, t: string)
    requires k < |es|
    ensures ValuesFor(es[..k + 1], t) == ValuesFor(es[..k], t) + (if es[k].0 == t then [es[k].1] else [])
  {
    assert es[..k + 1][..k] == es[..k];
  }

  /** A key's values are exactly the values paired with it. */
  lemma {:induction false} ValuesForMembers(es: seq<(string, string)>, k: string)
    ensures forall v :: v in ValuesFor(es, k) <==> (k, v) in es
  {
    if es != [] {
      var init := es[..|es| - 1];
      ValuesForMembers(init, k);
      assert es == init + [es[|es| - 1]];
    }
  }

  /** The keys of pairs are exactly the first components. */
  lemma {:induction false} KeysMembers(es: seq<(string, string)>)
    ensures forall k :: k in Keys(es) <==> exists v :: (k, v) in es
  {
    if es != [] {
      var init := es[..|es| - 1];
      KeysMembers(init);
      assert es == init + [es[|es| - 1]];
      forall k | k in Keys(es) ensures exists v :: (k, v) in es {
        if k in Keys(init) {
          var v :| (k, v) in init;
          assert (k, v) in es;
        } else {
          assert (k, es[|es| - 1].1) == es[|es| - 1];
        }
      }
    }
  }

  /** The keys of the merged entries are the keys they were built from. */
  lemma {:induction false} MergeKeysKeys(es: seq<(string, string)>, ks: seq<string>)
    ensures Keys(MergeKeys(es, ks)) == ks
  {
    if ks != [] {
      var r := MergeKeys(es, ks[..|ks| - 1]);
      MergeKeysKeys(es, ks[..|ks| - 1]);
      var e := (ks[|ks| - 1], MergeValues(ValuesFor(es, ks[|ks| - 1])));
      assert (r + [e])[..|r|] == r;
    }
  }

  /** Looking a key up in the merged entries finds its merged value. */
  lemma {:induction false} MergeKeysLookup(es: seq<(string, string)>, ks: seq<string>, k: string)
    ensures k in ks ==> Lookup(MergeKeys(es, ks), k) == Some(MergeValues(ValuesFor(es, k)))
    ensures k !in ks ==> Lookup(MergeKeys(es, ks), k) == None
  {
    if ks != [] {
      var init := ks[..|ks| - 1];
      MergeKeysLookup(es, init, k);
      var r := MergeKeys(es, init);
      var e := (ks[|ks| - 1], MergeValues(ValuesFor(es, ks[|ks| - 1])));
      assert (r + [e])[..|r|] == r;
      assert ks == init + [ks[|ks| - 1]];
    }
  }

  /** The flattened record has one entry per distinct key, in the order the
      keys first occur among the candidates. */
  lemma MergeKeyOrder(es: seq<(string, string)>)
    ensures Keys(Merge(es)) == Dedup(Keys(es))
    ensures NoDups(Keys(Merge(es)))
    ensures forall k :: k in Keys(Merge(es)) <==> k in Keys(es)
  {
    MergeKeysKeys(es, Dedup(Keys(es)));
    DedupSpec(Keys(es));
  }

  /** Each candidate key maps to the join of its distinct values; any other
      key is absent. */
  lemma MergeLookup(es: seq<(string, string)>, k: string)
    ensures k in Keys(es) ==> Lookup(Merge(es), k) == Some(MergeValues(ValuesFor(es, k)))
    ensures k !in Keys(es) ==> Lookup(Merge(es), k) == None
  {
    DedupSpec(Keys(es));
    MergeKeysLookup(es, Dedup(Keys(es)), k);
  }

  /** A key whose values are all the same value v keeps v unchanged. */
  lemma {:induction false} MergeSingle(vals: seq<string>, v: string)
    requires vals != [] && forall x :: x in vals ==> x == v
    ensures MergeValues(vals) == v
  {
    DedupSpec(vals);
    SameValueOnce(vals, v);
    var d := Dedup(vals);
    assert d[0] in vals;
    assert d == [d[0]];
  }

  /** A sequence holding only v keeps at most one element after Dedup. */
  lemma {:induction false} SameValueOnce(vals: seq<string>, v: string)
    requires forall x :: x in vals ==> x == v
    ensures |Dedup(vals)| <= 1
    ensures Dedup(vals) != [] ==> Dedup(vals)[0] == v
  {
    if vals != [] {
      var init := vals[..|vals| - 1];
      assert forall x :: x in init ==> x in vals;
      SameValueOnce(init, v);
      assert vals[|vals| - 1] in vals;
    }
  }

  /** A key with at least one non-empty value merges to a non-empty string. */
  lemma MergeNonEmpty(vals: seq<string>)
    requires vals != [] && forall x :: x in vals ==> x != ""
    ensures MergeValues(vals) != ""
  {
    DedupSpec(vals);
    var d := Dedup(vals);
    assert d[0] in vals;
    JoinStartsWithFirst(d, Separator);
  }

  /** Repeated values are kept once, at their first occurrence. */
  lemma MergeExample()
    ensures MergeValues(["a", "b", "a"]) == "a | b"
  {
    var s := ["a", "b", "a"];
    assert s[..1] == ["a"] && s[..2] == ["a", "b"];
    assert s[..1][..0] == [] && s[..2][..1] == ["a"];
    assert Dedup(s[..1]) == ["a"];
    assert Dedup(s[..2]) == ["a", "b"];
    assert Dedup(s) == ["a", "b"];
    assert Join(["a", "b"], Separator) == "a" + " | " + "b";
  }

  /** Every value of a flattened record is non-empty. */
  lemma FlatValuesNonEmpty(elem: Node, k: string)
    ensures Lookup(Merge(Leaves(elem, "")), k) != Some("")
  {
    var es := Leaves(elem, "");
    MergeLookup(es, k);
    if k in Keys(es) {
      LeavesShape(elem, "");
      ValuesForMembers(es, k);
      KeysMembers(es);
      var v :| (k, v) in es;
      assert v in ValuesFor(es, k);
      MergeNonEmpty(ValuesFor(es, k));
    }
  }

  /** Every key of a flattened record starts with the item's own tag. */
  lemma FlatKeysStartWithTag(elem: Node)
    ensures forall k :: k in Keys(Merge(Leaves(elem, ""))) ==> elem.tag <= k
  {
    var es := Leaves(elem, "");
    MergeKeyOrder(es);
    LeavesShape(elem, "");
    KeysMembers(es);
    assert "" + elem.tag == elem.tag;
  }

  /** bucket holds each key's values among the pairs ps, and no list for a key without values. */
  ghost predicate Holds(ps: seq<(string, string)>, bucket: map<string, seq<string>>) {
    && (forall t :: t in bucket ==> bucket[t] == ValuesFor(ps, t))
    && (forall t :: t !in bucket ==> ValuesFor(ps, t) == [])
  }

  /** After k candidates, `order` and `bucket` are the source's `bucket`
      dictionary: its keys in insertion order, and each key's values. */
  ghost predicate Bucketed(es: seq<(string, string)>, k: nat, order: seq<string>, bucket: map<string, seq<string>>) {
    && k <= |es|
    && order == Dedup(Keys(es[..k]))
    && (forall t :: t in bucket <==> t in order)
    && Holds(es[..k], bucket)
  }

  /** Appending a pair's value to its key's list keeps the lists faithful. */
  lemma HoldsStep(es: seq<(string, string)>, k: nat, bucket: map<string, seq<string>>, bucket': map<string, seq<string>>)
    requires k < |es| && Holds(es[..k], bucket)
    requires bucket' == bucket[es[k].0 := (if es[k].0 in bucket then bucket[es[k].0] else []) + [es[k].1]]
    ensures Holds(es[..k + 1], bucket')
  {
    forall u ensures ValuesFor(es[..k + 1], u) == ValuesFor(es[..k], u) + (if es[k].0 == u then [es[k].1] else []) {
      ValuesSnoc(es, k, u);
    }
  }

  /** A key enters the order the first time it is appended to. */
  lemma OrderStep(es: seq<(string, string)>, k: nat, order: seq<string>, bucket: map<string, seq<string>>,
                  order': seq<string>, bucket': map<string, seq<string>>)
    requires k < |es| && order == Dedup(Keys(es[..k])) && (forall t :: t in bucket <==> t in order)
    requires order' == if es[k].0 in bucket then order else order + [es[k].0]
    requires bucket' == bucket[es[k].0 := (if es[k].0 in bucket then bucket[es[k].0] else []) + [es[k].1]]
    ensures order' == Dedup(Keys(es[..k + 1]))
    ensures forall t :: t in bucket' <==> t in order'
  {
    KeysSnoc(es, k);
    DedupSnoc(Keys(es[..k]), es[k].0);
  }

  /** One candidate appended to the source's `bucket` dictionary. */
  lemma BucketStep(es: seq<(string, string)>, k: nat, order: seq<string>, bucket: map<string, seq<string>>,
                   order': seq<string>, bucket': map<string, seq<string>>)
    requires k < |es| && Bucketed(es, k, order, bucket)
    requires order' == if es[k].0 in bucket then order else order + [es[k].0]
    requires bucket' == bucket[es[k].0 := (if es[k].0 in bucket then bucket[es[k].0] else []) + [es[k].1]]
    ensures Bucketed(es, k + 1, order', bucket')
  {
    OrderStep(es, k, order, bucket, order', bucket');
    HoldsStep(es, k, bucket, bucket');
  }

  /** The grouping loop of `flatten_item`: a `defaultdict(list)` filled in
      candidate order, returned as its key order and its lists. */
  method Group(es: seq<(string, string)>) returns (order: seq<string>, bucket: map<string, seq<string>>)
    ensures order == Dedup(Keys(es))
    ensures forall t :: t in bucket <==> t in order
    ensures forall t :: t in bucket ==> bucket[t] == ValuesFor(es, t)
  {
    order, bucket := [], map[];
    var k := 0;
    while k < |es|
      invariant Bucketed(es, k, order, bucket)
    {
      var t := es[k].0;
      // a key enters the dictionary's order when it is first appended to
      var order' := if t in bucket then order else order + [t];
      var bucket' := bucket[t := (if t in bucket then bucket[t] else []) + [es[k].1]];
      BucketStep(es, k, order, bucket, order', bucket');
      order, bucket, k := order', bucket', k + 1;
    }
    assert es[..|es|] == es;
  }

  /** The per-key loop of `flatten_item` keeping a `seen` set: the values
      in first-seen order, each once. */
  method Unique(vals: seq<string>) returns (uniq: seq<string>)
    ensures uniq == Dedup(vals)
  {
    var seen: set<string> := {};
    uniq := [];
    var i := 0;
    while i < |vals|
      invariant i <= |vals| && uniq == Dedup(vals[..i])
      invariant forall x :: x in seen <==> x in uniq
    {
      var x := vals[i];
      DedupSnoc(vals[..i], x);
      assert vals[..i + 1] == vals[..i] + [x];
      if x !in seen {
        uniq := uniq + [x];
        seen := seen + {x};
      }
      i := i + 1;
    }
    assert vals[..i] == vals;
  }

  /** One more key extends the merged entries by that key's entry. */
  lemma MergeKeysStep(es: seq<(string, string)>, ks: seq<string>, j: nat)
    requires j < |ks|
    ensures MergeKeys(es, ks[..j + 1]) == MergeKeys(es, ks[..j]) + [(ks[j], MergeValues(ValuesFor(es, ks[j])))]
  {
    assert ks[..j + 1][..j] == ks[..j];
  }

  /** The source's `flatten_item`: group the candidates of `iter_leaves(elem)`
      by key, then bind each key to its distinct values joined with " | ". */
  method FlattenItem(elem: Node) returns (flat: Row)
    ensures flat == Merge(Leaves(elem, ""))
  {
    var es := Leaves(elem, "");
    var order, bucket := Group(es);
    flat := [];
    var j := 0;
    while j < |order|
      invariant j <= |order| && flat == MergeKeys(es, order[..j])
    {
      var key := order[j];
      var uniq := Unique(bucket[key]);
      MergeKeysStep(es, order, j);
      flat := flat + [(key, Join(uniq, Separator))];
      j := j + 1;
    }
    assert order[..j] == order;
  }
}
