/** Sequence helpers shared by the converter: first-seen de-duplication,
    the order-preserving uniqueness used for dictionary keys, bucket values
    and CSV headers alike. */
module Seqs {

  /** No element of s occurs twice. */
  predicate NoDups<T(==)>(s: seq<T>) {
    forall i, j :: 0 <= i < j < |s| ==> s[i] != s[j]
  }

  /** The index of the first occurrence of x in s. */
  function FirstIndex<T(==)>(s: seq<T>, x: T): (i: nat)
    requires x in s
    ensures i < |s| && s[i] == x
    ensures forall k :: 0 <= k < i ==> s[k] != x
  {
    if s[0] == x then 0 else 1 + FirstIndex(s[1..], x)
  }

  /** The elements of s, each kept at its first occurrence only, in order.
      Defined by adding one element at a time at the end, the way the
      source's loops grow a list guarded by a `seen` set. */
  function Dedup<T(==)>(s: seq<T>): seq<T> {
    if s == [] then []
    else
      var d := Dedup(s[..|s| - 1]);
      if s[|s| - 1] in d then d else d + [s[|s| - 1]]
  }

  /** Dedup over one more element. */
  lemma DedupSnoc<T>(s: seq<T>, x: T)
    ensures Dedup(s + [x]) == if x in Dedup(s) then Dedup(s) else Dedup(s) + [x]
  {
    assert (s + [x])[..|s|] == s;
  }

  /** Dedup(s) has no duplicates, is no longer than s, and holds exactly the elements of s. */
  lemma {:induction false} DedupSpec<T(!new)>(s: seq<T>)
    ensures NoDups(Dedup(s))
    ensures |Dedup(s)| <= |s|
    ensures forall x :: x in Dedup(s) <==> x in s
  {
    if s != [] {
      var init := s[..|s| - 1];
      DedupSpec(init);
      assert s == init + [s[|s| - 1]];
    }
  }

  /** Extending a sequence does not move the first occurrence of an element it already had. */
  lemma {:induction false} FirstIndexAppend<T>(s: seq<T>, t: seq<T>, x: T)
    requires x in s
    ensures x in s + t && FirstIndex(s + t, x) == FirstIndex(s, x)
  {
    if s[0] != x {
      assert (s + t)[1..] == s[1..] + t;
      FirstIndexAppend(s[1..], t, x);
    }
  }

  /** Dedup keeps first-seen order: an element listed earlier in Dedup(s)
      first occurs earlier in s. */
  lemma {:induction false} DedupFirstSeen<T(!new)>(s: seq<T>, a: nat, b: nat)
    requires a < b < |Dedup(s)|
    ensures Dedup(s)[a] in s && Dedup(s)[b] in s
    ensures FirstIndex(s, Dedup(s)[a]) < FirstIndex(s, Dedup(s)[b])
  {
    DedupSpec(s);
    var init, last := s[..|s| - 1], s[|s| - 1];
    assert s == init + [last];
    var d := Dedup(init);
    var x, y := Dedup(s)[a], Dedup(s)[b];
    DedupSpec(init);
    assert x in init by { assert a < |d|; }
    FirstIndexAppend(init, [last], x);
    if b < |d| {
      DedupFirstSeen(init, a, b);
      FirstIndexAppend(init, [last], y);
    } else {
      assert y == last && last !in init;
      assert FirstIndex(s, y) == |s| - 1;
    }
  }

  /** Dedup of a duplicate-free sequence is that sequence. */
  lemma {:induction false} DedupOfDistinct<T(!new)>(s: seq<T>)
    requires NoDups(s)
    ensures Dedup(s) == s
  {
    if s != [] {
      var init := s[..|s| - 1];
      assert NoDups(init);
      DedupOfDistinct(init);
      assert s[|s| - 1] !in init;
      assert s == init + [s[|s| - 1]];
    }
  }

  /** Dedup is idempotent. */
  lemma DedupIdempotent<T(!new)>(s: seq<T>)
    ensures Dedup(Dedup(s)) == Dedup(s)
  {
    DedupSpec(s);
    DedupOfDistinct(Dedup(s));
  }

  /** A one-element sequence holding x is [x]. */
  lemma Singleton<T>(s: seq<T>, x: T)
    requires |s| == 1 && x in s
    ensures s == [x]
  {
  }
}
