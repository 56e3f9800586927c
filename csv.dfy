/** The table `write_csv` writes: a header that is the union of all record
    keys in first-seen order, and one line per record with a cell per header. */
module Csv {
  import opened Seqs
  import opened Tree
  import opened Flatten

  /** The keys of all records, record after record, repeats included. */
  function AllKeys(rows: seq<Row>): seq<string> {
    if rows == [] then [] else AllKeys(rows[..|rows| - 1]) + Keys(rows[|rows| - 1])
  }

  /** The header row of a non-empty table. */
  function Headers(rows: seq<Row>): seq<string> {
    Dedup(AllKeys(rows))
  }

  /** `r.get(h, "")`. */
  function Cell(r: Row, h: string): string {
    match Lookup(r, h)
    case Some(v) => v
    case None => ""
  }

  /** One line of the table: the record's value under each header, in header order. */
  function RenderRow(r: Row, headers: seq<string>): seq<string> {
    seq(|headers|, j requires 0 <= j < |headers| => Cell(r, headers[j]))
  }

  /** The text of a CSV file, before quoting: a header and the lines below it. */
  datatype Table = Table(header: seq<string>, body: seq<seq<string>>)

  /** What `write_csv(rows)` writes: a lone `no_data` header when there are
      no records, and otherwise the header union and one line per record. */
  function Render(rows: seq<Row>): Table {
    if rows == [] then Table(["no_data"], [])
    else
      var h := Headers(rows);
      Table(h, seq(|rows|, i requires 0 <= i < |rows| => RenderRow(rows[i], h)))
  }

  /** A record's keys are among the keys of all records. */
  lemma {:induction false} AllKeysMembers(rows: seq<Row>, i: nat)
    requires i < |rows|
    ensures forall k :: k in Keys(rows[i]) ==> k in AllKeys(rows)
  {
    var init := rows[..|rows| - 1];
    if i < |rows| - 1 {
      AllKeysMembers(init, i);
      assert init[i] == rows[i];
    }
  }

  /** Every key of all records belongs to some record. */
  lemma {:induction false} AllKeysSource(rows: seq<Row>, k: string) returns (i: nat)
    requires k in AllKeys(rows)
    ensures i < |rows| && k in Keys(rows[i])
  {
    var init := rows[..|rows| - 1];
    if k in AllKeys(init) {
      i := AllKeysSource(init, k);
      assert init[i] == rows[i];
    } else {
      i := |rows| - 1;
    }
  }

  /** The header lists every key of every record, each once, and nothing else. */
  lemma HeadersExact(rows: seq<Row>)
    ensures NoDups(Headers(rows))
    ensures forall i, k :: 0 <= i < |rows| && k in Keys(rows[i]) ==> k in Headers(rows)
    ensures forall k :: k in Headers(rows) ==> exists i :: 0 <= i < |rows| && k in Keys(rows[i])
  {
    DedupSpec(AllKeys(rows));
    forall i | 0 <= i < |rows| {
      AllKeysMembers(rows, i);
    }
    forall k | k in Headers(rows) ensures exists i :: 0 <= i < |rows| && k in Keys(rows[i]) {
      var i := AllKeysSource(rows, k);
    }
  }

  /** Header columns come in order of the keys' first appearance. */
  lemma HeadersFirstSeen(rows: seq<Row>, a: nat, b: nat)
    requires a < b < |Headers(rows)|
    ensures Headers(rows)[a] in AllKeys(rows) && Headers(rows)[b] in AllKeys(rows)
    ensures FirstIndex(AllKeys(rows), Headers(rows)[a]) < FirstIndex(AllKeys(rows), Headers(rows)[b])
  {
    DedupFirstSeen(AllKeys(rows), a, b);
  }

  /** A key absent from a record has no value in it. */
  lemma {:induction false} LookupAbsent(r: Row, k: string)
    ensures Lookup(r, k).None? <==> k !in Keys(r)
  {
    if r != [] {
      LookupAbsent(r[..|r| - 1], k);
    }
  }

  /** Each line has one cell per header: the record's value when it has the
      key, and "" when it does not. */
  lemma RenderedCells(rows: seq<Row>, i: nat, j: nat)
    requires i < |rows| && j < |Headers(rows)|
    ensures |Render(rows).body| == |rows| && |Render(rows).body[i]| == |Render(rows).header|
    ensures Headers(rows)[j] !in Keys(rows[i]) ==> Render(rows).body[i][j] == ""
    ensures Headers(rows)[j] in Keys(rows[i]) ==> Some(Render(rows).body[i][j]) == Lookup(rows[i], Headers(rows)[j])
  {
    LookupAbsent(rows[i], Headers(rows)[j]);
  }

  /** No value is lost: each record's value for each of its keys appears on
      the record's line, in that key's column. */
  lemma RenderedKeepsValues(rows: seq<Row>, i: nat, k: string)
    requires i < |rows| && k in Keys(rows[i])
    ensures k in Render(rows).header
    ensures Lookup(rows[i], k) == Some(Render(rows).body[i][FirstIndex(Render(rows).header, k)])
  {
    HeadersExact(rows);
    LookupAbsent(rows[i], k);
  }

  lemma KeysOfPair(x: (string, string), y: (string, string))
    ensures Keys([x, y]) == [x.0, y.0]
  {
    assert [x][..0] == [];
    assert Keys([x]) == [x.0];
    assert [x, y][..1] == [x];
  }

  lemma AllKeysOfPair(r0: Row, r1: Row)
    ensures AllKeys([r0, r1]) == Keys(r0) + Keys(r1)
  {
    assert [r0][..0] == [];
    assert AllKeys([r0]) == Keys(r0);
    assert [r0, r1][..1] == [r0];
  }

  lemma DedupExample()
    ensures Dedup(["a", "b", "b", "c"]) == ["a", "b", "c"]
  {
    var ks := ["a", "b", "b", "c"];
    assert ["a"][..0] == [];
    assert Dedup(["a"]) == ["a"];
    assert ["a", "b"][..1] == ["a"];
    assert Dedup(["a", "b"]) == ["a", "b"];
    assert ["a", "b", "b"][..2] == ["a", "b"];
    assert Dedup(["a", "b", "b"]) == ["a", "b"];
    assert ks[..3] == ["a", "b", "b"];
  }

  /** Cells of a two-field record. */
  lemma CellsOfPair(x: (string, string), y: (string, string), h: string)
    ensures Cell([x, y], h) == if y.0 == h then y.1 else if x.0 == h then x.1 else ""
  {
    assert [x][..0] == [];
    assert [x, y][..1] == [x];
    assert Lookup([x], h) == if x.0 == h then Some(x.1) else None;
  }

  /** Keys repeated across records head a single column, at their first
      appearance. */
  lemma HeaderExample()
    ensures Headers([[("a", "1"), ("b", "2")], [("b", "3"), ("c", "4")]]) == ["a", "b", "c"]
  {
    KeysOfPair(("a", "1"), ("b", "2"));
    KeysOfPair(("b", "3"), ("c", "4"));
    AllKeysOfPair([("a", "1"), ("b", "2")], [("b", "3"), ("c", "4")]);
    assert ["a", "b"] + ["b", "c"] == ["a", "b", "b", "c"];
    DedupExample();
  }

  /** Two records with overlapping keys share a column; absent keys give empty cells. */
  lemma RenderExample()
    ensures Render([[("a", "1"), ("b", "2")], [("b", "3"), ("c", "4")]])
            == Table(["a", "b", "c"], [["1", "2", ""], ["", "3", "4"]])
  {
    var r0: Row := [("a", "1"), ("b", "2")];
    var r1: Row := [("b", "3"), ("c", "4")];
    HeaderExample();
    var h := ["a", "b", "c"];
    CellsOfPair(("a", "1"), ("b", "2"), "a");
    CellsOfPair(("a", "1"), ("b", "2"), "b");
    CellsOfPair(("a", "1"), ("b", "2"), "c");
    CellsOfPair(("b", "3"), ("c", "4"), "a");
    CellsOfPair(("b", "3"), ("c", "4"), "b");
    CellsOfPair(("b", "3"), ("c", "4"), "c");
    assert RenderRow(r0, h) == ["1", "2", ""];
    assert RenderRow(r1, h) == ["", "3", "4"];
  }

  /** The header loop of `write_csv`: every key of every record, in order,
      appended the first time it is seen. */
  method HeaderUnion(rows: seq<Row>) returns (headers: seq<string>)
    ensures headers == Headers(rows)
  {
    headers := [];
    var seen: set<string> := {};
    var i := 0;
    while i < |rows|
      invariant i <= |rows| && headers == Dedup(AllKeys(rows[..i]))
      invariant forall x :: x in seen <==> x in headers
    {
      var r := rows[i];
      var j := 0;
      assert AllKeys(rows[..i]) + Keys(r[..0]) == AllKeys(rows[..i]) by {
        assert r[..0] == [];
      }
      while j < |r|
        invariant j <= |r| && headers == Dedup(AllKeys(rows[..i]) + Keys(r[..j]))
        invariant forall x :: x in seen <==> x in headers
      {
        var k := r[j].0;
        KeysSnoc(r, j);
        assert AllKeys(rows[..i]) + Keys(r[..j + 1]) == (AllKeys(rows[..i]) + Keys(r[..j])) + [k];
        DedupSnoc(AllKeys(rows[..i]) + Keys(r[..j]), k);
        if k !in seen {
          headers := headers + [k];
          seen := seen + {k};
        }
        j := j + 1;
      }
      assert r[..j] == r;
      assert rows[..i + 1][..i] == rows[..i];
      i := i + 1;
    }
    assert rows[..i] == rows;
  }

  /** The source's `write_csv`, as the table it writes. */
  method WriteCsv(rows: seq<Row>) returns (t: Table)
    ensures t == Render(rows)
  {
    if rows == [] {
      // no data: a single-column file
      return Table(["no_data"], []);
    }
    var headers := HeaderUnion(rows);
    var body: seq<seq<string>> := [];
    var i := 0;
    while i < |rows|
      invariant i <= |rows| && |body| == i
      invariant forall n :: 0 <= n < i ==> body[n] == RenderRow(rows[n], headers)
    {
      body := body + [RenderRow(rows[i], headers)];
      i := i + 1;
    }
    t := Table(headers, body);
  }
}
