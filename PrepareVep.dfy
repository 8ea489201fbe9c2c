/** prepare_cnvs_vep.py: the VEP input. Columns 1 to 4 of the CNV table,
    whatever their names, become `Chr`, `Start`, `End` and `TYPE`, a constant
    `Strand` of "." is added, duplicate rows are dropped and the rest are
    sorted by chromosome, start and end. */
module PrepareVep {
  import opened Basics
  import opened Text
  import opened Seqs
  import opened Frames

  function VepColumns(): seq<string> {
    ["Chr", "Start", "End", "TYPE", "Strand"]
  }

  /** One output row: the cells at positions 1 to 4 of the header under the
      four new names, and the strand. */
  function Project(r: Row, names: seq<string>): Row
    requires |names| >= 5
  {
    map["Chr" := Get(r, names[1]), "Start" := Get(r, names[2]), "End" := Get(r, names[3]),
        "TYPE" := Get(r, names[4]), "Strand" := Str(".")]
  }

  /** The five renamed cells, evaluated on the input row side by side. */
  function Projected(f: Frame): (rows: seq<Row>)
    requires |f.names| >= 5
    ensures |rows| == |f.rows|
    ensures forall i :: 0 <= i < |f.rows| ==> rows[i] == Project(f.rows[i], f.names)
  {
    seq(|f.rows|, i requires 0 <= i < |f.rows| => Project(f.rows[i], f.names))
  }

  // ---------------------------------------------------------------------
  // The sort order: nulls first, then by value

  /** Polars keeps a column to one type; across types the order is by kind. */
  function Rank(v: Value): nat {
    match v
    case Null => 0
    case Bool(_) => 1
    case Int(_) => 2
    case Real(_) => 3
    case Frac(_, _) => 4
    case Str(_) => 5
    case StrList(_) => 6
    case IntList(_) => 7
  }

  /** Ascending order of one sort key: null first, integers and floats by
      value, strings lexicographically, false before true; fractions and
      lists are ties. */
  predicate ValueLe(a: Value, b: Value) {
    if Rank(a) != Rank(b) then Rank(a) < Rank(b)
    else if a.Int? && b.Int? then a.i <= b.i
    else if a.Real? && b.Real? then a.x <= b.x
    else if a.Str? && b.Str? then StrLe(a.s, b.s)
    else if a.Bool? && b.Bool? then !a.b || b.b
    else true
  }

  lemma ValueLeTotal(a: Value, b: Value)
    ensures ValueLe(a, b) || ValueLe(b, a)
  {
    if a.Str? && b.Str? {
      StrLeTotal(a.s, b.s);
    }
  }

  lemma ValueLeTransitive(a: Value, b: Value, c: Value)
    requires ValueLe(a, b) && ValueLe(b, c)
    ensures ValueLe(a, c)
  {
    if a.Str? && b.Str? && c.Str? {
      StrLeTransitive(a.s, b.s, c.s);
    }
  }

  /** `sort(by = ["Chr", "Start", "End"])`: lexicographic on the three keys. */
  predicate RowLe(a: Row, b: Row) {
    KeyLe(Get(a, "Chr"), Get(b, "Chr"),
      KeyLe(Get(a, "Start"), Get(b, "Start"), ValueLe(Get(a, "End"), Get(b, "End"))))
  }

  /** `x` before `y`, or tied with it and `rest` holding. */
  predicate KeyLe(x: Value, y: Value, rest: bool) {
    !ValueLe(y, x) || (ValueLe(x, y) && rest)
  }

  lemma RowLeTotal()
    ensures Total(RowLe)
  {
    forall a: Row, b: Row ensures RowLe(a, b) || RowLe(b, a) {
      ValueLeTotal(Get(a, "Chr"), Get(b, "Chr"));
      ValueLeTotal(Get(a, "Start"), Get(b, "Start"));
      ValueLeTotal(Get(a, "End"), Get(b, "End"));
    }
  }

  lemma RowLeTransitive()
    ensures Transitive(RowLe)
  {
    forall a: Row, b: Row, c: Row | RowLe(a, b) && RowLe(b, c) ensures RowLe(a, c) {
      RowLeStep(a, b, c);
    }
  }

  lemma RowLeStep(a: Row, b: Row, c: Row)
    requires RowLe(a, b) && RowLe(b, c)
    ensures RowLe(a, c)
  {
    var e1, e2, e3 := Get(a, "End"), Get(b, "End"), Get(c, "End");
    if ValueLe(e1, e2) && ValueLe(e2, e3) {
      ValueLeTransitive(e1, e2, e3);
    }
    var c1, c2, c3 := Get(a, "Chr"), Get(b, "Chr"), Get(c, "Chr");
    if ValueLe(c1, c2) && ValueLe(c2, c1) && ValueLe(c2, c3) && ValueLe(c3, c2) {
      KeyLeTransitive(Get(a, "Start"), Get(b, "Start"), Get(c, "Start"),
        ValueLe(e1, e2), ValueLe(e2, e3), ValueLe(e1, e3));
    }
    KeyLeTransitive(c1, c2, c3,
      KeyLe(Get(a, "Start"), Get(b, "Start"), ValueLe(e1, e2)),
      KeyLe(Get(b, "Start"), Get(c, "Start"), ValueLe(e2, e3)),
      KeyLe(Get(a, "Start"), Get(c, "Start"), ValueLe(e1, e3)));
  }

  /** One key of a lexicographic order: transitive when the order on the
      remaining keys is. */
  lemma KeyLeTransitive(x: Value, y: Value, z: Value, p: bool, q: bool, r: bool)
    requires KeyLe(x, y, p) && KeyLe(y, z, q)
    requires ValueLe(x, y) && ValueLe(y, x) && ValueLe(y, z) && ValueLe(z, y) && p && q ==> r
    ensures KeyLe(x, z, r)
  {
    ValueLeTotal(y, z);
    if !ValueLe(y, x) {
      if ValueLe(z, x) {
        ValueLeTransitive(y, z, x);
      }
    } else if !ValueLe(z, y) {
      if ValueLe(z, x) {
        ValueLeTransitive(z, x, y);
      }
    } else {
      ValueLeTransitive(x, y, z);
      ValueLeTransitive(z, y, x);
    }
  }

  // ---------------------------------------------------------------------
  // The script

  /** `select(...).unique().sort(...)`: fails when the table has fewer than
      five columns to select by position. */
  function PrepareVep(f: Frame): Result<Frame> {
    if |f.names| < 5 then Err("ColumnNotFoundError")
    else Ok(Frame(VepColumns(), SortBy(RowLe, Dedup(Projected(f)))))
  }

  /** The script fails only on a table with fewer than five columns; the
      output has exactly the five VEP columns, so `SampleID` at position 0
      is gone. */
  lemma VepColumnsExact(f: Frame)
    ensures PrepareVep(f).Ok? <==> |f.names| >= 5
    ensures PrepareVep(f).Ok? ==> PrepareVep(f).value.names == VepColumns() && "SampleID" !in PrepareVep(f).value.names
  {
    var v := VepColumns();
    assert v[0] == "Chr" && v[1] == "Start" && v[2] == "End" && v[3] == "TYPE" && v[4] == "Strand";
  }

  /** The output rows are the projected input rows, each once: nothing is
      invented and only duplicates are lost. */
  lemma VepRows(f: Frame)
    requires PrepareVep(f).Ok?
    ensures forall r :: r in PrepareVep(f).value.rows <==> r in Projected(f)
    ensures NoDup(PrepareVep(f).value.rows)
  {
    var d := Dedup(Projected(f));
    var out := SortBy(RowLe, d);
    forall r ensures r in out <==> r in d {
      assert r in out <==> r in multiset(out);
    }
    PermutationNoDup(d, out);
  }

  /** The output rows are in ascending (Chr, Start, End) order. */
  lemma VepSorted(f: Frame)
    requires PrepareVep(f).Ok?
    ensures SortedBy(RowLe, PrepareVep(f).value.rows)
  {
    RowLeTotal();
    RowLeTransitive();
    SortBySorted(RowLe, Dedup(Projected(f)));
  }

  /** `r` holds the cells of `src` at header positions 1 to 4. */
  predicate Positional(r: Row, src: Row, names: seq<string>)
    requires |names| >= 5
  {
    Get(r, "Chr") == Get(src, names[1]) && Get(r, "Start") == Get(src, names[2]) &&
    Get(r, "End") == Get(src, names[3]) && Get(r, "TYPE") == Get(src, names[4])
  }

  /** Each output row comes from some input row: its coordinates are that
      row's cells at positions 1 to 4 and its strand is ".". */
  lemma VepCells(f: Frame, r: Row)
    requires PrepareVep(f).Ok? && r in PrepareVep(f).value.rows
    ensures exists i :: 0 <= i < |f.rows| && Positional(r, f.rows[i], f.names)
    ensures Get(r, "Strand") == Str(".") && r.Keys == {"Chr", "Start", "End", "TYPE", "Strand"}
  {
    VepRows(f);
    var i :| 0 <= i < |f.rows| && Projected(f)[i] == r;
    ProjectShape(f.rows[i], f.names);
  }

  lemma ProjectShape(src: Row, names: seq<string>)
    requires |names| >= 5
    ensures Positional(Project(src, names), src, names)
    ensures Get(Project(src, names), "Strand") == Str(".")
    ensures Project(src, names).Keys == {"Chr", "Start", "End", "TYPE", "Strand"}
  {
  }
}
