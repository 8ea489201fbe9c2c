/** merge_cnv_with_region.py: the CNV table gets the same identifier as in
    cnv_db_builder_lite.py (start and end explicitly cast to text), is left
    joined with a region-overlap table on `CNV_ID`, and its IDs are put in
    front. */
module MergeCnvRegion {
  import opened Basics
  import opened Seqs
  import opened Frames
  import Lite = CnvDbBuilderLite

  /** `.cast(pl.Utf8)`: a cell with a text becomes that text, null stays null. */
  function Utf8(v: Value): (w: Value)
    ensures CellText(w) == CellText(v)
    ensures w == Null <==> CellText(v).None?
  {
    match CellText(v)
    case Some(t) => Str(t)
    case None => Null
  }

  /** The identifier of one row, with start and end cast to text first. */
  function MergeIdCell(ids: Lite.IdColumns, r: Row): Value {
    ConcatStr([Get(r, ids.chr), Utf8(Get(r, ids.start)), Utf8(Get(r, ids.end)), Get(r, ids.cnType)], '_')
  }

  /** The explicit casts change nothing: the identifier is the one the lite
      builder gives the same row. */
  lemma MergeIdIsLiteId(ids: Lite.IdColumns, r: Row)
    ensures MergeIdCell(ids, r) == Lite.IdCell(ids, r)
  {
    ConcatFour(Get(r, ids.chr), Utf8(Get(r, ids.start)), Utf8(Get(r, ids.end)), Get(r, ids.cnType), '_');
    ConcatFour(Get(r, ids.chr), Get(r, ids.start), Get(r, ids.end), Get(r, ids.cnType), '_');
  }

  function AddCnvId(f: Frame, ids: Lite.IdColumns): (g: Frame)
    ensures g.names == AddName(f.names, "CNV_ID")
    ensures |g.rows| == |f.rows|
    ensures forall i, c :: 0 <= i < |f.rows| ==>
      Get(g.rows[i], c) == if c == "CNV_ID" then MergeIdCell(ids, f.rows[i]) else Get(f.rows[i], c)
  {
    WithColumn(f, "CNV_ID", seq(|f.rows|, i requires 0 <= i < |f.rows| => MergeIdCell(ids, f.rows[i])))
  }

  // ---------------------------------------------------------------------
  // `df.join(region_df, on = "CNV_ID", how = "left")`

  /** The region rows whose `CNV_ID` equals `key`, each as often as the
      region table holds it, in their order (`MatchesAppend`); a null key
      matches nothing. */
  function Matches(key: Value, right: seq<Row>): (ms: seq<Row>)
    ensures forall r {:trigger r in ms} :: r in ms <==> r in right && key != Null && Get(r, "CNV_ID") == key
    ensures forall r {:trigger multiset(ms)[r]} :: multiset(ms)[r] == (if key != Null && Get(r, "CNV_ID") == key then multiset(right)[r] else 0)
    ensures |ms| <= |right|
  {
    if right == [] then []
    else
      assert right == [right[0]] + right[1..];
      if key != Null && Get(right[0], "CNV_ID") == key then [right[0]] + Matches(key, right[1..])
      else Matches(key, right[1..])
  }

  /** The matches of a region table are those of its first part followed by
      those of the rest: the join keeps the region table's order. */
  lemma {:induction false} MatchesAppend(key: Value, a: seq<Row>, b: seq<Row>)
    ensures Matches(key, a + b) == Matches(key, a) + Matches(key, b)
  {
    if a == [] {
      assert a + b == b;
    } else {
      var ab := a + b;
      assert ab != [] && ab[0] == a[0] && ab[1..] == a[1..] + b;
      MatchesAppend(key, a[1..], b);
      if key != Null && Get(a[0], "CNV_ID") == key {
        calc {
          Matches(key, ab);
          [a[0]] + Matches(key, a[1..] + b);
          [a[0]] + (Matches(key, a[1..]) + Matches(key, b));
          ([a[0]] + Matches(key, a[1..])) + Matches(key, b);
        }
      } else {
        calc {
          Matches(key, ab);
          Matches(key, a[1..] + b);
        }
      }
    }
  }

  /** A single region row matches itself or nothing. */
  lemma MatchesSingle(key: Value, r: Row)
    ensures Matches(key, [r]) == if key != Null && Get(r, "CNV_ID") == key then [r] else []
  {
    assert [r][1..] == [];
  }

  /** The name a region column gets in the joined table: suffixed with
      `_right` when the CNV table already has a column of that name. */
  function OutName(c: string, leftNames: seq<string>): string {
    if c in leftNames then c + "_right" else c
  }

  function OutNames(rcols: seq<string>, leftNames: seq<string>): (outs: seq<string>)
    ensures |outs| == |rcols|
    ensures forall k :: 0 <= k < |rcols| ==> outs[k] == OutName(rcols[k], leftNames)
  {
    seq(|rcols|, k requires 0 <= k < |rcols| => OutName(rcols[k], leftNames))
  }

  /** A CNV row extended with the region columns `rcols` of the matched
      region row, or with nulls when there is none. */
  function Attach(l: Row, leftNames: seq<string>, rcols: seq<string>, m: Option<Row>): Row
  {
    if rcols == [] then l
    else
      var c := rcols[|rcols| - 1];
      Attach(l, leftNames, rcols[..|rcols| - 1], m)[OutName(c, leftNames) := if m.Some? then Get(m.value, c) else Null]
  }

  /** A region column appears under its joined name, unless a later one
      takes that name, */
  lemma {:induction false} AttachRight(l: Row, leftNames: seq<string>, rcols: seq<string>, m: Option<Row>, k: nat)
    requires k < |rcols|
    requires forall j :: k < j < |rcols| ==> OutName(rcols[j], leftNames) != OutName(rcols[k], leftNames)
    ensures Get(Attach(l, leftNames, rcols, m), OutName(rcols[k], leftNames)) ==
      if m.Some? then Get(m.value, rcols[k]) else Null
  {
    if k < |rcols| - 1 {
      var init := rcols[..|rcols| - 1];
      assert init[k] == rcols[k];
      AttachRight(l, leftNames, init, m, k);
    }
  }

  /** and a name no region column is joined under keeps the CNV row's cell. */
  lemma {:induction false} AttachLeft(l: Row, leftNames: seq<string>, rcols: seq<string>, m: Option<Row>, d: string)
    requires forall j :: 0 <= j < |rcols| ==> OutName(rcols[j], leftNames) != d
    ensures Get(Attach(l, leftNames, rcols, m), d) == Get(l, d)
  {
    if rcols != [] {
      var init := rcols[..|rcols| - 1];
      assert forall j :: 0 <= j < |init| ==> init[j] == rcols[j];
      AttachLeft(l, leftNames, init, m, d);
    }
  }

  /** The joined rows of one CNV row: one per matching region row, or a
      single row with null region columns. */
  function Expand(l: Row, leftNames: seq<string>, rcols: seq<string>, right: seq<Row>): (out: seq<Row>)
    ensures var ms := Matches(Get(l, "CNV_ID"), right);
      |out| == (if ms == [] then 1 else |ms|) &&
      (ms == [] ==> out == [Attach(l, leftNames, rcols, None)]) &&
      (forall j :: 0 <= j < |ms| ==> out[j] == Attach(l, leftNames, rcols, Some(ms[j])))
  {
    var ms := Matches(Get(l, "CNV_ID"), right);
    if ms == [] then [Attach(l, leftNames, rcols, None)]
    else seq(|ms|, j requires 0 <= j < |ms| => Attach(l, leftNames, rcols, Some(ms[j])))
  }

  /** Every joined row of a CNV row holds that row's cells under the CNV
      columns and, under each region column's joined name, the matched
      region row's cell, or null when nothing matched. */
  lemma ExpandCells(l: Row, leftNames: seq<string>, rcols: seq<string>, right: seq<Row>, j: nat)
    requires NoDup(leftNames + OutNames(rcols, leftNames))
    requires j < |Expand(l, leftNames, rcols, right)|
    ensures forall d :: d in leftNames ==> Get(Expand(l, leftNames, rcols, right)[j], d) == Get(l, d)
    ensures var ms := Matches(Get(l, "CNV_ID"), right);
      forall k :: 0 <= k < |rcols| ==>
        Get(Expand(l, leftNames, rcols, right)[j], OutName(rcols[k], leftNames)) ==
          if ms == [] then Null else Get(ms[j], rcols[k])
  {
    var ms := Matches(Get(l, "CNV_ID"), right);
    var m := if ms == [] then None else Some(ms[j]);
    var all := leftNames + OutNames(rcols, leftNames);
    assert Expand(l, leftNames, rcols, right)[j] == Attach(l, leftNames, rcols, m);
    forall d | d in leftNames ensures Get(Attach(l, leftNames, rcols, m), d) == Get(l, d) {
      var p :| 0 <= p < |leftNames| && leftNames[p] == d;
      forall q | 0 <= q < |rcols| ensures OutName(rcols[q], leftNames) != d {
        assert all[p] == d && all[|leftNames| + q] == OutName(rcols[q], leftNames);
      }
      AttachLeft(l, leftNames, rcols, m, d);
    }
    forall k | 0 <= k < |rcols|
      ensures Get(Attach(l, leftNames, rcols, m), OutName(rcols[k], leftNames)) ==
        if m.Some? then Get(m.value, rcols[k]) else Null
    {
      forall q | k < q < |rcols| ensures OutName(rcols[q], leftNames) != OutName(rcols[k], leftNames) {
        assert all[|leftNames| + k] == OutName(rcols[k], leftNames);
        assert all[|leftNames| + q] == OutName(rcols[q], leftNames);
      }
      AttachRight(l, leftNames, rcols, m, k);
    }
  }

  /** The joined rows, CNV row by CNV row in the CNV table's order. */
  function JoinRows(left: seq<Row>, leftNames: seq<string>, rcols: seq<string>, right: seq<Row>): seq<Row>
  {
    if left == [] then [] else Expand(left[0], leftNames, rcols, right) + JoinRows(left[1..], leftNames, rcols, right)
  }

  /** The join keeps the CNV rows apart: the rows of a concatenation are the
      concatenation of the rows. */
  lemma {:induction false} JoinRowsAppend(a: seq<Row>, b: seq<Row>, leftNames: seq<string>, rcols: seq<string>, right: seq<Row>)
    ensures JoinRows(a + b, leftNames, rcols, right) ==
      JoinRows(a, leftNames, rcols, right) + JoinRows(b, leftNames, rcols, right)
  {
    if a != [] {
      assert (a + b)[1..] == a[1..] + b;
      JoinRowsAppend(a[1..], b, leftNames, rcols, right);
    } else {
      assert a + b == b;
    }
  }

  /** The joined rows of the `i`-th CNV row sit between those of the rows
      before it and those of the rows after it. */
  lemma JoinBlock(left: seq<Row>, leftNames: seq<string>, rcols: seq<string>, right: seq<Row>, i: nat)
    requires i < |left|
    ensures JoinRows(left, leftNames, rcols, right) ==
      JoinRows(left[..i], leftNames, rcols, right) + Expand(left[i], leftNames, rcols, right) +
      JoinRows(left[i + 1..], leftNames, rcols, right)
  {
    assert left == left[..i] + left[i..];
    JoinRowsAppend(left[..i], left[i..], leftNames, rcols, right);
    assert left[i..][1..] == left[i + 1..];
  }

  /** No CNV row is lost. */
  lemma {:induction false} JoinKeepsRows(left: seq<Row>, leftNames: seq<string>, rcols: seq<string>, right: seq<Row>)
    ensures |JoinRows(left, leftNames, rcols, right)| >= |left|
  {
    if left != [] {
      JoinKeepsRows(left[1..], leftNames, rcols, right);
    }
  }

  /** Region identifiers that occur at most once (nulls aside). */
  predicate UniqueKeys(right: seq<Row>) {
    forall i, j :: 0 <= i < j < |right| && Get(right[i], "CNV_ID") != Null ==>
      Get(right[i], "CNV_ID") != Get(right[j], "CNV_ID")
  }

  /** With unique region identifiers a key matches at most one region row. */
  lemma {:induction false} UniqueMatches(key: Value, right: seq<Row>)
    requires UniqueKeys(right)
    ensures |Matches(key, right)| <= 1
  {
    if right != [] {
      UniqueMatches(key, right[1..]);
      if key != Null && Get(right[0], "CNV_ID") == key {
        forall j | 0 <= j < |right[1..]| ensures Get(right[1..][j], "CNV_ID") != key {
          assert right[1..][j] == right[j + 1];
        }
        NoMatches(key, right[1..]);
      }
    }
  }

  lemma {:induction false} NoMatches(key: Value, right: seq<Row>)
    requires forall j :: 0 <= j < |right| ==> Get(right[j], "CNV_ID") != key
    ensures Matches(key, right) == []
  {
    if right != [] {
      NoMatches(key, right[1..]);
    }
  }

  /** With unique region identifiers the join keeps the row count. */
  lemma {:induction false} JoinUniqueRows(left: seq<Row>, leftNames: seq<string>, rcols: seq<string>, right: seq<Row>)
    requires UniqueKeys(right)
    ensures |JoinRows(left, leftNames, rcols, right)| == |left|
  {
    if left != [] {
      UniqueMatches(Get(left[0], "CNV_ID"), right);
      JoinUniqueRows(left[1..], leftNames, rcols, right);
    }
  }

  /** The joined table: the CNV columns, then the region columns other than
      `CNV_ID` under their joined names. Fails when the region table has no
      `CNV_ID` or a joined name is taken twice. */
  function LeftJoin(left: Frame, right: Frame): (r: Result<Frame>)
    ensures r.Ok? <==>
      "CNV_ID" in right.names && NoDup(left.names + OutNames(Without(right.names, {"CNV_ID"}), left.names))
    ensures r.Ok? ==> r.value.names == left.names + OutNames(Without(right.names, {"CNV_ID"}), left.names)
  {
    var rcols := Without(right.names, {"CNV_ID"});
    var names := left.names + OutNames(rcols, left.names);
    if "CNV_ID" !in right.names then Err("ColumnNotFoundError")
    else if !NoDup(names) then Err("DuplicateError")
    else Ok(Frame(names, JoinRows(left.rows, left.names, rcols, right.rows)))
  }

  /** The script: the identifier, the left join, the IDs in front. */
  function Merge(cnv: Frame, region: Frame): Result<Frame> {
    var ids :- Lite.ResolveIdColumns(cnv.names);
    var df := AddCnvId(cnv, ids);
    var joined :- LeftJoin(df, region);
    Select(joined, IdsFirst(joined.names))
  }

  /** The columns of the joined table. */
  function JoinedNames(cnvNames: seq<string>, regionNames: seq<string>): seq<string> {
    var left := AddName(cnvNames, "CNV_ID");
    left + OutNames(Without(regionNames, {"CNV_ID"}), left)
  }

  /** The script fails exactly when a coordinate key is missing, the region
      table has no `CNV_ID`, a joined name is taken twice, or `SampleID` is
      no joined column. */
  lemma MergeSucceeds(cnv: Frame, region: Frame)
    ensures Merge(cnv, region).Ok? <==>
      Lite.ResolveIdColumns(cnv.names).Ok? && "CNV_ID" in region.names &&
      NoDup(JoinedNames(cnv.names, region.names)) && "SampleID" in JoinedNames(cnv.names, region.names)
  {
    var names := JoinedNames(cnv.names, region.names);
    if Lite.ResolveIdColumns(cnv.names).Ok? && "CNV_ID" in region.names && NoDup(names) {
      assert "CNV_ID" in names;
      if "SampleID" in names {
        IdsFirstPermutation(names);
        forall c | c in IdsFirst(names) ensures c in names {
          assert c in multiset(IdsFirst(names));
        }
      } else {
        assert "SampleID" in IdsFirst(names);
      }
    }
  }

  /** Its columns are the IDs, then the other joined columns in order; its
      rows are the joined rows, none of the CNV rows lost. */
  lemma MergeShape(cnv: Frame, region: Frame)
    requires Merge(cnv, region).Ok?
    ensures Merge(cnv, region).value.names ==
      ["CNV_ID", "SampleID"] + Without(JoinedNames(cnv.names, region.names), {"CNV_ID", "SampleID"})
    ensures |Merge(cnv, region).value.rows| >= |cnv.rows|
    ensures UniqueKeys(region.rows) ==> |Merge(cnv, region).value.rows| == |cnv.rows|
  {
    var ids := Lite.ResolveIdColumns(cnv.names).value;
    var df := AddCnvId(cnv, ids);
    var rcols := Without(region.names, {"CNV_ID"});
    JoinKeepsRows(df.rows, df.names, rcols, region.rows);
    if UniqueKeys(region.rows) {
      JoinUniqueRows(df.rows, df.names, rcols, region.rows);
    }
  }

  /** The script ends by putting the IDs in front of the joined table. */
  lemma MergeIsSelect(cnv: Frame, region: Frame)
    requires Merge(cnv, region).Ok?
    ensures var j := LeftJoin(AddCnvId(cnv, Lite.ResolveIdColumns(cnv.names).value), region);
      j.Ok? && Merge(cnv, region) == Select(j.value, IdsFirst(j.value.names))
  {
  }

  /** Each output row holds the cells of the joined row at its place. */
  lemma MergeCells(cnv: Frame, region: Frame, n: nat)
    requires Merge(cnv, region).Ok?
    requires n < |Merge(cnv, region).value.rows|
    ensures var df := AddCnvId(cnv, Lite.ResolveIdColumns(cnv.names).value);
      var joined := JoinRows(df.rows, df.names, Without(region.names, {"CNV_ID"}), region.rows);
      n < |joined| &&
      forall d :: d in JoinedNames(cnv.names, region.names) ==> Get(Merge(cnv, region).value.rows[n], d) == Get(joined[n], d)
  {
    MergeIsSelect(cnv, region);
    var j := LeftJoin(AddCnvId(cnv, Lite.ResolveIdColumns(cnv.names).value), region).value;
    IdsFirstCells(j, n);
  }

  /** The identifier column the join matches on. */
  lemma MergeKey(cnv: Frame, i: nat)
    requires Lite.ResolveIdColumns(cnv.names).Ok? && i < |cnv.rows|
    ensures Get(AddCnvId(cnv, Lite.ResolveIdColumns(cnv.names).value).rows[i], "CNV_ID") ==
      Lite.IdCell(Lite.ResolveIdColumns(cnv.names).value, cnv.rows[i])
  {
    MergeIdIsLiteId(Lite.ResolveIdColumns(cnv.names).value, cnv.rows[i]);
  }
}
