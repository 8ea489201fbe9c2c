/** cnv_db_builder.py: turns the merged CNV calls into the CNV database.
    The TSV is read with a fixed schema; `Copy_Number` becomes a list of
    Int32, each call is classed DUP, DEL or MIX from that list, and
    `Chr_Start_End_Type` becomes its `CNV_ID`. The output puts `CNV_ID` and
    `SampleID` in front. Reading and writing files is not modelled: the
    step starts from the rows the schema-driven scan yields. */
module CnvDbBuilder {
  import opened Basics
  import opened Text
  import opened Seqs
  import opened Frames

  // ---------------------------------------------------------------------
  // The input schema

  datatype ColumnType = StringType | Int64Type | Int32Type | Float32Type

  datatype Field = Field(name: string, typ: ColumnType)

  function InputSchema(): seq<Field> {
    [Field("SampleID", StringType), Field("Chr", StringType), Field("Start", Int64Type), Field("End", Int64Type),
    Field("Length", Int32Type), Field("Copy_Number", StringType), Field("Confidence_max", Float32Type),
    Field("Num_Probes", Int32Type), Field("Num_Merged_CNVs", Int32Type),
    Field("QuantiSNP_Overlap", Float32Type), Field("PennCNV_Overlap", Float32Type),
    Field("Two_Algorithm_Overlap", Float32Type), Field("telomere_Overlap", Float32Type),
    Field("centromere_Overlap", Float32Type), Field("segmentaldup_Overlap", Float32Type)]
  }

  function InputColumns(): seq<string> {
    ["SampleID", "Chr", "Start", "End", "Length", "Copy_Number", "Confidence_max",
    "Num_Probes", "Num_Merged_CNVs", "QuantiSNP_Overlap", "PennCNV_Overlap",
    "Two_Algorithm_Overlap", "telomere_Overlap", "centromere_Overlap", "segmentaldup_Overlap"]
  }

  /** The scan's column names are the schema's, in its order. */
  lemma InputColumnsOfSchema()
    ensures |InputColumns()| == |InputSchema()|
    ensures forall k :: 0 <= k < |InputSchema()| ==> InputColumns()[k] == InputSchema()[k].name
  {
  }

  const Int32Min: int := -0x8000_0000
  const Int32Max: int := 0x7fff_ffff
  const Int64Min: int := -0x8000_0000_0000_0000
  const Int64Max: int := 0x7fff_ffff_ffff_ffff

  /** A cell holds a value of its declared type, or null. */
  predicate HasType(v: Value, t: ColumnType) {
    match t
    case StringType => v.Null? || v.Str?
    case Int64Type => v.Null? || (v.Int? && Int64Min <= v.i <= Int64Max)
    case Int32Type => v.Null? || (v.Int? && Int32Min <= v.i <= Int32Max)
    case Float32Type => v.Null? || v.Real?
  }

  /** A row of the scan: every schema column holds a value of its type. */
  predicate WellTyped(r: Row) {
    forall k :: 0 <= k < |InputSchema()| ==> HasType(Get(r, InputSchema()[k].name), InputSchema()[k].typ)
  }

  // ---------------------------------------------------------------------
  // Copy_Number: `str.split(",")`, then a strict cast of every piece to Int32

  /** A strict cast of text to Int32: the decimal text of a value in range. */
  function CastInt32(s: string): (r: Option<int>)
    ensures r.Some? ==> Int32Min <= r.value <= Int32Max
  {
    match ParseInt(s)
    case Some(i) => if Int32Min <= i <= Int32Max then Some(i) else None
    case None => None
  }

  /** Casts every piece; fails as soon as one piece fails. */
  function CastAll(parts: seq<string>): (r: Option<seq<int>>)
    ensures r.Some? <==> forall k :: 0 <= k < |parts| ==> CastInt32(parts[k]).Some?
    ensures r.Some? ==> |r.value| == |parts|
    ensures r.Some? ==> forall k :: 0 <= k < |parts| ==> Some(r.value[k]) == CastInt32(parts[k])
  {
    if |parts| == 0 then Some([])
    else
      match (CastInt32(parts[0]), CastAll(parts[1..]))
      case (Some(x), Some(xs)) => Some([x] + xs)
      case _ => None
  }

  /** The new Copy_Number cell: null stays null; a string becomes the list
      of its comma-separated numbers; a piece that is not an Int32 aborts. */
  function CopyNumbers(v: Value): (r: Result<Value>)
    ensures v.Null? ==> r == Ok(Null)
    ensures r.Ok? && !v.Null? ==>
      r.value.IntList? && forall x :: x in r.value.ints ==> Int32Min <= x <= Int32Max
  {
    match v
    case Null => Ok(Null)
    case Str(s) =>
      (match CastAll(Split(s, ','))
       case Some(xs) => Ok(IntList(xs))
       case None => Err("InvalidOperationError"))
    case _ => Err("SchemaError")
  }

  /** The decimal text of an Int32 casts back to it. */
  lemma CastInt32Dec(x: int)
    requires Int32Min <= x <= Int32Max
    ensures CastInt32(IntToDec(x)) == Some(x)
  {
    ParseIntToDec(x);
  }

  lemma DecHasNoComma(x: int)
    ensures ',' !in IntToDec(x)
  {
    var n := if x < 0 then -x else x;
    assert AllDigits(NatToDec(n));
  }

  /** The comma-joined decimal texts of a non-empty list of Int32 values
      parse back to that list. */
  lemma {:induction false} CopyNumbersOfText(xs: seq<int>)
    requires |xs| >= 1
    requires forall x :: x in xs ==> Int32Min <= x <= Int32Max
    ensures CopyNumbers(Str(Join(seq(|xs|, k requires 0 <= k < |xs| => IntToDec(xs[k])), ','))) == Ok(IntList(xs))
  {
    var parts := seq(|xs|, k requires 0 <= k < |xs| => IntToDec(xs[k]));
    forall k | 0 <= k < |parts| ensures ',' !in parts[k] {
      DecHasNoComma(xs[k]);
    }
    SplitJoin(parts, ',');
    forall k | 0 <= k < |parts| ensures CastInt32(parts[k]) == Some(xs[k]) {
      assert xs[k] in xs;
      CastInt32Dec(xs[k]);
    }
    var ys := CastAll(parts).value;
    assert ys == xs by {
      forall k | 0 <= k < |xs| ensures ys[k] == xs[k] {
        assert Some(ys[k]) == CastInt32(parts[k]);
      }
    }
  }

  /** A piece that is not an Int32 makes the whole step fail. */
  lemma CopyNumbersRejects(s: string, k: nat)
    requires k < |Split(s, ',')| && CastInt32(Split(s, ',')[k]).None?
    ensures CopyNumbers(Str(s)).Err?
  {
  }

  // ---------------------------------------------------------------------
  // CN_Type, with the three-valued logic of Polars' `when`

  function SeqMax(xs: seq<int>): (m: int)
    requires |xs| > 0
    ensures m in xs && forall x :: x in xs ==> x <= m
  {
    if |xs| == 1 then xs[0]
    else
      var m := SeqMax(xs[1..]);
      assert forall x :: x in xs ==> x == xs[0] || x in xs[1..];
      Max(xs[0], m)
  }

  function SeqMin(xs: seq<int>): (m: int)
    requires |xs| > 0
    ensures m in xs && forall x :: x in xs ==> m <= x
  {
    if |xs| == 1 then xs[0]
    else
      var m := SeqMin(xs[1..]);
      assert forall x :: x in xs ==> x == xs[0] || x in xs[1..];
      Min(xs[0], m)
  }

  /** `list.max()`: null for a null or an empty list. */
  function ListMax(v: Value): (m: Option<int>)
    ensures m.Some? <==> v.IntList? && |v.ints| > 0
    ensures m.Some? ==> m.value in v.ints && forall x :: x in v.ints ==> x <= m.value
  {
    if v.IntList? && |v.ints| > 0 then Some(SeqMax(v.ints)) else None
  }

  /** `list.min()`: null for a null or an empty list. */
  function ListMin(v: Value): (m: Option<int>)
    ensures m.Some? <==> v.IntList? && |v.ints| > 0
    ensures m.Some? ==> m.value in v.ints && forall x :: x in v.ints ==> m.value <= x
  {
    if v.IntList? && |v.ints| > 0 then Some(SeqMin(v.ints)) else None
  }

  /** `x >= 2` and `x < 2` on a nullable integer: null when `x` is null. */
  function AtLeastTwo(m: Option<int>): Option<bool> {
    if m.Some? then Some(m.value >= 2) else None
  }

  function BelowTwo(m: Option<int>): Option<bool> {
    if m.Some? then Some(m.value < 2) else None
  }

  /** Kleene conjunction, as `&` on nullable booleans. */
  function And(a: Option<bool>, b: Option<bool>): (c: Option<bool>)
    ensures c == Some(true) <==> a == Some(true) && b == Some(true)
    ensures c == Some(false) <==> a == Some(false) || b == Some(false)
  {
    if a == Some(false) || b == Some(false) then Some(false)
    else if a == Some(true) && b == Some(true) then Some(true)
    else None
  }

  /** `when(c)` takes its branch only when `c` is true; null counts as false. */
  predicate Holds(c: Option<bool>) {
    c == Some(true)
  }

  /** The CN_Type of a Copy_Number cell; one of the three labels. */
  function CnType(cn: Value): (t: string)
    ensures t == "DUP" || t == "DEL" || t == "MIX"
  {
    var mx := ListMax(cn);
    var mn := ListMin(cn);
    if Holds(And(AtLeastTwo(mx), AtLeastTwo(mn))) then "DUP"
    else if Holds(And(BelowTwo(mx), BelowTwo(mn))) then "DEL"
    else "MIX"
  }

  /** DUP exactly when the minimum is at least 2, that is when every copy
      number is at least 2 (and there is at least one). */
  lemma CnTypeDup(cn: Value)
    ensures CnType(cn) == "DUP" <==> ListMin(cn).Some? && ListMin(cn).value >= 2
    ensures CnType(cn) == "DUP" <==> cn.IntList? && |cn.ints| > 0 && forall x :: x in cn.ints ==> x >= 2
  {
  }

  /** DEL exactly when the maximum is below 2, that is when every copy
      number is below 2 (and there is at least one). */
  lemma CnTypeDel(cn: Value)
    ensures CnType(cn) == "DEL" <==> ListMax(cn).Some? && ListMax(cn).value < 2
    ensures CnType(cn) == "DEL" <==> cn.IntList? && |cn.ints| > 0 && forall x :: x in cn.ints ==> x < 2
  {
    if cn.IntList? && |cn.ints| > 0 {
      var mx := ListMax(cn).value;
      var mn := ListMin(cn).value;
      assert mn <= mx;
    }
  }

  /** MIX exactly when min < 2 <= max, or when there is no copy number at
      all (a null or empty list makes both tests null). */
  lemma CnTypeMix(cn: Value)
    ensures CnType(cn) == "MIX" <==>
      ListMax(cn).None? || ListMin(cn).value < 2 <= ListMax(cn).value
    ensures CnType(cn) == "MIX" <==>
      !(cn.IntList? && |cn.ints| > 0) || exists x, y :: x in cn.ints && y in cn.ints && x < 2 <= y
  {
    CnTypeDup(cn);
    CnTypeDel(cn);
  }

  /** A single copy number is never MIX. */
  lemma CnTypeSingle(x: int)
    ensures CnType(IntList([x])) == (if x >= 2 then "DUP" else "DEL")
  {
    CnTypeMix(IntList([x]));
    assert forall y :: y in [x] ==> y == x;
  }

  // ---------------------------------------------------------------------
  // The pipeline

  /** `concat_str([Chr, Start, End, CN_Type], separator = "_")` on one row. */
  function CnvIdCell(r: Row): Value {
    IdOf(Get(r, "Chr"), Get(r, "Start"), Get(r, "End"), Get(r, "CN_Type"))
  }

  function IdOf(chr: Value, start: Value, end: Value, cnType: Value): Value {
    ConcatStr([chr, start, end, cnType], '_')
  }

  /** `with_columns(Copy_Number = split and cast)`: fails when one row fails. */
  function ParseCopyNumbers(f: Frame): (r: Result<Frame>)
    ensures r.Ok? <==> forall i :: 0 <= i < |f.rows| ==> CopyNumbers(Get(f.rows[i], "Copy_Number")).Ok?
    ensures r.Ok? ==> r.value.names == (if "Copy_Number" in f.names then f.names else f.names + ["Copy_Number"])
    ensures r.Ok? ==> |r.value.rows| == |f.rows|
    ensures r.Ok? ==> forall i, c :: 0 <= i < |f.rows| ==>
      Get(r.value.rows[i], c) == if c == "Copy_Number" then CopyNumbers(Get(f.rows[i], c)).value else Get(f.rows[i], c)
  {
    var cn :- EvalColumn(f.rows, row => CopyNumbers(Get(row, "Copy_Number")));
    Ok(WithColumn(f, "Copy_Number", cn))
  }

  /** `with_columns(CN_Type = when ... then ... otherwise ...)`. */
  function AddCnType(f: Frame): (g: Frame)
    ensures g.names == if "CN_Type" in f.names then f.names else f.names + ["CN_Type"]
    ensures |g.rows| == |f.rows|
    ensures forall i, c :: 0 <= i < |f.rows| ==>
      Get(g.rows[i], c) == if c == "CN_Type" then Str(CnType(Get(f.rows[i], "Copy_Number"))) else Get(f.rows[i], c)
  {
    WithColumn(f, "CN_Type", seq(|f.rows|, i requires 0 <= i < |f.rows| => Str(CnType(Get(f.rows[i], "Copy_Number")))))
  }

  /** `with_columns(CNV_ID = concat_str(...))`. */
  function AddCnvId(f: Frame): (g: Frame)
    ensures g.names == if "CNV_ID" in f.names then f.names else f.names + ["CNV_ID"]
    ensures |g.rows| == |f.rows|
    ensures forall i, c :: 0 <= i < |f.rows| ==>
      Get(g.rows[i], c) == if c == "CNV_ID" then CnvIdCell(f.rows[i]) else Get(f.rows[i], c)
  {
    WithColumn(f, "CNV_ID", seq(|f.rows|, i requires 0 <= i < |f.rows| => CnvIdCell(f.rows[i])))
  }

  /** The three `with_columns` on rows scanned with columns `cols`. */
  function Classified(cols: seq<string>, rows: seq<Row>): Result<Frame> {
    var f :- ParseCopyNumbers(Frame(cols, rows));
    Ok(AddCnvId(AddCnType(f)))
  }

  /** The script on rows scanned with columns `cols`. */
  function Build(cols: seq<string>, rows: seq<Row>): Result<Frame> {
    var f :- Classified(cols, rows);
    Select(f, IdsFirst(f.names))
  }

  function ClassifiedNames(cols: seq<string>): seq<string> {
    AddName(AddName(AddName(cols, "Copy_Number"), "CN_Type"), "CNV_ID")
  }

  /** What the script needs of the schema: distinct names, holding
      `SampleID` and `Copy_Number`, and neither of the two new columns. */
  predicate ScanColumns(cols: seq<string>) {
    NoDup(cols) && "SampleID" in cols && "Copy_Number" in cols && "CN_Type" !in cols && "CNV_ID" !in cols
  }

  /** The three steps keep the row count and add the two new columns. */
  lemma ClassifiedShape(cols: seq<string>, rows: seq<Row>)
    ensures Classified(cols, rows).Ok? <==>
      forall i :: 0 <= i < |rows| ==> CopyNumbers(Get(rows[i], "Copy_Number")).Ok?
    ensures Classified(cols, rows).Ok? ==>
      Classified(cols, rows).value.names == ClassifiedNames(cols) && |Classified(cols, rows).value.rows| == |rows|
  {
  }

  /** On the schema's columns the new names are `CN_Type` then `CNV_ID`,
      appended to distinct names. */
  lemma {:induction false} NamesOfSchema(cols: seq<string>)
    requires ScanColumns(cols)
    ensures ClassifiedNames(cols) == cols + ["CN_Type", "CNV_ID"]
    ensures NoDup(cols + ["CN_Type", "CNV_ID"])
  {
    assert AddName(cols, "Copy_Number") == cols;
    assert AddName(cols, "CN_Type") == cols + ["CN_Type"];
    assert "CNV_ID" !in cols + ["CN_Type"];
    NoDupAppend(cols, "CN_Type");
    NoDupAppend(cols + ["CN_Type"], "CNV_ID");
    assert cols + ["CN_Type"] + ["CNV_ID"] == cols + ["CN_Type", "CNV_ID"];
  }

  /** The IDs-first order of the schema's columns: `CNV_ID`, `SampleID`,
      the other scanned columns in order, `CN_Type` last, */
  lemma OrderOfSchema(cols: seq<string>)
    requires ScanColumns(cols)
    ensures IdsFirst(ClassifiedNames(cols)) == ["CNV_ID", "SampleID"] + Without(cols, {"SampleID"}) + ["CN_Type"]
  {
    NamesOfSchema(cols);
    WithoutAppend(cols, ["CN_Type", "CNV_ID"], {"CNV_ID", "SampleID"});
    WithoutAbsent(cols, "CNV_ID");
    assert Without(["CN_Type", "CNV_ID"], {"CNV_ID", "SampleID"}) == ["CN_Type"] by {
      assert ["CN_Type", "CNV_ID"][1..] == ["CNV_ID"];
      assert ["CNV_ID"][1..] == [];
    }
  }

  /** a duplicate-free permutation of the scanned and the new columns. */
  lemma OrderOfSchemaPermutation(cols: seq<string>)
    requires ScanColumns(cols)
    ensures NoDup(IdsFirst(ClassifiedNames(cols)))
    ensures multiset(IdsFirst(ClassifiedNames(cols))) == multiset(cols + ["CN_Type", "CNV_ID"])
  {
    NamesOfSchema(cols);
    IdsFirstPermutation(cols + ["CN_Type", "CNV_ID"]);
  }

  lemma {:induction false} WithoutAppend(a: seq<string>, b: seq<string>, cs: set<string>)
    ensures Without(a + b, cs) == Without(a, cs) + Without(b, cs)
  {
    if |a| > 0 {
      assert (a + b)[1..] == a[1..] + b;
      WithoutAppend(a[1..], b, cs);
    } else {
      assert a + b == b;
    }
  }

  /** Removing a name that does not occur changes nothing. */
  lemma {:induction false} WithoutAbsent(a: seq<string>, c: string)
    requires c !in a
    ensures Without(a, {c, "SampleID"}) == Without(a, {"SampleID"})
  {
    if |a| > 0 {
      WithoutAbsent(a[1..], c);
    }
  }

  /** Every scanned column and both new ones are output columns. */
  lemma OutputHas(cols: seq<string>, c: string)
    requires ScanColumns(cols)
    requires c in cols || c == "CN_Type" || c == "CNV_ID"
    ensures c in IdsFirst(ClassifiedNames(cols))
  {
    OrderOfSchemaPermutation(cols);
    assert c in multiset(cols + ["CN_Type", "CNV_ID"]);
  }

  /** The script fails only when a Copy_Number does not parse; it keeps every
      row, and its columns are those of `OrderOfSchema`. */
  lemma BuildColumns(cols: seq<string>, rows: seq<Row>)
    requires ScanColumns(cols)
    ensures Build(cols, rows).Ok? <==> forall i :: 0 <= i < |rows| ==> CopyNumbers(Get(rows[i], "Copy_Number")).Ok?
    ensures Build(cols, rows).Ok? ==>
      Build(cols, rows).value.names == IdsFirst(ClassifiedNames(cols)) && |Build(cols, rows).value.rows| == |rows|
  {
    ClassifiedShape(cols, rows);
    NamesOfSchema(cols);
    OrderOfSchemaPermutation(cols);
    forall c | c in IdsFirst(ClassifiedNames(cols)) ensures c in ClassifiedNames(cols) {
      assert c in multiset(IdsFirst(ClassifiedNames(cols)));
    }
  }

  /** The cells of a classified row: the parsed copy numbers and their class, */
  lemma ClassifiedType(cols: seq<string>, rows: seq<Row>, i: nat)
    requires Classified(cols, rows).Ok? && i < |rows|
    ensures Get(Classified(cols, rows).value.rows[i], "Copy_Number") == CopyNumbers(Get(rows[i], "Copy_Number")).value
    ensures Get(Classified(cols, rows).value.rows[i], "CN_Type") ==
      Str(CnType(CopyNumbers(Get(rows[i], "Copy_Number")).value))
  {
    var f1 := ParseCopyNumbers(Frame(cols, rows)).value;
    assert Get(AddCnType(f1).rows[i], "CN_Type") == Str(CnType(Get(f1.rows[i], "Copy_Number")));
  }

  /** the identifier from the row's own coordinates and class, */
  lemma ClassifiedId(cols: seq<string>, rows: seq<Row>, i: nat)
    requires Classified(cols, rows).Ok? && i < |rows|
    ensures Get(Classified(cols, rows).value.rows[i], "CNV_ID") ==
      IdOf(Get(rows[i], "Chr"), Get(rows[i], "Start"), Get(rows[i], "End"),
           Get(Classified(cols, rows).value.rows[i], "CN_Type"))
  {
    var f1 := ParseCopyNumbers(Frame(cols, rows)).value;
    var f2 := AddCnType(f1);
    assert Get(f2.rows[i], "Chr") == Get(rows[i], "Chr");
    assert Get(f2.rows[i], "Start") == Get(rows[i], "Start");
    assert Get(f2.rows[i], "End") == Get(rows[i], "End");
  }

  /** and every other scanned column unchanged. */
  lemma ClassifiedOthers(cols: seq<string>, rows: seq<Row>, i: nat, c: string)
    requires Classified(cols, rows).Ok? && i < |rows|
    requires c != "Copy_Number" && c != "CN_Type" && c != "CNV_ID"
    ensures Get(Classified(cols, rows).value.rows[i], c) == Get(rows[i], c)
  {
  }

  /** The output rows: a classified row restricted to the output columns. */
  lemma BuildCells(cols: seq<string>, rows: seq<Row>, i: nat)
    requires ScanColumns(cols) && Build(cols, rows).Ok? && i < |rows|
    ensures var out := Build(cols, rows).value.rows[i];
      Get(out, "Copy_Number") == CopyNumbers(Get(rows[i], "Copy_Number")).value &&
      Get(out, "CN_Type") == Str(CnType(Get(out, "Copy_Number"))) &&
      Get(out, "CNV_ID") == IdOf(Get(rows[i], "Chr"), Get(rows[i], "Start"), Get(rows[i], "End"), Get(out, "CN_Type"))
    ensures forall c :: c in cols && c != "Copy_Number" ==> Get(Build(cols, rows).value.rows[i], c) == Get(rows[i], c)
  {
    BuildColumns(cols, rows);
    ClassifiedType(cols, rows, i);
    ClassifiedId(cols, rows, i);
    OutputHas(cols, "Copy_Number");
    OutputHas(cols, "CN_Type");
    OutputHas(cols, "CNV_ID");
    forall c | c in cols && c != "Copy_Number"
      ensures Get(Build(cols, rows).value.rows[i], c) == Get(rows[i], c)
    {
      OutputHas(cols, c);
      ClassifiedOthers(cols, rows, i, c);
    }
  }

  /** With its coordinates present, the identifier is `Chr_Start_End_Type`
      with the coordinates in decimal. */
  lemma BuildId(cols: seq<string>, rows: seq<Row>, i: nat, chr: string, start: int, end: int)
    requires ScanColumns(cols) && Build(cols, rows).Ok? && i < |rows|
    requires Get(rows[i], "Chr") == Str(chr) && Get(rows[i], "Start") == Int(start) && Get(rows[i], "End") == Int(end)
    ensures Get(Build(cols, rows).value.rows[i], "CNV_ID") ==
      Str(chr + "_" + IntToDec(start) + "_" + IntToDec(end) + "_" + CnType(Get(Build(cols, rows).value.rows[i], "Copy_Number")))
  {
    BuildCells(cols, rows, i);
    var out := Build(cols, rows).value.rows[i];
    ConcatFour(Get(rows[i], "Chr"), Get(rows[i], "Start"), Get(rows[i], "End"), Get(out, "CN_Type"), '_');
  }

  /** The identifier is null exactly when a coordinate is null or not text
      (a float or list cell, which the schema rules out). */
  lemma BuildIdNull(cols: seq<string>, rows: seq<Row>, i: nat)
    requires ScanColumns(cols) && Build(cols, rows).Ok? && i < |rows|
    ensures Get(Build(cols, rows).value.rows[i], "CNV_ID") == Null <==>
      CellText(Get(rows[i], "Chr")).None? || CellText(Get(rows[i], "Start")).None? ||
      CellText(Get(rows[i], "End")).None?
  {
    BuildCells(cols, rows, i);
    var out := Build(cols, rows).value.rows[i];
    ConcatFour(Get(rows[i], "Chr"), Get(rows[i], "Start"), Get(rows[i], "End"), Get(out, "CN_Type"), '_');
  }

  // ---------------------------------------------------------------------
  // The script's own schema

  /** cnv_db_builder.py: the script on the rows its schema-driven scan yields. */
  function CnvDb(rows: seq<Row>): Result<Frame> {
    Build(InputColumns(), rows)
  }

  lemma InputColumnsScan()
    ensures ScanColumns(InputColumns())
  {
    assert "SampleID" == InputColumns()[0] && "Copy_Number" == InputColumns()[5];
    InputColumnsDistinct();
    InputColumnsNew();
  }

  lemma InputColumnsDistinct()
    ensures NoDup(InputColumns())
  {
  }

  lemma InputColumnsNew()
    ensures "CN_Type" !in InputColumns() && "CNV_ID" !in InputColumns()
  {
  }

  /** The script succeeds exactly when every Copy_Number parses, and its
      columns are the IDs, the rest of the schema in order, and `CN_Type`. */
  lemma CnvDbColumns(rows: seq<Row>)
    ensures CnvDb(rows).Ok? <==> forall i :: 0 <= i < |rows| ==> CopyNumbers(Get(rows[i], "Copy_Number")).Ok?
    ensures CnvDb(rows).Ok? ==>
      CnvDb(rows).value.names == ["CNV_ID", "SampleID"] + InputColumns()[1..] + ["CN_Type"]
  {
    InputColumnsScan();
    BuildColumns(InputColumns(), rows);
    OrderOfSchema(InputColumns());
    OutputOrder();
  }

  lemma OutputOrder()
    ensures Without(InputColumns(), {"SampleID"}) == InputColumns()[1..]
  {
    InputColumnsScan();
    assert InputColumns()[0] == "SampleID";
    WithoutHead(InputColumns());
  }

  /** Removing the head of a duplicate-free sequence leaves its tail. */
  lemma WithoutHead(s: seq<string>)
    requires NoDup(s) && |s| > 0
    ensures Without(s, {s[0]}) == s[1..]
  {
    assert s[0] !in s[1..];
    WithoutNone(s[1..], {s[0]});
  }

  /** Removing names none of which occur changes nothing. */
  lemma {:induction false} WithoutNone(a: seq<string>, cs: set<string>)
    requires forall c :: c in a ==> c !in cs
    ensures Without(a, cs) == a
  {
    if |a| > 0 {
      WithoutNone(a[1..], cs);
      assert a[0] in a;
      assert [a[0]] + a[1..] == a;
    }
  }
}
