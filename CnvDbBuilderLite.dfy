/** cnv_db_builder_lite.py: a CNV table whose header names its coordinate
    columns in any letter case gets a `Chr_Start_End_Type` identifier, and
    the identifier and `SampleID` are moved to the front. The header line is
    the frame's own column list. */
module CnvDbBuilderLite {
  import opened Basics
  import opened Text
  import opened Seqs
  import opened Frames
  import GeneDb

  /** The four columns `col_map["chr"]`, `col_map["start"]`, `col_map["end"]`
      and `col_map["type"]` name. */
  datatype IdColumns = IdColumns(chr: string, start: string, end: string, cnType: string)

  /** Some header spells `key` in some letter case. */
  predicate HasKey(header: seq<string>, key: string) {
    exists h :: h in header && Lower(h) == key
  }

  /** The four look-ups in `col_map`: a KeyError as soon as one key is missing. */
  function ResolveIdColumns(header: seq<string>): (r: Result<IdColumns>)
    ensures r.Ok? <==>
      HasKey(header, "chr") && HasKey(header, "start") && HasKey(header, "end") && HasKey(header, "type")
    ensures r.Ok? ==>
      var m := ColMap(header);
      r.value == IdColumns(m["chr"], m["start"], m["end"], m["type"])
  {
    var m := ColMap(header);
    if "chr" in m && "start" in m && "end" in m && "type" in m then
      Ok(IdColumns(m["chr"], m["start"], m["end"], m["type"]))
    else
      Err("KeyError")
  }

  /** The identifier of one row: `concat_str` of its four coordinate cells with `_`. */
  function IdCell(ids: IdColumns, r: Row): Value {
    ConcatStr([Get(r, ids.chr), Get(r, ids.start), Get(r, ids.end), Get(r, ids.cnType)], '_')
  }

  /** `with_columns(concat_str(...).alias("CNV_ID"))`. */
  function AddCnvId(f: Frame, ids: IdColumns): (g: Frame)
    ensures g.names == AddName(f.names, "CNV_ID")
    ensures |g.rows| == |f.rows|
    ensures forall i, c :: 0 <= i < |f.rows| ==>
      Get(g.rows[i], c) == if c == "CNV_ID" then IdCell(ids, f.rows[i]) else Get(f.rows[i], c)
  {
    WithColumn(f, "CNV_ID", seq(|f.rows|, i requires 0 <= i < |f.rows| => IdCell(ids, f.rows[i])))
  }

  /** The script: resolve the coordinate columns, add the identifier, put
      the IDs in front. */
  function CnvDbLite(f: Frame): Result<Frame> {
    var ids :- ResolveIdColumns(f.names);
    var g := AddCnvId(f, ids);
    Select(g, IdsFirst(g.names))
  }

  /** The IDs-first order of the names with `CNV_ID` added, a duplicate-free
      permutation of them when `SampleID` is present. */
  lemma OrderWithId(names: seq<string>)
    requires NoDup(names) && "SampleID" in names
    ensures NoDup(IdsFirst(AddName(names, "CNV_ID")))
    ensures multiset(IdsFirst(AddName(names, "CNV_ID"))) == multiset(AddName(names, "CNV_ID"))
  {
    if "CNV_ID" !in names {
      NoDupAppend(names, "CNV_ID");
    }
    IdsFirstPermutation(AddName(names, "CNV_ID"));
  }

  /** The script fails exactly when a coordinate key is missing from the
      header or `SampleID`, matched case-sensitively, is not a column. */
  lemma LiteSucceeds(f: Frame)
    requires NoDup(f.names)
    ensures CnvDbLite(f).Ok? <==>
      HasKey(f.names, "chr") && HasKey(f.names, "start") && HasKey(f.names, "end") && HasKey(f.names, "type") &&
      "SampleID" in f.names
  {
    var r := ResolveIdColumns(f.names);
    if r.Ok? {
      var g := AddCnvId(f, r.value);
      if "SampleID" in f.names {
        OrderWithId(f.names);
        forall c | c in IdsFirst(g.names) ensures c in g.names {
          assert c in multiset(IdsFirst(g.names));
        }
      } else {
        assert "SampleID" in IdsFirst(g.names) && "SampleID" !in g.names;
      }
    }
  }

  /** Without a coordinate key the script produces nothing. */
  lemma LiteKeyError(f: Frame)
    requires !HasKey(f.names, "chr") || !HasKey(f.names, "start") ||
             !HasKey(f.names, "end") || !HasKey(f.names, "type")
    ensures CnvDbLite(f) == Err("KeyError")
  {
  }

  /** The output columns: `CNV_ID`, `SampleID`, then the others in order;
      every row is kept. */
  lemma LiteColumns(f: Frame)
    requires CnvDbLite(f).Ok?
    ensures CnvDbLite(f).value.names ==
      ["CNV_ID", "SampleID"] + Without(f.names, {"CNV_ID", "SampleID"})
    ensures |CnvDbLite(f).value.rows| == |f.rows|
  {
    var g := AddCnvId(f, ResolveIdColumns(f.names).value);
    WithoutIdAdded(f.names);
  }

  lemma WithoutIdAdded(names: seq<string>)
    ensures Without(AddName(names, "CNV_ID"), {"CNV_ID", "SampleID"}) == Without(names, {"CNV_ID", "SampleID"})
  {
    if "CNV_ID" !in names {
      WithoutAppendId(names);
    }
  }

  lemma {:induction false} WithoutAppendId(names: seq<string>)
    ensures Without(names + ["CNV_ID"], {"CNV_ID", "SampleID"}) == Without(names, {"CNV_ID", "SampleID"})
  {
    if |names| > 0 {
      assert (names + ["CNV_ID"])[1..] == names[1..] + ["CNV_ID"];
      WithoutAppendId(names[1..]);
    } else {
      assert names + ["CNV_ID"] == ["CNV_ID"];
      assert ["CNV_ID"][1..] == [];
    }
  }

  /** The output cells: the identifier of the row's resolved coordinates,
      and every other input column unchanged. */
  lemma LiteCells(f: Frame, i: nat)
    requires CnvDbLite(f).Ok? && i < |f.rows|
    ensures Get(CnvDbLite(f).value.rows[i], "CNV_ID") == IdCell(ResolveIdColumns(f.names).value, f.rows[i])
    ensures forall c :: c in f.names && c != "CNV_ID" ==> Get(CnvDbLite(f).value.rows[i], c) == Get(f.rows[i], c)
  {
    var g := AddCnvId(f, ResolveIdColumns(f.names).value);
    IdsFirstCells(g, i);
  }

  /** With string and integer coordinates the identifier is
      `chr_start_end_type`, the integers in decimal. */
  lemma LiteId(ids: IdColumns, r: Row, chr: string, start: int, end: int, t: string)
    requires Get(r, ids.chr) == Str(chr) && Get(r, ids.start) == Int(start)
    requires Get(r, ids.end) == Int(end) && Get(r, ids.cnType) == Str(t)
    ensures IdCell(ids, r) == Str(chr + "_" + IntToDec(start) + "_" + IntToDec(end) + "_" + t)
  {
    ConcatFour(Get(r, ids.chr), Get(r, ids.start), Get(r, ids.end), Get(r, ids.cnType), '_');
  }

  /** Distinct CNVs get distinct identifiers: when the chromosome and type
      texts hold no '_', two rows share an identifier only when they share
      the chromosome, start, end and type. */
  lemma LiteIdInjective(ids: IdColumns, r: Row, q: Row,
                        chr: string, start: int, end: int, t: string,
                        chr': string, start': int, end': int, t': string)
    requires Get(r, ids.chr) == Str(chr) && Get(r, ids.start) == Int(start)
    requires Get(r, ids.end) == Int(end) && Get(r, ids.cnType) == Str(t)
    requires Get(q, ids.chr) == Str(chr') && Get(q, ids.start) == Int(start')
    requires Get(q, ids.end) == Int(end') && Get(q, ids.cnType) == Str(t')
    requires '_' !in chr && '_' !in t && '_' !in chr' && '_' !in t'
    requires IdCell(ids, r) == IdCell(ids, q)
    ensures chr == chr' && start == start' && end == end' && t == t'
  {
    LiteId(ids, r, chr, start, end, t);
    LiteId(ids, q, chr', start', end', t');
    var p := [chr, IntToDec(start), IntToDec(end), t];
    var p' := [chr', IntToDec(start'), IntToDec(end'), t'];
    JoinFour(chr, IntToDec(start), IntToDec(end), t, '_');
    JoinFour(chr', IntToDec(start'), IntToDec(end'), t', '_');
    assert Join(p, '_') == Join(p', '_');
    JoinInjective(p, p', '_');
    assert p[1] == p'[1] && p[2] == p'[2];
    IntToDecInjective(start, start');
    IntToDecInjective(end, end');
  }

  /** The identifier is null exactly when one of the four cells is null. */
  lemma LiteIdNull(ids: IdColumns, r: Row)
    ensures IdCell(ids, r) == Null <==>
      CellText(Get(r, ids.chr)).None? || CellText(Get(r, ids.start)).None? ||
      CellText(Get(r, ids.end)).None? || CellText(Get(r, ids.cnType)).None?
  {
    ConcatFour(Get(r, ids.chr), Get(r, ids.start), Get(r, ids.end), Get(r, ids.cnType), '_');
  }

  /** The identifier of gene_db.py agrees with this one: for a location
      `chr:start-end` whose chromosome and type hold no ':', '-' or '|',
      replacing the separators of `location_type` gives `chr_start_end_type`. */
  lemma GeneDbIdAgrees(chr: string, start: nat, end: nat, t: string)
    requires forall k :: 0 <= k < |chr| ==> !IsSeparator(chr[k])
    requires forall k :: 0 <= k < |t| ==> !IsSeparator(t[k])
    ensures GeneDb.CnvId(chr + ":" + NatToDec(start) + "-" + NatToDec(end), t) ==
      chr + "_" + IntToDec(start) + "_" + IntToDec(end) + "_" + t
  {
    var s := NatToDec(start);
    var e := NatToDec(end);
    DigitsFree(s);
    DigitsFree(e);
    var id := GeneDb.CnvId(chr + ":" + s + "-" + e, t);
    var want := chr + "_" + s + "_" + e + "_" + t;
    assert |id| == |want|;
    forall k | 0 <= k < |id| ensures id[k] == want[k] {
      if k < |chr| {
      } else if k == |chr| {
      } else if k < |chr| + 1 + |s| {
        assert want[k] == s[k - |chr| - 1];
      } else if k == |chr| + 1 + |s| {
      } else if k < |chr| + 2 + |s| + |e| {
        assert want[k] == e[k - |chr| - 2 - |s|];
      } else if k == |chr| + 2 + |s| + |e| {
      } else {
        assert want[k] == t[k - |chr| - 3 - |s| - |e|];
      }
    }
  }

  lemma DigitsFree(s: string)
    requires AllDigits(s)
    ensures forall k :: 0 <= k < |s| ==> !IsSeparator(s[k])
  {
  }
}
