/** gene_db.py: reformats VEP's per-transcript CNV annotation into the
    CNV-gene table. Each `make_*` step is a function from frame to frame;
    the steps that the source can abort (a strict cast, a missing column)
    return a `Result`. Parsing decimal floats is not modelled: the two
    float casts are function parameters (`castPC` for `OverlapPC`,
    `parseAF` for one gnomAD frequency). */
module GeneDb {
  import opened Basics
  import opened Text
  import opened Seqs
  import opened Frames

  // ---------------------------------------------------------------------
  // make_null

  /** The placeholder "-" becomes null; every other cell is kept. */
  function NullIfPlaceholder(v: Value): Value {
    if v == Str("-") then Null else v
  }

  /** Replaces the placeholder in every column, CANONICAL included. */
  function MakeNull(f: Frame): (g: Frame)
    ensures g.names == f.names && |g.rows| == |f.rows|
    ensures forall i, c :: 0 <= i < |f.rows| && Get(f.rows[i], c) == Str("-") ==>
      Get(g.rows[i], c) == Null
    ensures forall i, c :: 0 <= i < |f.rows| && Get(f.rows[i], c) != Str("-") ==>
      Get(g.rows[i], c) == Get(f.rows[i], c)
  {
    Frame(f.names, seq(|f.rows|, i requires 0 <= i < |f.rows| => NullRow(f.rows[i])))
  }

  function NullRow(r: Row): (r': Row)
    ensures r'.Keys == r.Keys
    ensures forall c :: c in r ==> r'[c] == NullIfPlaceholder(r[c])
  {
    map c | c in r :: NullIfPlaceholder(r[c])
  }

  /** Applying make_null twice is the same as applying it once, and its
      output holds no placeholder. */
  lemma MakeNullIdempotent(f: Frame)
    ensures MakeNull(MakeNull(f)) == MakeNull(f)
    ensures forall i, c :: 0 <= i < |f.rows| ==> Get(MakeNull(f).rows[i], c) != Str("-")
  {
    var g := MakeNull(f);
    var h := MakeNull(g);
    assert |h.rows| == |g.rows|;
    forall i | 0 <= i < |g.rows| ensures h.rows[i] == g.rows[i] {
      assert h.rows[i] == NullRow(g.rows[i]);
      assert g.rows[i] == NullRow(f.rows[i]);
    }
  }

  // ---------------------------------------------------------------------
  // make_exon_overlap

  /** The last branch of the chain: 1.0 when OverlapPC contains "100", else null. */
  function OverlapFallback(overlapPC: Value): (v: Value)
    ensures v == Frac(1, 1) <==> AsStr(overlapPC).Some? && Contains(overlapPC.s, "100")
    ensures v != Frac(1, 1) ==> v == Null
  {
    if AsStr(overlapPC).Some? && Contains(overlapPC.s, "100") then Frac(1, 1) else Null
  }

  /** Strict cast of each piece of the exon range. */
  function ParseNats(parts: seq<string>): (r: Option<seq<nat>>)
    ensures r.Some? <==> forall k :: 0 <= k < |parts| ==> ParseNat(parts[k]).Some?
    ensures r.Some? ==> (|r.value| == |parts| &&
      forall k :: 0 <= k < |parts| ==> ParseNat(parts[k]) == Some(r.value[k]))
  {
    if |parts| == 0 then Some([])
    else
      match (ParseNat(parts[0]), ParseNats(parts[1..]))
      case (Some(n), Some(ns)) => Some([n] + ns)
      case _ => None
  }

  /** The when/then chain on the parsed range `ends` and the exon count `total`. */
  function ExonFraction(ends: seq<nat>, total: nat, overlapPC: Value): Value {
    if |ends| == 1 && ends[0] != 0 then Frac(1, total)
    else if |ends| == 2 then Frac(Max(ends[0], ends[1]) - Min(ends[0], ends[1]) + 1, total)
    else OverlapFallback(overlapPC)
  }

  /** `Exon_Overlap` of one row, from its EXON ("i/n" or "a-b/n") and OverlapPC
      cells. A null EXON gives the range ["0"], so only the OverlapPC test
      applies. EXON without "/" fails (`list.get(1)` out of bounds), and so
      does a piece that is not a number (strict cast to Float32). */
  function ExonOverlap(exon: Value, overlapPC: Value): Result<Value> {
    match AsStr(exon)
    case None => Ok(OverlapFallback(overlapPC))
    case Some(e) =>
      var parts := Split(e, '/');
      if |parts| < 2 then Err("EXON: list index out of bounds")
      else
        match (ParseNat(parts[1]), ParseNats(Split(parts[0], '-')))
        case (Some(n), Some(ends)) => Ok(ExonFraction(ends, n, overlapPC))
        case _ => Err("EXON: conversion to Float32 failed")
  }

  /** A non-empty run of decimal digits, which the strict cast accepts. */
  predicate Numeral(s: string) {
    |s| > 0 && AllDigits(s)
  }

  lemma DigitsAreFree(s: string, c: char)
    requires AllDigits(s) && !IsDigit(c)
    ensures c !in s
  {
    assert forall k :: 0 <= k < |s| ==> s[k] != c;
  }

  /** How ExonOverlap reads an EXON cell "range/total" once both halves are known. */
  lemma ExonOfParts(e: string, range: string, total: string, ends: seq<nat>, overlapPC: Value)
    requires Split(e, '/') == [range, total]
    requires Numeral(total)
    requires ParseNats(Split(range, '-')) == Some(ends)
    ensures ExonOverlap(Str(e), overlapPC) == Ok(ExonFraction(ends, DecValue(total), overlapPC))
  {
  }

  /** "x/n" splits at its one '/' when n is a numeral and x holds no '/'. */
  lemma SplitTotal(x: string, sn: string)
    requires '/' !in x && Numeral(sn)
    ensures Split(x + "/" + sn, '/') == [x, sn]
  {
    DigitsAreFree(sn, '/');
    SplitAt(x, sn, '/');
    SplitNoSep(sn, '/');
  }

  lemma ParseOne(sa: string)
    requires Numeral(sa)
    ensures ParseNats([sa]) == Some([DecValue(sa)])
  {
    var r := ParseNats([sa]);
    assert r.Some?;
    assert r.value == [DecValue(sa)];
  }

  lemma ParseTwo(sa: string, sb: string)
    requires Numeral(sa) && Numeral(sb)
    ensures ParseNats([sa, sb]) == Some([DecValue(sa), DecValue(sb)])
  {
    var r := ParseNats([sa, sb]);
    assert r.Some?;
    assert r.value == [DecValue(sa), DecValue(sb)];
  }

  lemma ParseThree(sa: string, sb: string, sc: string)
    requires Numeral(sa) && Numeral(sb) && Numeral(sc)
    ensures ParseNats([sa, sb, sc]) == Some([DecValue(sa), DecValue(sb), DecValue(sc)])
  {
    var r := ParseNats([sa, sb, sc]);
    assert r.Some?;
    assert r.value == [DecValue(sa), DecValue(sb), DecValue(sc)];
  }

  /** "a/n" with a != 0 covers one exon out of n: the fraction is 1/n. */
  lemma ExonSingle(sa: string, sn: string, overlapPC: Value)
    requires Numeral(sa) && Numeral(sn) && DecValue(sa) != 0
    ensures ExonOverlap(Str(sa + "/" + sn), overlapPC) == Ok(Frac(1, DecValue(sn)))
  {
    DigitsAreFree(sa, '/');
    DigitsAreFree(sa, '-');
    SplitTotal(sa, sn);
    SplitNoSep(sa, '-');
    ParseOne(sa);
    ExonOfParts(sa + "/" + sn, sa, sn, [DecValue(sa)], overlapPC);
  }

  /** The range "a-b" splits into its two numbers. */
  lemma RangeParts(sa: string, sb: string)
    requires Numeral(sa) && Numeral(sb)
    ensures '/' !in sa + "-" + sb
    ensures ParseNats(Split(sa + "-" + sb, '-')) == Some([DecValue(sa), DecValue(sb)])
  {
    DigitsAreFree(sa, '/');
    DigitsAreFree(sb, '/');
    DigitsAreFree(sa, '-');
    DigitsAreFree(sb, '-');
    SplitAt(sa, sb, '-');
    SplitNoSep(sb, '-');
    ParseTwo(sa, sb);
  }

  /** "a-b/n" covers the exons from min(a,b) to max(a,b): the fraction is
      (max - min + 1)/n, whichever way round the range is written. */
  lemma ExonRange(sa: string, sb: string, sn: string, overlapPC: Value)
    requires Numeral(sa) && Numeral(sb) && Numeral(sn)
    ensures var a, b := DecValue(sa), DecValue(sb);
      ExonOverlap(Str(sa + "-" + sb + "/" + sn), overlapPC) == Ok(Frac(Max(a, b) - Min(a, b) + 1, DecValue(sn)))
  {
    var range := sa + "-" + sb;
    RangeParts(sa, sb);
    SplitTotal(range, sn);
    ExonOfParts(range + "/" + sn, range, sn, [DecValue(sa), DecValue(sb)], overlapPC);
  }

  /** The order of the two ends does not matter. */
  lemma ExonRangeSymmetric(sa: string, sb: string, sn: string, overlapPC: Value)
    requires Numeral(sa) && Numeral(sb) && Numeral(sn)
    ensures ExonOverlap(Str(sa + "-" + sb + "/" + sn), overlapPC) == ExonOverlap(Str(sb + "-" + sa + "/" + sn), overlapPC)
  {
    ExonRange(sa, sb, sn, overlapPC);
    ExonRange(sb, sa, sn, overlapPC);
    var a, b := DecValue(sa), DecValue(sb);
    assert Max(a, b) - Min(a, b) == Max(b, a) - Min(b, a);
  }

  /** When both ends of "a-b/n" lie in 1..n, `Exon_Overlap` is a fraction
      over n whose numerator lies in 1..n: the overlap lies in (0, 1]. */
  lemma ExonRangeInUnitInterval(sa: string, sb: string, sn: string, overlapPC: Value)
    requires Numeral(sa) && Numeral(sb) && Numeral(sn)
    requires 1 <= DecValue(sa) <= DecValue(sn) && 1 <= DecValue(sb) <= DecValue(sn)
    ensures var r := ExonOverlap(Str(sa + "-" + sb + "/" + sn), overlapPC);
      r.Ok? && r.value.Frac? && r.value.den == DecValue(sn) && 0 < r.value.num <= r.value.den
  {
    ExonRange(sa, sb, sn, overlapPC);
  }

  /** A range "0" falls through to the OverlapPC test, as a null EXON does
      (the chain's `otherwise` branch). */
  lemma ExonZero(sn: string, overlapPC: Value)
    requires Numeral(sn)
    ensures ExonOverlap(Str("0/" + sn), overlapPC) == Ok(OverlapFallback(overlapPC))
    ensures ExonOverlap(Null, overlapPC) == Ok(OverlapFallback(overlapPC))
  {
    SplitTotal("0", sn);
    assert "0" + "/" + sn == "0/" + sn;
    SplitNoSep("0", '-');
    assert Numeral("0") && DecValue("0") == 0;
    ParseOne("0");
    ExonOfParts("0" + "/" + sn, "0", sn, [0], overlapPC);
  }

  lemma SplitThree(x: string, y: string, z: string)
    requires '-' !in x && '-' !in y && '-' !in z
    ensures Split(x + "-" + y + "-" + z, '-') == [x, y, z]
  {
    assert x + "-" + y + "-" + z == x + "-" + (y + "-" + z);
    SplitAt(x, y + "-" + z, '-');
    SplitAt(y, z, '-');
    SplitNoSep(z, '-');
  }

  /** The range "a-b-c" splits into its three numbers. */
  lemma ThreeParts(sa: string, sb: string, sc: string)
    requires Numeral(sa) && Numeral(sb) && Numeral(sc)
    ensures '/' !in sa + "-" + sb + "-" + sc
    ensures ParseNats(Split(sa + "-" + sb + "-" + sc, '-')) == Some([DecValue(sa), DecValue(sb), DecValue(sc)])
  {
    DigitsAreFree(sa, '/');
    DigitsAreFree(sb, '/');
    DigitsAreFree(sc, '/');
    DigitsAreFree(sa, '-');
    DigitsAreFree(sb, '-');
    DigitsAreFree(sc, '-');
    SplitThree(sa, sb, sc);
    ParseThree(sa, sb, sc);
  }

  /** A range with three "-" pieces also falls through to the OverlapPC test. */
  lemma ExonThreePieces(sa: string, sb: string, sc: string, sn: string, overlapPC: Value)
    requires Numeral(sa) && Numeral(sb) && Numeral(sc) && Numeral(sn)
    ensures ExonOverlap(Str(sa + "-" + sb + "-" + sc + "/" + sn), overlapPC) == Ok(OverlapFallback(overlapPC))
  {
    var abc := sa + "-" + sb + "-" + sc;
    ThreeParts(sa, sb, sc);
    SplitTotal(abc, sn);
    ExonOfParts(abc + "/" + sn, abc, sn, [DecValue(sa), DecValue(sb), DecValue(sc)], overlapPC);
  }

  /** An EXON cell without "/" makes the step fail. */
  lemma ExonWithoutTotalFails(e: string, overlapPC: Value)
    requires '/' !in e
    ensures ExonOverlap(Str(e), overlapPC).Err?
  {
    SplitNoSep(e, '/');
  }

  /** The names of the three helper columns that the step drops again. */
  const ExonHelpers: set<string> := {"exon_range", "exon_range_split", "exon_sum"}

  /** Adds `Exon_Overlap` and leaves no helper column behind. */
  function MakeExonOverlap(f: Frame): (r: Result<Frame>)
    ensures r.Ok? <==> ("EXON" in f.names && "OverlapPC" in f.names &&
      forall i :: 0 <= i < |f.rows| ==> ExonOverlap(Get(f.rows[i], "EXON"), Get(f.rows[i], "OverlapPC")).Ok?)
    ensures r.Ok? ==> (r.value.names ==
      Without(if "Exon_Overlap" in f.names then f.names else f.names + ["Exon_Overlap"], ExonHelpers))
    ensures r.Ok? ==> |r.value.rows| == |f.rows|
    ensures r.Ok? ==> forall i, c :: 0 <= i < |f.rows| ==>
      Get(r.value.rows[i], c) ==
        if c == "Exon_Overlap" then ExonOverlap(Get(f.rows[i], "EXON"), Get(f.rows[i], "OverlapPC")).value
        else if c in ExonHelpers then Null
        else Get(f.rows[i], c)
  {
    if "EXON" !in f.names || "OverlapPC" !in f.names then Err("ColumnNotFoundError: EXON or OverlapPC")
    else
      var e := (r: Row) => ExonOverlap(Get(r, "EXON"), Get(r, "OverlapPC"));
      var vals :- EvalColumn(f.rows, e);
      var g := Drop(WithColumn(f, "Exon_Overlap", vals), ExonHelpers);
      assert forall i :: 0 <= i < |f.rows| ==>
        vals[i] == ExonOverlap(Get(f.rows[i], "EXON"), Get(f.rows[i], "OverlapPC")).value by {
        forall i | 0 <= i < |f.rows|
          ensures vals[i] == ExonOverlap(Get(f.rows[i], "EXON"), Get(f.rows[i], "OverlapPC")).value
        {
          assert vals[i] == e(f.rows[i]).value;
        }
      }
      assert "Exon_Overlap" !in ExonHelpers;
      Ok(g)
  }

  // ---------------------------------------------------------------------
  // make_transcript_overlap

  /** `OverlapPC` cast to a float and divided by 100: 0.5 for "50". */
  function TranscriptFraction(overlapPC: Value, castPC: string -> real): (v: Value)
    ensures AsStr(overlapPC).None? <==> v == Null
    ensures AsStr(overlapPC).Some? ==> v == Real(castPC(overlapPC.s) / 100.0)
  {
    match AsStr(overlapPC)
    case Some(s) => Real(castPC(s) / 100.0)
    case None => Null
  }

  /** make_transcript_overlap: `Transcript_BP_Overlap` is appended (or
      replaced in place when present), then `OverlapPC` is dropped. */
  function MakeTranscriptOverlap(f: Frame, castPC: string -> real): (r: Result<Frame>)
    ensures r.Ok? <==> "OverlapPC" in f.names
    ensures r.Ok? ==> "OverlapPC" !in r.value.names && "Transcript_BP_Overlap" in r.value.names
    ensures r.Ok? ==> r.value.names == Without(AddName(f.names, "Transcript_BP_Overlap"), {"OverlapPC"})
    ensures r.Ok? ==> |r.value.rows| == |f.rows|
    ensures r.Ok? ==> forall i, c :: 0 <= i < |f.rows| ==>
      Get(r.value.rows[i], c) ==
        if c == "Transcript_BP_Overlap" then TranscriptFraction(Get(f.rows[i], "OverlapPC"), castPC)
        else if c == "OverlapPC" then Null
        else Get(f.rows[i], c)
  {
    if "OverlapPC" !in f.names then Err("ColumnNotFoundError: OverlapPC")
    else
      var vals := seq(|f.rows|, i requires 0 <= i < |f.rows| =>
        TranscriptFraction(Get(f.rows[i], "OverlapPC"), castPC));
      var w := WithColumn(f, "Transcript_BP_Overlap", vals);
      assert w.names == AddName(f.names, "Transcript_BP_Overlap");
      Ok(Drop(w, {"OverlapPC"}))
  }

  // ---------------------------------------------------------------------
  // make_max_gnomad

  /** The position of a largest element of a non-empty list (`list.max`). */
  function ArgMax(xs: seq<real>): (k: nat)
    requires |xs| > 0
    ensures k < |xs|
    ensures forall j :: 0 <= j < |xs| ==> xs[j] <= xs[k]
  {
    if |xs| == 1 then 0
    else
      var rest := ArgMax(xs[1..]) + 1;
      if xs[0] >= xs[rest] then 0 else rest
  }

  /** The largest of the frequencies in `parts` (`list.max` after the cast). */
  function MaxAF(parts: seq<string>, parseAF: string -> real): (m: real)
    requires |parts| > 0
    ensures exists k :: 0 <= k < |parts| && m == parseAF(parts[k])
    ensures forall k :: 0 <= k < |parts| ==> parseAF(parts[k]) <= m
  {
    var xs := seq(|parts|, k requires 0 <= k < |parts| => parseAF(parts[k]));
    var k := ArgMax(xs);
    assert forall j :: 0 <= j < |parts| ==> xs[j] == parseAF(parts[j]);
    assert xs[k] == parseAF(parts[k]);
    xs[k]
  }

  /** A gnomAD column's cell after the first step: 0 for null, otherwise the
      largest of its comma-separated frequencies. */
  function GnomadValue(v: Value, parseAF: string -> real): (m: real)
    ensures AsStr(v).None? ==> m == 0.0
    ensures AsStr(v).Some? ==> m == MaxAF(Split(v.s, ','), parseAF)
  {
    match AsStr(v)
    case None => 0.0
    case Some(s) => MaxAF(Split(s, ','), parseAF)
  }

  /** The columns the first step converts (`col.startswith("gnomad")`). */
  predicate IsGnomad(c: string) {
    StartsWith(c, "gnomad")
  }

  /** The columns `^gnomad_.*$` selects for the maximum and the drop. */
  predicate IsGnomadAF(c: string) {
    StartsWith(c, "gnomad_")
  }

  lemma NotGnomad(c: string)
    requires |c| > 0 && c[0] != 'g'
    ensures !IsGnomad(c) && !IsGnomadAF(c)
  {
    if |c| >= 6 {
      assert c[..6][0] == c[0];
    }
  }

  function GnomadAFColumns(names: seq<string>): (cs: seq<string>)
    ensures forall c :: c in cs <==> c in names && IsGnomadAF(c)
  {
    Filter(IsGnomadAF, names)
  }

  /** `pl.max_horizontal` over the converted `gnomad_` cells of one row; null
      when the frame has no such column. */
  function RowMaxAF(r: Row, afCols: seq<string>, parseAF: string -> real): (v: Value)
    ensures afCols == [] <==> v == Null
    ensures afCols != [] ==> (v.Real? &&
      (exists k :: 0 <= k < |afCols| && v.x == GnomadValue(Get(r, afCols[k]), parseAF)) &&
      forall k :: 0 <= k < |afCols| ==> GnomadValue(Get(r, afCols[k]), parseAF) <= v.x)
  {
    if afCols == [] then Null
    else
      var xs := seq(|afCols|, k requires 0 <= k < |afCols| => GnomadValue(Get(r, afCols[k]), parseAF));
      var k := ArgMax(xs);
      assert forall j :: 0 <= j < |afCols| ==> xs[j] == GnomadValue(Get(r, afCols[j]), parseAF);
      Real(xs[k])
  }

  /** One row after the step: the converted `gnomad*` cells, the row maximum,
      and no `gnomad_*` cell. */
  function GnomadRow(r: Row, names: seq<string>, afCols: seq<string>, parseAF: string -> real): (r': Row)
    requires "Gnomad_Max_AF" !in afCols
    ensures Get(r', "Gnomad_Max_AF") == RowMaxAF(r, afCols, parseAF)
    ensures forall c :: c in afCols ==> Get(r', c) == Null
    ensures forall c :: c !in afCols && c != "Gnomad_Max_AF" && c in names && IsGnomad(c) ==>
      Get(r', c) == Real(GnomadValue(Get(r, c), parseAF))
    ensures forall c :: c !in afCols && c != "Gnomad_Max_AF" && !(c in names && IsGnomad(c)) ==>
      Get(r', c) == Get(r, c)
  {
    (r + map c | c in names && IsGnomad(c) :: Real(GnomadValue(Get(r, c), parseAF)))
      ["Gnomad_Max_AF" := RowMaxAF(r, afCols, parseAF)]
      - (set c | c in afCols)
  }

  /** Converts every `gnomad*` column, adds `Gnomad_Max_AF` as the row-wise
      maximum over the `gnomad_*` columns, then drops those columns. */
  function MakeMaxGnomad(f: Frame, parseAF: string -> real): (g: Frame)
    ensures g.names ==
      Without(if "Gnomad_Max_AF" in f.names then f.names else f.names + ["Gnomad_Max_AF"],
              set c | c in f.names && IsGnomadAF(c))
    ensures forall c :: IsGnomadAF(c) ==> c !in g.names
    ensures |g.rows| == |f.rows|
    ensures forall i :: 0 <= i < |f.rows| ==>
      Get(g.rows[i], "Gnomad_Max_AF") == RowMaxAF(f.rows[i], GnomadAFColumns(f.names), parseAF)
    ensures forall i, c :: 0 <= i < |f.rows| && c in f.names && IsGnomad(c) && !IsGnomadAF(c) ==>
      Get(g.rows[i], c) == Real(GnomadValue(Get(f.rows[i], c), parseAF))
    ensures forall i, c :: 0 <= i < |f.rows| && c != "Gnomad_Max_AF" && !IsGnomad(c) ==>
      Get(g.rows[i], c) == Get(f.rows[i], c)
  {
    var afCols := GnomadAFColumns(f.names);
    var names := if "Gnomad_Max_AF" in f.names then f.names else f.names + ["Gnomad_Max_AF"];
    NotGnomad("Gnomad_Max_AF");
    var dropped := set c | c in afCols;
    assert dropped == (set c | c in f.names && IsGnomadAF(c));
    assert forall c :: c in afCols ==> IsGnomad(c) by {
      forall c | c in afCols ensures IsGnomad(c) {
        assert c[..6] == c[..7][..6];
      }
    }
    var rows := seq(|f.rows|, i requires 0 <= i < |f.rows| => GnomadRow(f.rows[i], f.names, afCols, parseAF));
    Frame(Without(names, dropped), rows)
  }

  // ---------------------------------------------------------------------
  // make_CNV_ID

  /** The copy-number class token: the first three characters, upper-cased. */
  function AlleleType(allele: string): (t: string)
    ensures |t| == Min(3, |allele|)
    ensures forall k :: 0 <= k < |t| ==> t[k] == UpperChar(allele[k])
  {
    Upper(allele[..Min(3, |allele|)])
  }

  /** `Location ++ "_" ++ type` with every ':', '|' and '-' turned into '_':
      as long as the concatenation, and free of the three separators. */
  function CnvId(location: string, alleleType: string): (id: string)
    ensures |id| == |location| + 1 + |alleleType|
    ensures forall k :: 0 <= k < |id| ==> !IsSeparator(id[k])
    ensures forall k :: 0 <= k < |location| ==>
      id[k] == if IsSeparator(location[k]) then '_' else location[k]
    ensures id[|location|] == '_'
    ensures forall k :: 0 <= k < |alleleType| ==>
      id[|location| + 1 + k] == if IsSeparator(alleleType[k]) then '_' else alleleType[k]
  {
    var joined := location + "_" + alleleType;
    assert forall k :: |location| < k < |joined| ==> joined[k] == alleleType[k - |location| - 1];
    ReplaceSeparators(joined)
  }

  /** A string cell with its type token; any other cell becomes null. */
  function AlleleCell(v: Value): Value {
    match AsStr(v)
    case Some(s) => Str(AlleleType(s))
    case None => Null
  }

  /** `Location + "_" + Allele`: null when either side is null. */
  function CnvIdCell(location: Value, alleleType: Value): Value {
    match (AsStr(location), AsStr(alleleType))
    case (Some(l), Some(t)) => Str(CnvId(l, t))
    case _ => Null
  }

  /** The column order after make_CNV_ID: `CNV_ID`, then every other column
      except `#Uploaded_variation`, in the original order. */
  function CnvIdOrder(names: seq<string>): (order: seq<string>)
    ensures |order| >= 1 && order[0] == "CNV_ID"
    ensures forall c :: c in order[1..] <==> c in names && c != "CNV_ID" && c != "#Uploaded_variation"
    ensures NoDup(names) ==> NoDup(order)
  {
    var rest := Without(names, {"CNV_ID", "#Uploaded_variation"});
    assert forall k :: 1 <= k < |["CNV_ID"] + rest| ==> (["CNV_ID"] + rest)[k] == rest[k - 1];
    ["CNV_ID"] + rest
  }

  /** The two `with_columns` of make_CNV_ID: the type token replaces
      `Allele`, then `CNV_ID` is built from `Location` and that token. */
  function CnvIdColumns(f: Frame): (g: Frame)
    requires "Allele" in f.names
    ensures g.names == if "CNV_ID" in f.names then f.names else f.names + ["CNV_ID"]
    ensures |g.rows| == |f.rows|
    ensures forall i, c :: 0 <= i < |f.rows| ==>
      Get(g.rows[i], c) ==
        if c == "CNV_ID" then CnvIdCell(Get(f.rows[i], "Location"), AlleleCell(Get(f.rows[i], "Allele")))
        else if c == "Allele" then AlleleCell(Get(f.rows[i], "Allele"))
        else Get(f.rows[i], c)
  {
    var a := WithColumn(f, "Allele",
      seq(|f.rows|, i requires 0 <= i < |f.rows| => AlleleCell(Get(f.rows[i], "Allele"))));
    WithColumn(a, "CNV_ID",
      seq(|a.rows|, i requires 0 <= i < |a.rows| => CnvIdCell(Get(a.rows[i], "Location"), Get(a.rows[i], "Allele"))))
  }

  /** make_CNV_ID: fails when `Allele` or `Location` is missing, keeps the
      row count, and selects the columns in the order of `CnvIdOrder`. When
      it succeeds and the column order it gives are stated by
      `MakeCnvIdNames`, and the cells of every row by `MakeCnvIdCells`. */
  function MakeCnvId(f: Frame): (r: Result<Frame>)
    ensures r.Ok? ==> "Allele" in f.names && "Location" in f.names
    ensures r.Ok? ==> |r.value.rows| == |f.rows|
  {
    if "Allele" !in f.names || "Location" !in f.names then Err("ColumnNotFoundError: Allele or Location")
    else
      var b := CnvIdColumns(f);
      Select(b, CnvIdOrder(b.names))
  }

  /** On a frame with distinct column names that holds both inputs, the step
      succeeds; its columns are `CNV_ID` and then the others minus
      `#Uploaded_variation`. */
  lemma MakeCnvIdNames(f: Frame)
    ensures NoDup(f.names) && "Allele" in f.names && "Location" in f.names ==> MakeCnvId(f).Ok?
    ensures MakeCnvId(f).Ok? ==>
      MakeCnvId(f).value.names == CnvIdOrder(if "CNV_ID" in f.names then f.names else f.names + ["CNV_ID"])
  {
    if "Allele" in f.names && "Location" in f.names {
      var b := CnvIdColumns(f);
      assert NoDup(f.names) ==> NoDup(b.names) by {
        if NoDup(f.names) && "CNV_ID" !in f.names {
          NoDupAppend(f.names, "CNV_ID");
        }
      }
    }
  }

  /** The cells after make_CNV_ID: the type token in `Allele`, the new
      identifier in `CNV_ID`, no `#Uploaded_variation`, and every other
      kept column unchanged. */
  lemma MakeCnvIdCells(f: Frame)
    ensures MakeCnvId(f).Ok? ==> forall i :: 0 <= i < |f.rows| ==>
      Get(MakeCnvId(f).value.rows[i], "Allele") == AlleleCell(Get(f.rows[i], "Allele")) &&
      Get(MakeCnvId(f).value.rows[i], "CNV_ID") ==
        CnvIdCell(Get(f.rows[i], "Location"), AlleleCell(Get(f.rows[i], "Allele"))) &&
      Get(MakeCnvId(f).value.rows[i], "#Uploaded_variation") == Null
    ensures MakeCnvId(f).Ok? ==> forall i, c ::
      0 <= i < |f.rows| && c in MakeCnvId(f).value.names && c != "Allele" && c != "CNV_ID" ==>
        Get(MakeCnvId(f).value.rows[i], c) == Get(f.rows[i], c)
  {
    if MakeCnvId(f).Ok? {
      var b := CnvIdColumns(f);
      var order := CnvIdOrder(b.names);
      assert "#Uploaded_variation" !in order by {
        assert "#Uploaded_variation" != order[0];
      }
    }
  }

  // ---------------------------------------------------------------------
  // make_canon_bool

  /** CANONICAL as a boolean: null when the row has no transcript (`Feature`
      is null); otherwise true iff the token is present and contains "YES",
      so a null token gives false. */
  function CanonicalFlag(feature: Value, canonical: Value): (v: Value)
    ensures v == Null <==> feature == Null
    ensures v == Bool(true) <==> feature != Null && AsStr(canonical).Some? && Contains(canonical.s, "YES")
    ensures feature != Null && AsStr(canonical).None? ==> v == Bool(false)
    ensures v == Null || v.Bool?
  {
    if feature == Null then Null
    else
      assert !Contains("", "YES");
      Bool(Contains(AsStr(canonical).GetOr(""), "YES"))
  }

  function MakeCanonBool(f: Frame): (r: Result<Frame>)
    ensures r.Ok? <==> "Feature" in f.names && "CANONICAL" in f.names
    ensures r.Ok? ==> r.value.names == f.names && |r.value.rows| == |f.rows|
    ensures r.Ok? ==> forall i, c :: 0 <= i < |f.rows| ==>
      Get(r.value.rows[i], c) ==
        if c == "CANONICAL" then CanonicalFlag(Get(f.rows[i], "Feature"), Get(f.rows[i], "CANONICAL"))
        else Get(f.rows[i], c)
  {
    if "Feature" !in f.names || "CANONICAL" !in f.names then Err("ColumnNotFoundError: Feature or CANONICAL")
    else
      Ok(WithColumn(f, "CANONICAL", seq(|f.rows|, i requires 0 <= i < |f.rows| =>
        CanonicalFlag(Get(f.rows[i], "Feature"), Get(f.rows[i], "CANONICAL")))))
  }

  // ---------------------------------------------------------------------
  // make_consequence_list

  /** The comma-split list of a Consequence cell; joining it with "," gives
      the original text back. */
  function ConsequenceCell(v: Value): (w: Value)
    ensures AsStr(v).None? <==> w == Null
    ensures AsStr(v).Some? ==> w.StrList? && |w.items| >= 1 && Join(w.items, ',') == v.s
  {
    match AsStr(v)
    case Some(s) => JoinSplit(s, ','); StrList(Split(s, ','))
    case None => Null
  }

  function MakeConsequenceList(f: Frame): (r: Result<Frame>)
    ensures r.Ok? <==> "Consequence" in f.names
    ensures r.Ok? ==> r.value.names == f.names && |r.value.rows| == |f.rows|
    ensures r.Ok? ==> forall i, c :: 0 <= i < |f.rows| ==>
      Get(r.value.rows[i], c) ==
        if c == "Consequence" then ConsequenceCell(Get(f.rows[i], "Consequence"))
        else Get(f.rows[i], c)
  {
    if "Consequence" !in f.names then Err("ColumnNotFoundError: Consequence")
    else
      Ok(WithColumn(f, "Consequence", seq(|f.rows|, i requires 0 <= i < |f.rows| =>
        ConsequenceCell(Get(f.rows[i], "Consequence")))))
  }

  // ---------------------------------------------------------------------
  // main

  /** The names the rename needs: `Feature` and `Gene` are columns, and
      neither new name is taken. */
  predicate Renamable(names: seq<string>) {
    "Feature" in names && "Gene" in names && "Transcript_ID" !in names && "Gene_ID" !in names
  }

  /** The rename before the output is written: `Feature` becomes
      `Transcript_ID` and `Gene` becomes `Gene_ID`; every other column keeps
      its name, its position and its cells. */
  function RenameIds(f: Frame): (r: Result<Frame>)
    ensures r.Ok? <==> Renamable(f.names)
    ensures r.Ok? ==> |r.value.names| == |f.names| && |r.value.rows| == |f.rows|
    ensures r.Ok? ==> forall k :: 0 <= k < |f.names| ==>
      r.value.names[k] == RenameName(RenameName(f.names[k], "Feature", "Transcript_ID"), "Gene", "Gene_ID")
    ensures r.Ok? ==> forall i, d :: 0 <= i < |f.rows| ==>
      Get(r.value.rows[i], d) ==
        if d == "Transcript_ID" then Get(f.rows[i], "Feature")
        else if d == "Gene_ID" then Get(f.rows[i], "Gene")
        else if d == "Feature" || d == "Gene" then Null
        else Get(f.rows[i], d)
  {
    var a :- Rename(f, "Feature", "Transcript_ID");
    Rename(a, "Gene", "Gene_ID")
  }

  /** The steps up to make_CNV_ID: the frame then starts with `CNV_ID` and
      holds neither the raw `OverlapPC` nor a `gnomad_*` column. */
  function Annotate(f: Frame, castPC: string -> real, parseAF: string -> real): (r: Result<Frame>)
    ensures r.Ok? ==> |r.value.rows| == |f.rows|
    ensures r.Ok? ==> |r.value.names| >= 1 && r.value.names[0] == "CNV_ID"
    ensures r.Ok? ==> forall c :: c in r.value.names ==> CleanName(c)
  {
    var c :- Overlaps(f, castPC);
    GnomadNames(c, parseAF);
    var d := MakeMaxGnomad(c, parseAF);
    CnvIdNames(d);
    MakeCnvId(d)
  }

  lemma GnomadNames(c: Frame, parseAF: string -> real)
    requires "OverlapPC" !in c.names
    ensures forall x :: x in MakeMaxGnomad(c, parseAF).names ==> x != "OverlapPC" && !IsGnomadAF(x)
  {
    NotGnomad("Gnomad_Max_AF");
  }

  lemma CnvIdNames(d: Frame)
    ensures MakeCnvId(d).Ok? ==> forall x :: x in MakeCnvId(d).value.names ==>
      x == "CNV_ID" || (x in d.names && x != "#Uploaded_variation")
  {
    var r := MakeCnvId(d);
    MakeCnvIdNames(d);
    if r.Ok? {
      var order := CnvIdOrder(if "CNV_ID" in d.names then d.names else d.names + ["CNV_ID"]);
      forall x | x in r.value.names ensures x == "CNV_ID" || (x in d.names && x != "#Uploaded_variation") {
        assert x == order[0] || x in order[1..];
      }
    }
  }

  /** make_null, make_exon_overlap and make_transcript_overlap. */
  function Overlaps(f: Frame, castPC: string -> real): (r: Result<Frame>)
    ensures r.Ok? ==> |r.value.rows| == |f.rows| && "OverlapPC" !in r.value.names
  {
    var a := MakeNull(f);
    var b :- MakeExonOverlap(a);
    MakeTranscriptOverlap(b, castPC)
  }

  /** A column the output may hold: not the raw `#Uploaded_variation`, not
      `OverlapPC`, and no individual `gnomad_*` frequency. */
  predicate CleanName(c: string) {
    c != "#Uploaded_variation" && c != "OverlapPC" && !IsGnomadAF(c)
  }

  /** make_canon_bool, make_consequence_list and the rename: the columns are
      kept in place, only `Feature` and `Gene` change name. */
  function Finish(e: Frame): (r: Result<Frame>)
    ensures r.Ok? <==> FinishReady(e.names)
    ensures r.Ok? ==> |r.value.rows| == |e.rows| && |r.value.names| == |e.names|
    ensures r.Ok? ==> forall k :: 0 <= k < |e.names| ==>
      r.value.names[k] == RenameName(RenameName(e.names[k], "Feature", "Transcript_ID"), "Gene", "Gene_ID")
    ensures r.Ok? ==> forall i, d :: 0 <= i < |e.rows| ==>
      Get(r.value.rows[i], d) ==
        if d == "Transcript_ID" then Get(e.rows[i], "Feature")
        else if d == "Gene_ID" then Get(e.rows[i], "Gene")
        else if d == "Feature" || d == "Gene" then Null
        else if d == "CANONICAL" then CanonicalFlag(Get(e.rows[i], "Feature"), Get(e.rows[i], "CANONICAL"))
        else if d == "Consequence" then ConsequenceCell(Get(e.rows[i], "Consequence"))
        else Get(e.rows[i], d)
  {
    var g :- MakeCanonBool(e);
    var h :- MakeConsequenceList(g);
    RenameIds(h)
  }

  /** The columns the last two steps and the rename need. */
  predicate FinishReady(names: seq<string>) {
    "CANONICAL" in names && "Consequence" in names && Renamable(names)
  }

  /** Renaming `Feature` and `Gene` keeps a clean column clean. */
  lemma RenameKeepsClean(c: string)
    requires CleanName(c)
    ensures CleanName(RenameName(RenameName(c, "Feature", "Transcript_ID"), "Gene", "Gene_ID"))
  {
    NotGnomad("Transcript_ID");
    NotGnomad("Gene_ID");
  }

  /** The whole script: make_null, make_exon_overlap, then the chain
      make_transcript_overlap, make_max_gnomad, make_CNV_ID, make_canon_bool,
      make_consequence_list, and the rename. */
  function GeneDbTable(f: Frame, castPC: string -> real, parseAF: string -> real): (r: Result<Frame>)
    ensures r.Ok? <==> (var e := Annotate(f, castPC, parseAF); e.Ok? && FinishReady(e.value.names))
    ensures r.Ok? ==> |r.value.rows| == |f.rows|
    ensures r.Ok? ==> |r.value.names| >= 1 && r.value.names[0] == "CNV_ID"
    ensures r.Ok? ==> forall c :: c in r.value.names ==> CleanName(c)
  {
    var e :- Annotate(f, castPC, parseAF);
    FinishClean(e);
    Finish(e)
  }

  /** The last steps keep clean names clean. */
  lemma FinishClean(e: Frame)
    requires forall c :: c in e.names ==> CleanName(c)
    ensures Finish(e).Ok? ==> forall c :: c in Finish(e).value.names ==> CleanName(c)
  {
    if Finish(e).Ok? {
      var out := Finish(e).value;
      forall k | 0 <= k < |out.names| ensures CleanName(out.names[k]) {
        RenameKeepsClean(e.names[k]);
      }
    }
  }
}
