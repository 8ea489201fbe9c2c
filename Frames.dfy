/** A data-frame model of the Polars tables the scripts transform: an ordered
    list of column names and, per row, a map from column name to cell. A
    cell that a row does not hold reads as null. The operations mirror the
    Polars calls the scripts use: `with_columns`, `drop`, `select`, `rename`,
    `concat_str`, and the two idioms the scripts share (the case-insensitive
    header map and the "IDs first" column order). */
module Frames {
  import opened Basics
  import opened Text
  import opened Seqs

  /** A cell. `Frac(num, den)` is the exact quotient num/den of an
      exon-overlap fraction; `den == 0` stands for a float division by zero.
      `StrList` and `IntList` are Polars list cells. */
  datatype Value =
    | Null
    | Str(s: string)
    | Int(i: int)
    | Real(x: real)
    | Frac(num: nat, den: nat)
    | Bool(b: bool)
    | StrList(items: seq<string>)
    | IntList(ints: seq<int>)

  /** A string cell's text; any other cell, null included, reads as no text. */
  function AsStr(v: Value): Option<string> {
    if v.Str? then Some(v.s) else None
  }

  type Row = map<string, Value>

  datatype Frame = Frame(names: seq<string>, rows: seq<Row>)

  function Get(r: Row, c: string): Value {
    if c in r then r[c] else Null
  }

  /** `df.with_columns(expr.alias(c))` where `vals` holds the expression's
      value on each row: an existing column keeps its position, a new one is
      appended. */
  function WithColumn(f: Frame, c: string, vals: seq<Value>): (g: Frame)
    requires |vals| == |f.rows|
    ensures |g.rows| == |f.rows|
    ensures g.names == if c in f.names then f.names else f.names + [c]
    ensures forall i, d :: 0 <= i < |f.rows| ==>
      Get(g.rows[i], d) == if d == c then vals[i] else Get(f.rows[i], d)
  {
    Frame(if c in f.names then f.names else f.names + [c],
          seq(|f.rows|, i requires 0 <= i < |f.rows| => f.rows[i][c := vals[i]]))
  }

  /** The column names after `with_columns(c = ...)`: an existing column keeps
      its place, a new one is appended. */
  function AddName(names: seq<string>, c: string): (r: seq<string>)
    ensures c in r && forall d :: d in names ==> d in r
  {
    if c in names then names else names + [c]
  }

  /** The values of a fallible column expression on every row; the whole
      step fails as soon as one row fails, as a strict Polars cast does. */
  function EvalColumn(rows: seq<Row>, e: Row -> Result<Value>): (r: Result<seq<Value>>)
    ensures r.Ok? <==> forall i :: 0 <= i < |rows| ==> e(rows[i]).Ok?
    ensures r.Ok? ==> (|r.value| == |rows| &&
      forall i :: 0 <= i < |rows| ==> r.value[i] == e(rows[i]).value)
  {
    if |rows| == 0 then Ok([])
    else
      match (e(rows[0]), EvalColumn(rows[1..], e))
      case (Ok(v), Ok(vs)) => Ok([v] + vs)
      case (Err(m), _) => Err(m)
      case (_, Err(m)) => Err(m)
  }

  /** `names` without the members of `cs`, in their original order. */
  function Without(names: seq<string>, cs: set<string>): (r: seq<string>)
    ensures forall c :: c in r <==> c in names && c !in cs
    ensures NoDup(names) ==> NoDup(r)
  {
    if |names| == 0 then []
    else if names[0] in cs then Without(names[1..], cs)
    else
      assert NoDup(names) ==> names[0] !in names[1..];
      [names[0]] + Without(names[1..], cs)
  }

  /** `df.drop(cs)`. */
  function Drop(f: Frame, cs: set<string>): (g: Frame)
    ensures g.names == Without(f.names, cs)
    ensures |g.rows| == |f.rows|
    ensures forall i, d :: 0 <= i < |f.rows| ==>
      Get(g.rows[i], d) == if d in cs then Null else Get(f.rows[i], d)
  {
    Frame(Without(f.names, cs), seq(|f.rows|, i requires 0 <= i < |f.rows| => f.rows[i] - cs))
  }

  /** `df.select(cs)`: fails when a column is missing or named twice. */
  function Select(f: Frame, cs: seq<string>): (r: Result<Frame>)
    ensures r.Ok? <==> (forall c :: c in cs ==> c in f.names) && NoDup(cs)
    ensures r.Ok? ==> r.value.names == cs && |r.value.rows| == |f.rows|
    ensures r.Ok? ==> forall i, d :: 0 <= i < |f.rows| ==>
      Get(r.value.rows[i], d) == if d in cs then Get(f.rows[i], d) else Null
  {
    if (forall c :: c in cs ==> c in f.names) && NoDup(cs) then
      Ok(Frame(cs, seq(|f.rows|, i requires 0 <= i < |f.rows| =>
        map c | c in cs :: Get(f.rows[i], c))))
    else
      Err("ColumnNotFoundError or DuplicateError in select")
  }

  function RenameName(c: string, from: string, to: string): string {
    if c == from then to else c
  }

  /** `df.rename({from: to})`: fails when `from` is missing or `to` is taken. */
  function Rename(f: Frame, from: string, to: string): (r: Result<Frame>)
    ensures r.Ok? <==> from in f.names && (to == from || to !in f.names)
    ensures r.Ok? ==> |r.value.names| == |f.names| && |r.value.rows| == |f.rows|
    ensures r.Ok? ==> forall k :: 0 <= k < |f.names| ==>
      r.value.names[k] == RenameName(f.names[k], from, to)
    ensures r.Ok? ==> forall i, d :: 0 <= i < |f.rows| ==>
      Get(r.value.rows[i], d) ==
        if d == to then Get(f.rows[i], from)
        else if d == from then Null
        else Get(f.rows[i], d)
  {
    if from in f.names && (to == from || to !in f.names) then
      Ok(Frame(seq(|f.names|, k requires 0 <= k < |f.names| => RenameName(f.names[k], from, to)),
               seq(|f.rows|, i requires 0 <= i < |f.rows| =>
                 (f.rows[i] - {from})[to := Get(f.rows[i], from)])))
    else
      Err("ColumnNotFoundError or DuplicateError in rename")
  }

  // ---------------------------------------------------------------------
  // `concat_str`

  /** The text Polars' `concat_str` (and an explicit cast to text) gives a
      cell; null has none. Float and list cells are not given a text here. */
  function CellText(v: Value): Option<string> {
    match v
    case Str(s) => Some(s)
    case Int(i) => Some(IntToDec(i))
    case Bool(b) => Some(if b then "true" else "false")
    case _ => None
  }

  predicate AllText(vs: seq<Value>) {
    forall k :: 0 <= k < |vs| ==> CellText(vs[k]).Some?
  }

  /** `pl.concat_str(cols, separator = sep)`: null as soon as one cell is null. */
  function ConcatStr(vs: seq<Value>, sep: char): (v: Value)
    ensures v == Null <==> !AllText(vs)
    ensures v != Null ==> v == Str(Join(seq(|vs|, k requires 0 <= k < |vs| => CellText(vs[k]).value), sep))
  {
    if AllText(vs) then
      Str(Join(seq(|vs|, k requires 0 <= k < |vs| => CellText(vs[k]).value), sep))
    else
      Null
  }

  /** `concat_str` of four cells: null when one of them has no text,
      otherwise their texts joined by `sep`. */
  lemma ConcatFour(a: Value, b: Value, c: Value, d: Value, sep: char)
    ensures ConcatStr([a, b, c, d], sep) == Null <==>
      CellText(a).None? || CellText(b).None? || CellText(c).None? || CellText(d).None?
    ensures ConcatStr([a, b, c, d], sep) != Null ==>
      ConcatStr([a, b, c, d], sep) == Str(CellText(a).value + [sep] + CellText(b).value + [sep] +
        CellText(c).value + [sep] + CellText(d).value)
  {
    var vs := [a, b, c, d];
    AllTextFour(a, b, c, d);
    if AllText(vs) {
      var ts := seq(|vs|, k requires 0 <= k < |vs| => CellText(vs[k]).value);
      assert ts == [CellText(a).value, CellText(b).value, CellText(c).value, CellText(d).value];
      JoinFour(CellText(a).value, CellText(b).value, CellText(c).value, CellText(d).value, sep);
    }
  }

  lemma AllTextFour(a: Value, b: Value, c: Value, d: Value)
    ensures AllText([a, b, c, d]) <==>
      CellText(a).Some? && CellText(b).Some? && CellText(c).Some? && CellText(d).Some?
  {
    var vs := [a, b, c, d];
    assert vs[0] == a && vs[1] == b && vs[2] == c && vs[3] == d;
  }

  lemma JoinFour(p: string, q: string, r: string, t: string, sep: char)
    ensures Join([p, q, r, t], sep) == p + [sep] + q + [sep] + r + [sep] + t
  {
    assert Join([t], sep) == t;
    assert [r, t][1..] == [t];
    assert Join([r, t], sep) == r + [sep] + t;
    assert [q, r, t][1..] == [r, t];
    assert Join([q, r, t], sep) == q + [sep] + Join([r, t], sep);
    assert [p, q, r, t][1..] == [q, r, t];
  }

  // ---------------------------------------------------------------------
  // The header map `{name.lower(): name for name in header}`

  /** Maps each lower-cased header to its original spelling; when two headers
      differ only in case, the later one wins, as in a dict comprehension. */
  function ColMap(header: seq<string>): (m: map<string, string>)
    ensures m.Keys == set h | h in header :: Lower(h)
    ensures forall k :: k in m ==> Lower(m[k]) == k && m[k] in header
  {
    if header == [] then map[]
    else
      var last := header[|header| - 1];
      var m0 := ColMap(header[..|header| - 1]);
      assert header == header[..|header| - 1] + [last];
      m0[Lower(last) := last]
  }

  /** The header that wins for a lower-cased key is the last one with that key. */
  lemma {:induction false} ColMapLastWins(header: seq<string>, i: nat)
    requires i < |header|
    requires forall j :: i < j < |header| ==> Lower(header[j]) != Lower(header[i])
    ensures ColMap(header)[Lower(header[i])] == header[i]
    decreases |header|
  {
    if i < |header| - 1 {
      var init := header[..|header| - 1];
      ColMapLastWins(init, i);
    }
  }

  // ---------------------------------------------------------------------
  // "IDs in front": ["CNV_ID", "SampleID"] + every other column in order

  function IdsFirst(names: seq<string>): (order: seq<string>)
    ensures |order| >= 2 && order[0] == "CNV_ID" && order[1] == "SampleID"
    ensures order[2..] == Without(names, {"CNV_ID", "SampleID"})
  {
    ["CNV_ID", "SampleID"] + Without(names, {"CNV_ID", "SampleID"})
  }

  /** Every column of a frame is an IDs-first column, */
  lemma IdsFirstHas(names: seq<string>, d: string)
    requires d in names
    ensures d in IdsFirst(names)
  {
    if d != "CNV_ID" && d != "SampleID" {
      assert d in Without(names, {"CNV_ID", "SampleID"});
    }
  }

  /** so putting the IDs first keeps every cell of every row. */
  lemma IdsFirstCells(f: Frame, i: nat)
    requires Select(f, IdsFirst(f.names)).Ok? && i < |f.rows|
    ensures forall d :: d in f.names ==> Get(Select(f, IdsFirst(f.names)).value.rows[i], d) == Get(f.rows[i], d)
  {
    forall d | d in f.names ensures d in IdsFirst(f.names) {
      IdsFirstHas(f.names, d);
    }
  }

  /** On duplicate-free names that hold both IDs, the new order is a
      permutation of the old one. */
  lemma IdsFirstPermutation(names: seq<string>)
    requires NoDup(names)
    requires "CNV_ID" in names && "SampleID" in names
    ensures NoDup(IdsFirst(names))
    ensures multiset(IdsFirst(names)) == multiset(names)
  {
    var rest := Without(names, {"CNV_ID", "SampleID"});
    var order := IdsFirst(names);
    assert order == ["CNV_ID", "SampleID"] + rest;
    forall i, j | 0 <= i < j < |order| ensures order[i] != order[j] {
      if j >= 2 {
        assert order[j] == rest[j - 2];
        assert rest[j - 2] in rest;
        assert order[j] !in {"CNV_ID", "SampleID"};
        if i >= 2 {
          assert order[i] == rest[i - 2];
        } else {
          assert order[i] in {"CNV_ID", "SampleID"};
        }
      } else {
        assert order[0] == "CNV_ID" && order[1] == "SampleID";
        assert |"CNV_ID"| != |"SampleID"|;
      }
    }
    forall c ensures c in order <==> c in names {
      assert c in order <==> c == "CNV_ID" || c == "SampleID" || c in rest;
    }
    SameSetPermutation(order, names);
  }

  /** Two duplicate-free sequences with the same elements are permutations of each other. */
  lemma SameSetPermutation<T>(a: seq<T>, b: seq<T>)
    requires NoDup(a) && NoDup(b)
    requires forall x :: x in a <==> x in b
    ensures multiset(a) == multiset(b)
  {
    forall x ensures multiset(a)[x] == multiset(b)[x] {
      NoDupMultiplicity(a, x);
      NoDupMultiplicity(b, x);
    }
  }

  lemma {:induction false} NoDupMultiplicity<T>(s: seq<T>, x: T)
    requires NoDup(s)
    ensures multiset(s)[x] == if x in s then 1 else 0
  {
    if |s| > 0 {
      assert s == [s[0]] + s[1..];
      NoDupMultiplicity(s[1..], x);
      assert s[0] !in s[1..];
    }
  }
}
