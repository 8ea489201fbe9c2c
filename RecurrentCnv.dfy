/** annotate_rCNV.py: matches each CNV against a catalog of recurrent CNVs
    (each a gene set), flags the sample table with the best full match, and
    counts the samples carrying each catalog label. Every `CREATE TABLE ... AS
    SELECT` of the script is one function over the tables built before it;
    `Session` replays the script's sequence of statements on one
    in-memory database. */
module RecurrentCnv {
  import opened Basics
  import opened Text
  import opened Seqs
  import opened Frames

  // ---------------------------------------------------------------------
  // Step 2: gene edges of the annotation table

  /** One row of `geneDB_exploded`: a CNV, a gene it overlaps, and the
      CNV's type token (`Allele AS Type`). */
  datatype Edge = Edge(cnv: Option<string>, gene: Option<string>, kind: Option<string>)

  /** `Exon_Overlap > 0` in DuckDB. A division by zero gave +inf (n/0, n > 0)
      or NaN (0/0), and DuckDB orders NaN above every number, so both pass;
      null does not. */
  predicate Positive(v: Value) {
    match v
    case Frac(n, d) => n > 0 || d == 0
    case Real(x) => x > 0.0
    case Int(i) => i > 0
    case _ => false
  }

  /** The WHERE clause of step 2. */
  predicate IsGeneEdge(r: Row) {
    Positive(Get(r, "Exon_Overlap")) && Get(r, "CANONICAL") == Bool(true)
  }

  function EdgeOf(r: Row): Edge {
    Edge(AsStr(Get(r, "CNV_ID")), AsStr(Get(r, "Gene_ID")), AsStr(Get(r, "Allele")))
  }

  /** `geneDB_exploded`: one edge per annotation row that overlaps an exon of
      a canonical transcript, in row order. */
  function GeneEdges(rows: seq<Row>): (es: seq<Edge>)
    ensures |es| <= |rows|
    ensures forall e :: e in es <==> exists r :: r in rows && IsGeneEdge(r) && e == EdgeOf(r)
  {
    if rows == [] then []
    else
      var rest := GeneEdges(rows[1..]);
      assert forall r :: r in rows <==> r == rows[0] || r in rows[1..];
      (if IsGeneEdge(rows[0]) then [EdgeOf(rows[0])] else []) + rest
  }

  // ---------------------------------------------------------------------
  // Step 3: the catalog's gene lists, one member row per gene

  /** The genome build chosen on the command line; it picks the gene column. */
  datatype Build = GRCh37 | GRCh38

  /** One row of the recurrent-CNV catalog. */
  datatype CatalogRow = CatalogRow(id: Option<string>, geneset37: Option<string>, geneset38: Option<string>)

  /** `geneset_GRCh37` or `geneset_GRCh38`. */
  function GeneSet(c: CatalogRow, build: Build): Option<string> {
    if build == GRCh37 then c.geneset37 else c.geneset38
  }

  /** One row of `recurrent_exploded`. */
  datatype Member = Member(id: Option<string>, gene: string)

  /** `CROSS JOIN UNNEST(string_split(col, ','))` on one catalog row, each
      token trimmed: a null list gives no member, an empty token an empty gene. */
  function RowMembers(c: CatalogRow, build: Build): (ms: seq<Member>)
    ensures GeneSet(c, build).None? ==> ms == []
    ensures forall m {:trigger m in ms} :: m in ms ==> m.id == c.id
    ensures GeneSet(c, build).Some? ==>
      var parts := Split(GeneSet(c, build).value, ',');
      |ms| == |parts| && forall k :: 0 <= k < |parts| ==> ms[k] == Member(c.id, Trim(parts[k]))
  {
    match GeneSet(c, build)
    case None => []
    case Some(s) =>
      var parts := Split(s, ',');
      var ms := seq(|parts|, k requires 0 <= k < |parts| => Member(c.id, Trim(parts[k])));
      assert forall m :: m in ms ==> m.id == c.id;
      ms
  }

  /** `recurrent_exploded`: the members of every catalog row, in row order. */
  function Explode(cat: seq<CatalogRow>, build: Build): (ms: seq<Member>)
    ensures forall m :: m in ms <==> exists c :: c in cat && m in RowMembers(c, build)
  {
    if cat == [] then []
    else
      assert forall c :: c in cat <==> c == cat[0] || c in cat[1..];
      RowMembers(cat[0], build) + Explode(cat[1..], build)
  }

  /** S(id): the genes of a catalog entry, over all catalog rows with that id. */
  function EntryGenes(ms: seq<Member>, id: Option<string>): set<string> {
    set m {:trigger m in ms} | m in ms && m.id == id :: m.gene
  }

  /** A catalog row lists gene `g` for its entry, after trimming, in the
      column of the chosen build. */
  predicate Lists(c: CatalogRow, build: Build, g: string) {
    GeneSet(c, build).Some? && exists t :: t in Split(GeneSet(c, build).value, ',') && Trim(t) == g
  }

  lemma RowMembersLists(c: CatalogRow, build: Build, g: string)
    ensures Member(c.id, g) in RowMembers(c, build) <==> Lists(c, build, g)
  {
    var ms := RowMembers(c, build);
    if Member(c.id, g) in ms {
      var parts := Split(GeneSet(c, build).value, ',');
      var k :| 0 <= k < |ms| && ms[k] == Member(c.id, g);
      assert parts[k] in parts;
    }
    if Lists(c, build, g) {
      var parts := Split(GeneSet(c, build).value, ',');
      var t :| t in parts && Trim(t) == g;
      var k :| 0 <= k < |parts| && parts[k] == t;
      assert ms[k] == Member(c.id, g);
    }
  }

  /** A gene belongs to an entry iff a catalog row with that id lists it. */
  lemma EntryGenesOfCatalog(cat: seq<CatalogRow>, build: Build, id: Option<string>, g: string)
    ensures g in EntryGenes(Explode(cat, build), id) <==> exists c :: c in cat && c.id == id && Lists(c, build, g)
  {
    var ms := Explode(cat, build);
    if g in EntryGenes(ms, id) {
      var m :| m in ms && m.id == id && m.gene == g;
      var c :| c in cat && m in RowMembers(c, build);
      RowMembersLists(c, build, g);
    }
    if exists c :: c in cat && c.id == id && Lists(c, build, g) {
      var c :| c in cat && c.id == id && Lists(c, build, g);
      RowMembersLists(c, build, g);
      assert Member(id, g) in ms;
    }
  }

  /** Empty tokens are kept: "a,,b" lists the empty gene. */
  lemma EmptyTokenKept(c: CatalogRow, build: Build, a: string, b: string)
    requires ',' !in a
    requires GeneSet(c, build) == Some(a + ",," + b)
    ensures Member(c.id, "") in RowMembers(c, build)
  {
    assert a + ",," + b == a + [','] + ([','] + b);
    SplitAt(a, [','] + b, ',');
    assert [','] + b == [] + [','] + b;
    SplitAt([], b, ',');
    var parts := Split(a + ",," + b, ',');
    assert parts[1] == "";
    assert Trim("") == "";
    var ms := RowMembers(c, build);
    assert ms[1] == Member(c.id, "");
    assert ms[1] in ms;
  }

  /** Spaces around a token are dropped: " g " lists the gene "g". */
  lemma TokenTrimmed(g: string)
    requires |g| > 0 && g[0] != ' ' && g[|g| - 1] != ' '
    ensures Trim(" " + g + " ") == g
  {
    var s := " " + g + " ";
    assert s[1..] == g + " ";
    assert TrimLeft(s) == TrimLeft(g + " ") == g + " ";
    assert (g + " ")[..|g|] == g;
    assert TrimRight(g + " ") == TrimRight(g) == g;
  }

  // ---------------------------------------------------------------------
  // Step 4: edges whose gene is in the catalog

  /** The members that list gene `g`. */
  function MembersOf(g: Option<string>, ms: seq<Member>): (r: seq<Member>)
    ensures forall m {:trigger m in r} {:trigger m in ms} :: m in r <==> m in ms && g == Some(m.gene)
  {
    if ms == [] then []
    else
      assert forall m :: m in ms <==> m == ms[0] || m in ms[1..];
      (if g == Some(ms[0].gene) then [ms[0]] else []) + MembersOf(g, ms[1..])
  }

  /** Every gene some catalog entry lists. */
  function CatalogGenes(ms: seq<Member>): set<string> {
    set m | m in ms :: m.gene
  }

  /** `geneDB_filtered`: the inner join with `recurrent_exploded` on the gene,
      projected back onto the edge; an edge appears once per member listing
      its gene. */
  function Filtered(es: seq<Edge>, ms: seq<Member>): (fs: seq<Edge>)
    ensures forall e {:trigger e in fs} {:trigger e in es} :: e in fs <==> e in es && e.gene.Some? && e.gene.value in CatalogGenes(ms)
  {
    if es == [] then []
    else
      var e := es[0];
      var hits := MembersOf(e.gene, ms);
      assert e.gene.Some? && e.gene.value in CatalogGenes(ms) ==> hits != [] by {
        if e.gene.Some? && e.gene.value in CatalogGenes(ms) {
          var m :| m in ms && m.gene == e.gene.value;
          assert m in hits;
        }
      }
      assert hits != [] ==> e.gene.Some? && e.gene.value in CatalogGenes(ms) by {
        if hits != [] {
          assert hits[0] in hits;
        }
      }
      assert forall x :: x in es <==> x == e || x in es[1..];
      var copies := seq(|hits|, _ => e);
      assert forall x :: x in copies <==> x == e && hits != [] by {
        if hits != [] {
          assert copies[0] == e;
        }
      }
      copies + Filtered(es[1..], ms)
  }

  // ---------------------------------------------------------------------
  // Step 5: matched genes per (CNV, catalog entry)

  /** G(v): the genes of CNV v's edges. */
  function CnvGenes(es: seq<Edge>, v: string): set<string> {
    set e {:trigger e in es} | e in es && e.cnv == Some(v) && e.gene.Some? :: e.gene.value
  }

  /** After the filter, a CNV keeps exactly its genes that some entry lists. */
  lemma FilteredGenes(es: seq<Edge>, ms: seq<Member>, v: string)
    ensures CnvGenes(Filtered(es, ms), v) == CnvGenes(es, v) * CatalogGenes(ms)
  {
    var fs := Filtered(es, ms);
    forall g | g in CnvGenes(es, v) * CatalogGenes(ms) ensures g in CnvGenes(fs, v) {
      var e :| e in es && e.cnv == Some(v) && e.gene == Some(g);
      assert e in fs;
    }
  }

  /** The distinct genes of the rows that step 5 groups under (v, id). */
  function JoinedGenes(fs: seq<Edge>, ms: seq<Member>, v: string, id: Option<string>): set<string> {
    set e, m | e in fs && m in ms && e.cnv == Some(v) && m.id == id && e.gene == Some(m.gene) :: m.gene
  }

  /** `COUNT(DISTINCT g.Gene_ID)` per group counts |G(v) ∩ S(id)|. */
  lemma JoinedGenesIntersection(fs: seq<Edge>, ms: seq<Member>, v: string, id: Option<string>)
    ensures JoinedGenes(fs, ms, v, id) == CnvGenes(fs, v) * EntryGenes(ms, id)
  {
    forall g | g in CnvGenes(fs, v) * EntryGenes(ms, id) ensures g in JoinedGenes(fs, ms, v, id) {
      var e :| e in fs && e.cnv == Some(v) && e.gene == Some(g);
      var m :| m in ms && m.id == id && m.gene == g;
      assert e.gene == Some(m.gene);
    }
  }

  /** The grouping key (CNV_ID, rCNV_ID) of one row of the three-way join. */
  datatype Key = Key(cnv: string, id: Option<string>)

  /** A join row exists for the key. */
  predicate Joined(fs: seq<Edge>, ms: seq<Member>, k: Key) {
    exists e, m :: e in fs && m in ms && e.cnv == Some(k.cnv) && m.id == k.id && e.gene == Some(m.gene)
  }

  function EdgeKeys(e: Edge, hits: seq<Member>): (ks: seq<Key>)
    requires e.cnv.Some?
    ensures forall k :: k in ks <==> k.cnv == e.cnv.value && exists m :: m in hits && m.id == k.id
  {
    var ks := seq(|hits|, j requires 0 <= j < |hits| => Key(e.cnv.value, hits[j].id));
    assert forall m :: m in hits ==> Key(e.cnv.value, m.id) in ks by {
      forall m | m in hits ensures Key(e.cnv.value, m.id) in ks {
        var j :| 0 <= j < |hits| && hits[j] == m;
        assert ks[j] == Key(e.cnv.value, m.id);
      }
    }
    ks
  }

  /** The keys of the join rows, one per row. A null CNV_ID joins nothing. */
  function JoinKeys(fs: seq<Edge>, ms: seq<Member>): (ks: seq<Key>)
    ensures forall k :: k in ks <==> Joined(fs, ms, k)
  {
    if fs == [] then []
    else
      var e := fs[0];
      var rest := JoinKeys(fs[1..], ms);
      var mine := if e.cnv.Some? then EdgeKeys(e, MembersOf(e.gene, ms)) else [];
      assert forall k :: k in mine <==> (e.cnv == Some(k.cnv) &&
          exists m :: m in ms && m.id == k.id && e.gene == Some(m.gene)) by {
        if e.cnv.Some? {
          forall k ensures k in mine <==> (e.cnv == Some(k.cnv) &&
              exists m :: m in ms && m.id == k.id && e.gene == Some(m.gene)) {
            if k in mine {
              var m :| m in MembersOf(e.gene, ms) && m.id == k.id;
            }
          }
        }
      }
      assert forall x :: x in fs <==> x == e || x in fs[1..];
      mine + rest
  }

  /** A key is grouped in step 5 iff the CNV and the entry share a gene. */
  lemma JoinedIffShared(fs: seq<Edge>, ms: seq<Member>, k: Key)
    ensures Joined(fs, ms, k) <==> CnvGenes(fs, k.cnv) * EntryGenes(ms, k.id) != {}
  {
    JoinedGenesIntersection(fs, ms, k.cnv, k.id);
    if Joined(fs, ms, k) {
      var e, m :| e in fs && m in ms && e.cnv == Some(k.cnv) && m.id == k.id && e.gene == Some(m.gene);
      assert m.gene in JoinedGenes(fs, ms, k.cnv, k.id);
    }
    if CnvGenes(fs, k.cnv) * EntryGenes(ms, k.id) != {} {
      var g :| g in JoinedGenes(fs, ms, k.cnv, k.id);
    }
  }

  /** The types of CNV v's edges. */
  function KindsOf(fs: seq<Edge>, v: string): (ks: seq<Option<string>>)
    ensures forall t :: t in ks <==> exists e :: e in fs && e.cnv == Some(v) && e.kind == t
  {
    if fs == [] then []
    else
      assert forall x :: x in fs <==> x == fs[0] || x in fs[1..];
      (if fs[0].cnv == Some(v) then [fs[0].kind] else []) + KindsOf(fs[1..], v)
  }

  lemma StrLeBelowAll(x: string, y: string, ks: seq<Option<string>>)
    requires StrLe(x, y)
    requires forall t :: t in ks && t.Some? ==> StrLe(y, t.value)
    ensures forall t :: t in ks && t.Some? ==> StrLe(x, t.value)
  {
    forall t | t in ks && t.Some? ensures StrLe(x, t.value) {
      StrLeTransitive(x, y, t.value);
    }
  }

  /** SQL `MIN` over nullable text: nulls are ignored, and the result is null
      only when every value is. */
  function MinOpt(ks: seq<Option<string>>): (r: Option<string>)
    ensures r.None? <==> forall t :: t in ks ==> t.None?
    ensures r.Some? ==> r in ks && forall t :: t in ks && t.Some? ==> StrLe(r.value, t.value)
  {
    if ks == [] then None
    else
      var rest := MinOpt(ks[1..]);
      assert forall t :: t in ks <==> t == ks[0] || t in ks[1..];
      match ks[0]
      case None => rest
      case Some(x) =>
        StrLeReflexive(x);
        if rest.None? then Some(x)
        else if StrLe(x, rest.value) then
          StrLeBelowAll(x, rest.value, ks[1..]);
          Some(x)
        else
          StrLeTotal(x, rest.value);
          Some(rest.value)
  }

  /** One row of `matching_counts`. */
  datatype MatchCount = MatchCount(cnv: string, id: Option<string>, matched: nat, kind: Option<string>, cnvTotal: nat)

  function KeyOf(x: MatchCount): Key {
    Key(x.cnv, x.id)
  }

  /** The aggregates of one group: matched genes, `MIN(Type)` and the
      CNV's own gene count from `cnv_gene_counts`. */
  function CountOf(fs: seq<Edge>, ms: seq<Member>, k: Key): (x: MatchCount)
    ensures KeyOf(x) == k
    ensures x.kind.None? <==> forall e :: e in fs && e.cnv == Some(k.cnv) ==> e.kind.None?
    ensures x.kind.Some? ==>
      (exists e :: e in fs && e.cnv == Some(k.cnv) && e.kind == x.kind) &&
      forall e :: e in fs && e.cnv == Some(k.cnv) && e.kind.Some? ==> StrLe(x.kind.value, e.kind.value)
  {
    MatchCount(k.cnv, k.id, |JoinedGenes(fs, ms, k.cnv, k.id)|, MinOpt(KindsOf(fs, k.cnv)), |CnvGenes(fs, k.cnv)|)
  }

  function CountsOfKeys(fs: seq<Edge>, ms: seq<Member>, keys: seq<Key>): (mcs: seq<MatchCount>)
    ensures |mcs| == |keys|
    ensures forall j :: 0 <= j < |keys| ==> mcs[j] == CountOf(fs, ms, keys[j])
  {
    seq(|keys|, j requires 0 <= j < |keys| => CountOf(fs, ms, keys[j]))
  }

  /** `matching_counts`: one row per joined key. */
  function MatchingCounts(fs: seq<Edge>, ms: seq<Member>): (mcs: seq<MatchCount>)
    ensures forall x :: x in mcs <==> Joined(fs, ms, KeyOf(x)) && x == CountOf(fs, ms, KeyOf(x))
    ensures forall i, j :: 0 <= i < j < |mcs| ==> KeyOf(mcs[i]) != KeyOf(mcs[j])
  {
    var keys := Dedup(JoinKeys(fs, ms));
    var mcs := CountsOfKeys(fs, ms, keys);
    CountsOfKeysMembers(fs, ms, keys);
    mcs
  }

  lemma CountsOfKeysMembers(fs: seq<Edge>, ms: seq<Member>, keys: seq<Key>)
    ensures forall x :: x in CountsOfKeys(fs, ms, keys) <==> KeyOf(x) in keys && x == CountOf(fs, ms, KeyOf(x))
    ensures NoDup(keys) ==> forall i, j :: 0 <= i < j < |keys| ==>
      KeyOf(CountsOfKeys(fs, ms, keys)[i]) != KeyOf(CountsOfKeys(fs, ms, keys)[j])
  {
    var mcs := CountsOfKeys(fs, ms, keys);
    forall x | KeyOf(x) in keys && x == CountOf(fs, ms, KeyOf(x)) ensures x in mcs {
      var j :| 0 <= j < |keys| && keys[j] == KeyOf(x);
      assert mcs[j] == x;
    }
  }

  /** The counts of step 5 in terms of the original edges: a row per CNV and
      entry sharing a gene, `matched` = |G(v) ∩ S(id)|, `cnvTotal` = the
      CNV's genes that some entry lists. */
  lemma MatchingCountsMeaning(es: seq<Edge>, ms: seq<Member>, v: string, id: Option<string>)
    ensures var mcs := MatchingCounts(Filtered(es, ms), ms);
      (exists x :: x in mcs && x.cnv == v && x.id == id) <==> CnvGenes(es, v) * EntryGenes(ms, id) != {}
    ensures var mcs := MatchingCounts(Filtered(es, ms), ms);
      forall x :: x in mcs && x.cnv == v && x.id == id ==>
        x.matched == |CnvGenes(es, v) * EntryGenes(ms, id)| &&
        x.cnvTotal == |CnvGenes(es, v) * CatalogGenes(ms)|
  {
    var fs := Filtered(es, ms);
    var k := Key(v, id);
    FilteredGenes(es, ms, v);
    JoinedGenesIntersection(fs, ms, v, id);
    JoinedIffShared(fs, ms, k);
    assert EntryGenes(ms, id) <= CatalogGenes(ms);
    assert CnvGenes(fs, v) * EntryGenes(ms, id) == CnvGenes(es, v) * EntryGenes(ms, id);
    if CnvGenes(es, v) * EntryGenes(ms, id) != {} {
      assert CountOf(fs, ms, k) in MatchingCounts(fs, ms);
    }
  }

  // ---------------------------------------------------------------------
  // Step 6: the size of each catalog entry

  /** `recurrent_counts`: |S(id)| for every id that has a member. */
  function RecurrentCounts(ms: seq<Member>): (counts: map<Option<string>, nat>)
    ensures forall id :: id in counts <==> exists m {:trigger m in ms} :: m in ms && m.id == id
    ensures forall id :: id in counts ==> counts[id] == |EntryGenes(ms, id)| && counts[id] > 0
  {
    var ids := set m | m in ms :: m.id;
    assert forall id :: id in ids ==> |EntryGenes(ms, id)| > 0 by {
      forall id | id in ids ensures |EntryGenes(ms, id)| > 0 {
        var m :| m in ms && m.id == id;
        assert m.gene in EntryGenes(ms, id);
      }
    }
    map id | id in ids :: |EntryGenes(ms, id)|
  }

  // ---------------------------------------------------------------------
  // Step 7: full matches, and the best one per CNV

  /** One row of `full_matches` (without the window's `rn`, which is 1). */
  datatype FullMatch = FullMatch(cnv: string, kind: Option<string>, id: string, matched: nat, cnvTotal: nat, entryTotal: nat)

  /** The join with `recurrent_counts` (a null id joins nothing) and the
      WHERE clause `matched_genes = total_genes`. */
  predicate IsFull(x: MatchCount, counts: map<Option<string>, nat>) {
    x.id.Some? && x.id in counts && x.matched == counts[x.id]
  }

  function ToFull(x: MatchCount, counts: map<Option<string>, nat>): FullMatch
    requires IsFull(x, counts)
  {
    FullMatch(x.cnv, x.kind, x.id.value, x.matched, x.cnvTotal, counts[x.id])
  }

  /** The rows of `ranked_matches`, before the window picks one per CNV. */
  function FullCandidates(mcs: seq<MatchCount>, counts: map<Option<string>, nat>): (cs: seq<FullMatch>)
    ensures forall c :: c in cs <==> exists x :: x in mcs && IsFull(x, counts) && c == ToFull(x, counts)
  {
    if mcs == [] then []
    else
      assert forall x :: x in mcs <==> x == mcs[0] || x in mcs[1..];
      (if IsFull(mcs[0], counts) then [ToFull(mcs[0], counts)] else []) + FullCandidates(mcs[1..], counts)
  }

  /** A subset as large as its superset is the superset. */
  lemma SubsetOfSameSize<T>(a: set<T>, b: set<T>)
    requires a <= b && |a| == |b|
    ensures a == b
  {
    if a != b {
      assert !(b <= a);
      var x :| x in b && x !in a;
      assert a <= b - {x};
      assert |b - {x}| == |b| - 1;
      SubsetSize(a, b - {x});
    }
  }

  lemma SubsetSize<T>(a: set<T>, b: set<T>)
    requires a <= b
    ensures |a| <= |b|
  {
    assert b == a + (b - a);
  }

  /** The shared genes number as many as the entry's iff the entry's genes
      are all shared. */
  lemma SharedAll(g: set<string>, s: set<string>)
    ensures |g * s| == |s| <==> s <= g
  {
    SubsetSize(g * s, s);
    if |g * s| == |s| {
      SubsetOfSameSize(g * s, s);
    }
    if s <= g {
      assert g * s == s;
    }
  }

  lemma EntryCounted(ms: seq<Member>, id: Option<string>, g: string)
    requires g in EntryGenes(ms, id)
    ensures id in RecurrentCounts(ms) && RecurrentCounts(ms)[id] == |EntryGenes(ms, id)|
  {
    var m :| m in ms && m.id == id && m.gene == g;
  }

  /** A (CNV, entry) pair is a full match iff every gene of the entry is a
      gene of the CNV; the CNV may have other genes. */
  lemma FullIffContained(es: seq<Edge>, ms: seq<Member>, x: MatchCount)
    requires x in MatchingCounts(Filtered(es, ms), ms)
    ensures IsFull(x, RecurrentCounts(ms)) <==> x.id.Some? && EntryGenes(ms, x.id) <= CnvGenes(es, x.cnv)
  {
    MatchingCountsMeaning(es, ms, x.cnv, x.id);
    var s := EntryGenes(ms, x.id);
    var g := CnvGenes(es, x.cnv);
    assert x.matched == |g * s|;
    assert g * s != {};
    var some :| some in g * s;
    EntryCounted(ms, x.id, some);
    SharedAll(g, s);
  }

  /** The window's order: more matched genes first; among equals, and as a
      refinement of the unspecified tie, the smaller rCNV_ID. */
  predicate Beats(a: FullMatch, b: FullMatch) {
    a.matched > b.matched || (a.matched == b.matched && StrLe(a.id, b.id))
  }

  lemma BeatsTransitive(a: FullMatch, b: FullMatch, c: FullMatch)
    requires Beats(a, b) && Beats(b, c)
    ensures Beats(a, c)
  {
    if a.matched == b.matched == c.matched {
      StrLeTransitive(a.id, b.id, c.id);
    }
  }

  /** The candidate that `ROW_NUMBER() = 1` keeps: it beats every other. */
  function Best(cs: seq<FullMatch>): (b: FullMatch)
    requires |cs| > 0
    ensures b in cs
    ensures forall c :: c in cs ==> Beats(b, c)
  {
    if |cs| == 1 then
      StrLeReflexive(cs[0].id);
      cs[0]
    else
      var rest := Best(cs[1..]);
      assert forall c :: c in cs <==> c == cs[0] || c in cs[1..];
      StrLeTotal(cs[0].id, rest.id);
      StrLeReflexive(cs[0].id);
      if Beats(cs[0], rest) then
        assert forall c :: c in cs[1..] ==> Beats(cs[0], c) by {
          forall c | c in cs[1..] ensures Beats(cs[0], c) {
            BeatsTransitive(cs[0], rest, c);
          }
        }
        cs[0]
      else
        rest
  }

  /** The candidates of one CNV. */
  function CandidatesOf(cs: seq<FullMatch>, v: string): (r: seq<FullMatch>)
    ensures forall c {:trigger c in r} {:trigger c in cs} :: c in r <==> c in cs && c.cnv == v
  {
    if cs == [] then []
    else
      assert forall c :: c in cs <==> c == cs[0] || c in cs[1..];
      (if cs[0].cnv == v then [cs[0]] else []) + CandidatesOf(cs[1..], v)
  }

  function CnvsOf(cs: seq<FullMatch>): (vs: seq<string>)
    ensures |vs| == |cs| && forall j :: 0 <= j < |cs| ==> vs[j] == cs[j].cnv
  {
    seq(|cs|, j requires 0 <= j < |cs| => cs[j].cnv)
  }

  lemma CnvsHaveCandidates(cs: seq<FullMatch>)
    ensures forall v :: v in CnvsOf(cs) ==> CandidatesOf(cs, v) != []
  {
    forall v | v in CnvsOf(cs) ensures CandidatesOf(cs, v) != [] {
      var j :| 0 <= j < |cs| && CnvsOf(cs)[j] == v;
      assert cs[j] in CandidatesOf(cs, v);
    }
  }

  /** `b` is a candidate that beats every candidate of its own CNV. */
  predicate BestOfCnv(b: FullMatch, cs: seq<FullMatch>) {
    b in cs && forall c {:trigger c in cs} :: c in cs && c.cnv == b.cnv ==> Beats(b, c)
  }

  /** `full_matches`: per CNV with a full match, the candidate that beats
      the others. */
  function BestMatches(cs: seq<FullMatch>): (bs: seq<FullMatch>)
    ensures forall b :: b in bs ==> BestOfCnv(b, cs)
    ensures forall v :: v in CnvsOf(bs) <==> v in CnvsOf(cs)
    ensures NoDup(CnvsOf(bs))
  {
    var vs := Dedup(CnvsOf(cs));
    CnvsHaveCandidates(cs);
    BestOfEach(cs, vs)
  }

  /** The best candidate of each CNV in `vs`, in the order of `vs`. */
  function BestOfEach(cs: seq<FullMatch>, vs: seq<string>): (bs: seq<FullMatch>)
    requires forall v :: v in vs ==> CandidatesOf(cs, v) != []
    requires forall v :: v in CnvsOf(cs) <==> v in vs
    requires NoDup(vs)
    ensures forall b :: b in bs ==> BestOfCnv(b, cs)
    ensures forall v :: v in CnvsOf(bs) <==> v in CnvsOf(cs)
    ensures NoDup(CnvsOf(bs))
  {
    var bs := seq(|vs|, j requires 0 <= j < |vs| => Best(CandidatesOf(cs, vs[j])));
    BestOfEachMaximal(cs, vs, bs);
    BestOfEachCovers(cs, vs, bs);
    BestOfEachDistinct(cs, vs, bs);
    bs
  }

  predicate BestsOf(cs: seq<FullMatch>, vs: seq<string>, bs: seq<FullMatch>)
    requires forall v :: v in vs ==> CandidatesOf(cs, v) != []
  {
    |bs| == |vs| && forall j :: 0 <= j < |vs| ==> bs[j] == Best(CandidatesOf(cs, vs[j]))
  }

  lemma BestOfEachMaximal(cs: seq<FullMatch>, vs: seq<string>, bs: seq<FullMatch>)
    requires forall v :: v in vs ==> CandidatesOf(cs, v) != []
    requires BestsOf(cs, vs, bs)
    ensures forall b :: b in bs ==> BestOfCnv(b, cs)
  {
    forall b | b in bs ensures BestOfCnv(b, cs) {
      var j :| 0 <= j < |bs| && bs[j] == b;
      var cands := CandidatesOf(cs, vs[j]);
      assert b == Best(cands);
      assert b in cands;
    }
  }

  lemma BestOfEachCovers(cs: seq<FullMatch>, vs: seq<string>, bs: seq<FullMatch>)
    requires forall v :: v in vs ==> CandidatesOf(cs, v) != []
    requires forall v :: v in CnvsOf(cs) <==> v in vs
    requires BestsOf(cs, vs, bs)
    ensures forall v :: v in CnvsOf(bs) <==> v in CnvsOf(cs)
  {
    assert forall j :: 0 <= j < |vs| ==> CnvsOf(bs)[j] == vs[j];
    assert CnvsOf(bs) == vs;
  }

  lemma BestOfEachDistinct(cs: seq<FullMatch>, vs: seq<string>, bs: seq<FullMatch>)
    requires forall v :: v in vs ==> CandidatesOf(cs, v) != []
    requires NoDup(vs)
    requires BestsOf(cs, vs, bs)
    ensures NoDup(CnvsOf(bs))
  {
    assert forall j :: 0 <= j < |vs| ==> CnvsOf(bs)[j] == vs[j];
    assert CnvsOf(bs) == vs;
  }

  // ---------------------------------------------------------------------
  // Step 8: the typed label of each surviving match

  /** One row of `full_matches_with_rCNV`. */
  datatype Labelled = Labelled(cnv: string, id: string, typedId: Option<string>,
                               matched: nat, cnvTotal: nat, entryTotal: nat)

  /** `r.rCNV_ID || '_' || LOWER(f.Type)`: null as soon as the type is null. */
  function Label(id: string, kind: Option<string>): (l: Option<string>)
    ensures l.None? <==> kind.None?
    ensures l.Some? ==> l.value == id + "_" + Lower(kind.value)
  {
    if kind.None? then None else Some(id + "_" + Lower(kind.value))
  }

  /** The labelled row of one match. */
  function LabelOf(f: FullMatch): (l: Labelled)
    ensures l.cnv == f.cnv && l.id == f.id && l.typedId == Label(f.id, f.kind)
  {
    Labelled(f.cnv, f.id, Label(f.id, f.kind), f.matched, f.cnvTotal, f.entryTotal)
  }

  /** The catalog rows whose `rCNV_ID` equals `id`, repeated as a join repeats them. */
  function CatalogHits(cat: seq<CatalogRow>, id: string): (n: nat)
    ensures n > 0 <==> exists c :: c in cat && c.id == Some(id)
    ensures n <= |cat|
  {
    if cat == [] then 0
    else
      assert forall c :: c in cat <==> c == cat[0] || c in cat[1..];
      (if cat[0].id == Some(id) then 1 else 0) + CatalogHits(cat[1..], id)
  }

  /** `full_matches_with_rCNV`: `full_matches JOIN recurrent ON rCNV_ID`, one
      labelled row per pair of a match and a catalog row with its id. */
  function WithLabels(fs: seq<FullMatch>, cat: seq<CatalogRow>): seq<Labelled> {
    if fs == [] then []
    else seq(CatalogHits(cat, fs[0].id), _ => LabelOf(fs[0])) + WithLabels(fs[1..], cat)
  }

  /** A labelled row is the label of a match whose id the catalog holds. */
  lemma {:induction false} WithLabelsMembers(fs: seq<FullMatch>, cat: seq<CatalogRow>)
    ensures forall l :: l in WithLabels(fs, cat) <==>
      exists f :: f in fs && l == LabelOf(f) && CatalogHits(cat, f.id) > 0
  {
    if fs != [] {
      var f := fs[0];
      var copies := seq(CatalogHits(cat, f.id), _ => LabelOf(f));
      assert forall l :: l in copies <==> CatalogHits(cat, f.id) > 0 && l == LabelOf(f) by {
        if CatalogHits(cat, f.id) > 0 { assert copies[0] == LabelOf(f); }
      }
      assert forall g :: g in fs <==> g == f || g in fs[1..];
      WithLabelsMembers(fs[1..], cat);
      assert WithLabels(fs, cat) == copies + WithLabels(fs[1..], cat);
    }
  }

  /** The CNVs of the labelled rows, in order. */
  function LabelledCnvs(ls: seq<Labelled>): (vs: seq<string>)
    ensures |vs| == |ls| && forall j :: 0 <= j < |ls| ==> vs[j] == ls[j].cnv
  {
    seq(|ls|, j requires 0 <= j < |ls| => ls[j].cnv)
  }

  /** The catalog's ids: no two rows share one. */
  predicate UniqueIds(cat: seq<CatalogRow>) {
    forall i, j :: 0 <= i < j < |cat| && cat[i].id.Some? ==> cat[i].id != cat[j].id
  }

  lemma {:induction false} UniqueIdsHit(cat: seq<CatalogRow>, id: string)
    requires UniqueIds(cat)
    ensures CatalogHits(cat, id) <= 1
  {
    if cat != [] {
      UniqueIdsHit(cat[1..], id);
      if cat[0].id == Some(id) {
        NoOtherHit(cat[1..], id);
      }
    }
  }

  lemma NoOtherHit(cat: seq<CatalogRow>, id: string)
    requires forall c :: c in cat ==> c.id != Some(id)
    ensures CatalogHits(cat, id) == 0
  {
  }

  /** One labelled row per match, in order. */
  function LabelsOf(fs: seq<FullMatch>): (ls: seq<Labelled>)
    ensures |ls| == |fs| && forall j :: 0 <= j < |fs| ==> ls[j] == LabelOf(fs[j])
  {
    seq(|fs|, j requires 0 <= j < |fs| => LabelOf(fs[j]))
  }

  /** With the catalog's ids distinct and every matched id in the catalog,
      the join gives each match exactly one labelled row. */
  lemma WithLabelsOnePerMatch(fs: seq<FullMatch>, cat: seq<CatalogRow>)
    requires UniqueIds(cat)
    requires forall f :: f in fs ==> exists c :: c in cat && c.id == Some(f.id)
    ensures WithLabels(fs, cat) == LabelsOf(fs)
  {
    forall j | 0 <= j < |fs| ensures CatalogHits(cat, fs[j].id) == 1 {
      assert fs[j] in fs;
      UniqueIdsHit(cat, fs[j].id);
    }
    WithLabelsSingle(fs, cat);
  }

  lemma {:induction false} WithLabelsSingle(fs: seq<FullMatch>, cat: seq<CatalogRow>)
    requires forall j :: 0 <= j < |fs| ==> CatalogHits(cat, fs[j].id) == 1
    ensures WithLabels(fs, cat) == LabelsOf(fs)
  {
    if fs != [] {
      assert CatalogHits(cat, fs[0].id) == 1;
      assert seq(1, _ => LabelOf(fs[0])) == [LabelOf(fs[0])];
      WithLabelsSingle(fs[1..], cat);
      assert WithLabels(fs, cat) == [LabelOf(fs[0])] + WithLabels(fs[1..], cat);
      assert LabelsOf(fs) == [LabelOf(fs[0])] + LabelsOf(fs[1..]);
    }
  }

  /** A match per CNV gives a labelled row per CNV. */
  lemma LabelsOfOnePerCnv(fs: seq<FullMatch>)
    requires NoDup(CnvsOf(fs))
    ensures NoDup(LabelledCnvs(LabelsOf(fs)))
  {
    assert LabelledCnvs(LabelsOf(fs)) == CnvsOf(fs);
  }

  // ---------------------------------------------------------------------
  // Step 9: flag the sample table

  /** The label cell a labelled row contributes. */
  function LabelValue(l: Labelled): Value {
    if l.typedId.Some? then Str(l.typedId.value) else Null
  }

  /** The labelled rows that join a sample row with CNV key `key`; a null
      key joins nothing. */
  function HitsOf(key: Option<string>, ls: seq<Labelled>): (hs: seq<Labelled>)
    ensures forall l {:trigger l in hs} {:trigger l in ls} :: l in hs <==> l in ls && key == Some(l.cnv)
    ensures |hs| <= |ls|
  {
    if ls == [] then []
    else
      assert forall l :: l in ls <==> l == ls[0] || l in ls[1..];
      (if key == Some(ls[0].cnv) then [ls[0]] else []) + HitsOf(key, ls[1..])
  }

  lemma {:induction false} HitsOfDistinct(key: Option<string>, ls: seq<Labelled>)
    requires NoDup(LabelledCnvs(ls))
    ensures |HitsOf(key, ls)| <= 1
  {
    if ls != [] {
      assert LabelledCnvs(ls[1..]) == LabelledCnvs(ls)[1..];
      HitsOfDistinct(key, ls[1..]);
      if key == Some(ls[0].cnv) {
        assert forall l :: l in ls[1..] ==> l.cnv != ls[0].cnv by {
          forall l | l in ls[1..] ensures l.cnv != ls[0].cnv {
            var j :| 0 <= j < |ls[1..]| && ls[1..][j] == l;
            assert LabelledCnvs(ls)[j + 1] == l.cnv;
          }
        }
        HitsOfNone(key, ls[1..]);
      }
    }
  }

  lemma HitsOfNone(key: Option<string>, ls: seq<Labelled>)
    requires forall l :: l in ls ==> key != Some(l.cnv)
    ensures HitsOf(key, ls) == []
  {
  }

  /** The CNV key of a sample row. */
  function KeyOfRow(g: Row): Option<string> {
    AsStr(Get(g, "CNV_ID"))
  }

  /** `SELECT g.*, r.rCNV_ID_with_type AS rCNV_ID FROM cnvDB g LEFT JOIN ...` on
      one sample row: a copy per hit, or one copy with a null label. */
  function FlagRow(g: Row, ls: seq<Labelled>): (out: seq<Row>)
    ensures var hs := HitsOf(KeyOfRow(g), ls);
      |out| == Max(1, |hs|) &&
      (hs == [] ==> out == [g["rCNV_ID" := Null]]) &&
      (hs != [] ==> forall k :: 0 <= k < |hs| ==> out[k] == g["rCNV_ID" := LabelValue(hs[k])])
  {
    var hs := HitsOf(KeyOfRow(g), ls);
    if hs == [] then [g["rCNV_ID" := Null]]
    else seq(|hs|, k requires 0 <= k < |hs| => g["rCNV_ID" := LabelValue(hs[k])])
  }

  function FlagRows(rows: seq<Row>, ls: seq<Labelled>): (out: seq<Row>)
    ensures |out| >= |rows|
  {
    if rows == [] then [] else FlagRow(rows[0], ls) + FlagRows(rows[1..], ls)
  }

  /** `cnvDB_flagged`: the sample table with the label column appended. */
  function Flag(f: Frame, ls: seq<Labelled>): (g: Frame)
    ensures g.names == if "rCNV_ID" in f.names then f.names else f.names + ["rCNV_ID"]
    ensures |g.rows| >= |f.rows|
  {
    Frame(if "rCNV_ID" in f.names then f.names else f.names + ["rCNV_ID"], FlagRows(f.rows, ls))
  }

  /** Rows with their label cell taken out. */
  function Unflagged(rows: seq<Row>): (us: seq<Row>)
    ensures |us| == |rows| && forall i :: 0 <= i < |rows| ==> us[i] == rows[i] - {"rCNV_ID"}
  {
    seq(|rows|, i requires 0 <= i < |rows| => rows[i] - {"rCNV_ID"})
  }

  /** Each copy `FlagRow` makes is the sample row with only its label cell set. */
  lemma FlagRowCopies(g: Row, ls: seq<Labelled>)
    ensures forall u :: u in Unflagged(FlagRow(g, ls)) <==> u == g - {"rCNV_ID"}
    ensures forall o :: o in FlagRow(g, ls) ==> "rCNV_ID" in o
  {
    var out := FlagRow(g, ls);
    forall k | 0 <= k < |out| ensures Unflagged(out)[k] == g - {"rCNV_ID"} {
      var v := out[k]["rCNV_ID"];
      assert out[k] == g["rCNV_ID" := v];
      assert out[k] - {"rCNV_ID"} == g - {"rCNV_ID"};
    }
    assert Unflagged(out)[0] in Unflagged(out);
  }

  /** Every sample row appears in the flagged rows with only its label cell
      changed, and every flagged row is such a copy. */
  lemma {:induction false} FlagKeepsRows(rows: seq<Row>, ls: seq<Labelled>)
    ensures forall u :: u in Unflagged(FlagRows(rows, ls)) <==> u in Unflagged(rows)
  {
    if rows != [] {
      var head := FlagRow(rows[0], ls);
      var tail := FlagRows(rows[1..], ls);
      assert FlagRows(rows, ls) == head + tail;
      FlagRowCopies(rows[0], ls);
      FlagKeepsRows(rows[1..], ls);
      UnflaggedAppend(head, tail);
      UnflaggedAppend([rows[0]], rows[1..]);
      assert rows == [rows[0]] + rows[1..];
    }
  }

  lemma UnflaggedAppend(a: seq<Row>, b: seq<Row>)
    ensures forall u :: u in Unflagged(a + b) <==> u in Unflagged(a) || u in Unflagged(b)
  {
    assert Unflagged(a + b) == Unflagged(a) + Unflagged(b);
  }

  /** Every flagged row has a label cell. */
  lemma {:induction false} FlagAddsLabel(rows: seq<Row>, ls: seq<Labelled>)
    ensures forall o :: o in FlagRows(rows, ls) ==> "rCNV_ID" in o
  {
    if rows != [] {
      var head := FlagRow(rows[0], ls);
      var tail := FlagRows(rows[1..], ls);
      assert FlagRows(rows, ls) == head + tail;
      FlagRowCopies(rows[0], ls);
      FlagAddsLabel(rows[1..], ls);
    }
  }

  /** The label a sample row gets from its first hit, or null. */
  function FlagValue(g: Row, ls: seq<Labelled>): (v: Value)
    ensures v != Null ==> v.Str? && exists l {:trigger l in ls} :: l in ls && KeyOfRow(g) == Some(l.cnv) && l.typedId == Some(v.s)
    ensures (forall l {:trigger l in ls} :: l in ls && KeyOfRow(g) == Some(l.cnv) ==> l.typedId.None?) ==> v == Null
  {
    var hs := HitsOf(KeyOfRow(g), ls);
    if hs == [] then Null
    else
      assert hs[0] in hs;
      LabelValue(hs[0])
  }

  /** Each sample row with its label cell set to `FlagValue`. */
  function Relabelled(rows: seq<Row>, ls: seq<Labelled>): (out: seq<Row>)
    ensures |out| == |rows| && forall i :: 0 <= i < |rows| ==> out[i] == rows[i]["rCNV_ID" := FlagValue(rows[i], ls)]
  {
    seq(|rows|, i requires 0 <= i < |rows| => rows[i]["rCNV_ID" := FlagValue(rows[i], ls)])
  }

  /** When each CNV has at most one labelled row, flagging keeps the row
      count and order, and a row's label is null exactly when its CNV has no
      labelled row with a label. */
  lemma FlagOnePerRow(rows: seq<Row>, ls: seq<Labelled>)
    requires NoDup(LabelledCnvs(ls))
    ensures FlagRows(rows, ls) == Relabelled(rows, ls)
  {
    forall i | 0 <= i < |rows| ensures FlagRow(rows[i], ls) == [rows[i]["rCNV_ID" := FlagValue(rows[i], ls)]] {
      HitsOfDistinct(KeyOfRow(rows[i]), ls);
      FlagRowSingle(rows[i], ls);
    }
    FlagEachSingle(rows, ls);
  }

  lemma FlagRowSingle(g: Row, ls: seq<Labelled>)
    requires |HitsOf(KeyOfRow(g), ls)| <= 1
    ensures FlagRow(g, ls) == [g["rCNV_ID" := FlagValue(g, ls)]]
  {
  }

  lemma {:induction false} FlagEachSingle(rows: seq<Row>, ls: seq<Labelled>)
    requires forall i :: 0 <= i < |rows| ==> FlagRow(rows[i], ls) == [rows[i]["rCNV_ID" := FlagValue(rows[i], ls)]]
    ensures FlagRows(rows, ls) == Relabelled(rows, ls)
  {
    if rows != [] {
      var g := rows[0];
      assert FlagRow(g, ls) == [g["rCNV_ID" := FlagValue(g, ls)]];
      FlagEachSingle(rows[1..], ls);
      assert Relabelled(rows, ls) == [g["rCNV_ID" := FlagValue(g, ls)]] + Relabelled(rows[1..], ls);
    }
  }

  lemma FlagValueNull(g: Row, ls: seq<Labelled>)
    requires NoDup(LabelledCnvs(ls))
    ensures FlagValue(g, ls) == Null <==>
      forall l :: l in ls && KeyOfRow(g) == Some(l.cnv) ==> l.typedId.None?
  {
    var hs := HitsOf(KeyOfRow(g), ls);
    HitsOfDistinct(KeyOfRow(g), ls);
    if hs != [] {
      assert hs[0] in hs;
      forall l | l in ls && KeyOfRow(g) == Some(l.cnv) ensures l == hs[0] {
        assert l in hs;
        var k :| 0 <= k < |hs| && hs[k] == l;
      }
    }
  }

  // ---------------------------------------------------------------------
  // The sample count per label over the catalog's `_dup`/`_del` universe

  /** `rCNV_ID || suffix`: null for a null id. */
  function Suffixed(id: Option<string>, suffix: string): (l: Option<string>)
    ensures l.None? <==> id.None?
    ensures l.Some? ==> (id.Some? && |l.value| == |id.value| + |suffix| &&
      l.value[..|id.value|] == id.value && l.value[|id.value|..] == suffix)
  {
    if id.None? then None else Some(id.value + suffix)
  }

  /** `recurrent_expanded`: every catalog id with `_dup`, then every one with `_del`. */
  function Expanded(cat: seq<CatalogRow>): (es: seq<Option<string>>)
    ensures |es| == 2 * |cat|
    ensures forall k {:trigger es[k]} :: 0 <= k < |cat| ==> es[k] == Suffixed(cat[k].id, "_dup")
    ensures forall k {:trigger es[k]} :: |cat| <= k < |es| ==> es[k] == Suffixed(cat[k - |cat|].id, "_del")
  {
    seq(|cat|, k requires 0 <= k < |cat| => Suffixed(cat[k].id, "_dup")) +
    seq(|cat|, k requires 0 <= k < |cat| => Suffixed(cat[k].id, "_del"))
  }

  /** `ORDER BY rCNV_ID`: text order, nulls last. */
  predicate LabelLe(a: Option<string>, b: Option<string>) {
    if a.None? then b.None? else b.None? || StrLe(a.value, b.value)
  }

  lemma LabelLeOrder()
    ensures Total(LabelLe) && Transitive(LabelLe)
  {
    forall a, b ensures LabelLe(a, b) || LabelLe(b, a) {
      if a.Some? && b.Some? { StrLeTotal(a.value, b.value); }
    }
    forall a, b, c | LabelLe(a, b) && LabelLe(b, c) ensures LabelLe(a, c) {
      if a.Some? && b.Some? && c.Some? { StrLeTransitive(a.value, b.value, c.value); }
    }
  }

  /** The distinct `SampleID`s among flagged rows carrying label `x`; a null
      label joins no row, and null sample ids are not counted. */
  function Samples(rows: seq<Row>, x: Option<string>): (ids: set<Value>)
    ensures x.None? ==> ids == {}
    ensures forall v :: v in ids ==> v != Null
  {
    if x.None? then {}
    else set r {:trigger r in rows} | r in rows && Get(r, "rCNV_ID") == Str(x.value) && Get(r, "SampleID") != Null :: Get(r, "SampleID")
  }

  /** One row of `sample_rCNV_counts`. */
  datatype FreqRow = FreqRow(id: Option<string>, samples: nat)

  function FreqLabels(fr: seq<FreqRow>): (ls: seq<Option<string>>)
    ensures |ls| == |fr| && forall k :: 0 <= k < |fr| ==> ls[k] == fr[k].id
  {
    seq(|fr|, k requires 0 <= k < |fr| => fr[k].id)
  }

  /** The labels of `GROUP BY r.rCNV_ID ORDER BY r.rCNV_ID` over the expanded
      universe: each distinct label once, in label order. */
  function Universe(cat: seq<CatalogRow>): (labels: seq<Option<string>>)
    ensures forall x :: x in labels <==> x in Expanded(cat)
    ensures NoDup(labels)
    ensures SortedBy(LabelLe, labels)
  {
    var labels := SortBy(LabelLe, Dedup(Expanded(cat)));
    LabelLeOrder();
    SortBySorted(LabelLe, Dedup(Expanded(cat)));
    PermutationNoDup(Dedup(Expanded(cat)), labels);
    assert forall x :: x in labels <==> x in multiset(labels);
    labels
  }

  /** `sample_rCNV_counts`: one row per distinct expanded label, in label
      order, with the number of distinct samples flagged with it. */
  function Frequencies(cat: seq<CatalogRow>, rows: seq<Row>): (fr: seq<FreqRow>)
    ensures FreqLabels(fr) == Universe(cat)
    ensures forall k :: 0 <= k < |fr| ==> fr[k].samples == |Samples(rows, fr[k].id)|
  {
    var labels := Universe(cat);
    seq(|labels|, k requires 0 <= k < |labels| => FreqRow(labels[k], |Samples(rows, labels[k])|))
  }

  /** With distinct, non-null catalog ids, the table has exactly two rows per
      catalog entry. */
  lemma FrequenciesSize(cat: seq<CatalogRow>, rows: seq<Row>)
    requires UniqueIds(cat)
    requires forall k :: 0 <= k < |cat| ==> cat[k].id.Some?
    ensures |Frequencies(cat, rows)| == 2 * |cat|
  {
    UniverseSize(cat);
    assert |Frequencies(cat, rows)| == |FreqLabels(Frequencies(cat, rows))|;
  }

  lemma UniverseSize(cat: seq<CatalogRow>)
    requires UniqueIds(cat)
    requires forall k :: 0 <= k < |cat| ==> cat[k].id.Some?
    ensures |Universe(cat)| == 2 * |cat|
  {
    var es := Expanded(cat);
    forall i, j | 0 <= i < j < |es| ensures es[i] != es[j] {
      ExpandedDistinct(cat, i, j);
    }
    var labels := Universe(cat);
    NoDupCard(labels);
    NoDupCard(es);
    assert (set x | x in labels) == (set x | x in es);
  }

  lemma ExpandedDistinct(cat: seq<CatalogRow>, i: nat, j: nat)
    requires UniqueIds(cat)
    requires forall k :: 0 <= k < |cat| ==> cat[k].id.Some?
    requires i < j < 2 * |cat|
    ensures Expanded(cat)[i] != Expanded(cat)[j]
  {
    var es := Expanded(cat);
    var n := |cat|;
    var a := if i < n then i else i - n;
    var b := if j < n then j else j - n;
    var sa := if i < n then "_dup" else "_del";
    var sb := if j < n then "_dup" else "_del";
    var x := cat[a].id.value;
    var y := cat[b].id.value;
    assert es[i] == Some(x + sa) && es[j] == Some(y + sb);
    if sa != sb {
      assert (x + sa)[|x + sa| - 1] == sa[3];
      assert (y + sb)[|y + sb| - 1] == sb[3];
    } else if |x| == |y| {
      assert a != b;
      assert x != y by {
        if a < b { assert cat[a].id != cat[b].id; } else { assert cat[b].id != cat[a].id; }
      }
      assert (x + sa)[..|x|] == x;
      assert (y + sb)[..|y|] == y;
    }
  }

  /** A best match of a duplication or a deletion carries a label of the
      expanded universe. */
  lemma LabelInUniverse(cat: seq<CatalogRow>, k: nat, kind: string)
    requires k < |cat| && cat[k].id.Some?
    requires kind == "DUP" || kind == "DEL"
    ensures Label(cat[k].id.value, Some(kind)) in Expanded(cat)
  {
    var id := cat[k].id.value;
    var es := Expanded(cat);
    if kind == "DUP" {
      assert Lower(kind) == "dup";
      assert id + "_" + "dup" == id + "_dup";
      assert es[k] == Some(id + "_dup") && es[k] in es;
    } else {
      assert Lower(kind) == "del";
      assert id + "_" + "del" == id + "_del";
      assert es[|cat| + k] == Some(id + "_del") && es[|cat| + k] in es;
    }
  }

  // ---------------------------------------------------------------------
  // The whole query pipeline

  /** The best full match of every CNV (steps 2 to 7). */
  function BestOf(geneRows: seq<Row>, cat: seq<CatalogRow>, build: Build): (bs: seq<FullMatch>)
    ensures NoDup(CnvsOf(bs))
  {
    var ms := Explode(cat, build);
    BestMatches(FullCandidates(MatchingCounts(Filtered(GeneEdges(geneRows), ms), ms), RecurrentCounts(ms)))
  }

  /** Every surviving match names an id the catalog holds. */
  lemma BestOfInCatalog(geneRows: seq<Row>, cat: seq<CatalogRow>, build: Build)
    ensures forall b :: b in BestOf(geneRows, cat, build) ==> exists c :: c in cat && c.id == Some(b.id)
  {
    var ms := Explode(cat, build);
    var counts := RecurrentCounts(ms);
    var mcs := MatchingCounts(Filtered(GeneEdges(geneRows), ms), ms);
    var cs := FullCandidates(mcs, counts);
    assert BestOf(geneRows, cat, build) == BestMatches(cs);
    forall b | b in BestMatches(cs) ensures exists c :: c in cat && c.id == Some(b.id) {
      assert BestOfCnv(b, cs);
      CandidateInCatalog(cat, build, mcs, b);
    }
  }

  lemma CandidateInCatalog(cat: seq<CatalogRow>, build: Build, mcs: seq<MatchCount>, b: FullMatch)
    requires b in FullCandidates(mcs, RecurrentCounts(Explode(cat, build)))
    ensures exists c :: c in cat && c.id == Some(b.id)
  {
    var ms := Explode(cat, build);
    var counts := RecurrentCounts(ms);
    var x :| x in mcs && IsFull(x, counts) && b == ToFull(x, counts);
    var m :| m in ms && m.id == x.id;
    var c :| c in cat && m in RowMembers(c, build);
    assert c.id == Some(b.id);
  }

  /** The catalog table's rows, as the queries read them. */
  function CatalogOf(recurrent: Frame): (cat: seq<CatalogRow>)
    ensures |cat| == |recurrent.rows|
    ensures forall k :: 0 <= k < |cat| ==> cat[k].id == AsStr(Get(recurrent.rows[k], "rCNV_ID"))
  {
    seq(|recurrent.rows|, k requires 0 <= k < |recurrent.rows| =>
      var r := recurrent.rows[k];
      CatalogRow(AsStr(Get(r, "rCNV_ID")), AsStr(Get(r, "geneset_GRCh37")), AsStr(Get(r, "geneset_GRCh38"))))
  }

  function GeneColumn(build: Build): string {
    if build == GRCh37 then "geneset_GRCh37" else "geneset_GRCh38"
  }

  /** The columns the queries name; DuckDB rejects a query naming a
      missing one. */
  predicate HasColumns(geneDB: Frame, cnvDB: Frame, recurrent: Frame, build: Build) {
    GeneColumns(geneDB) && CatalogColumns(recurrent, build) &&
    "CNV_ID" in cnvDB.names && "SampleID" in cnvDB.names
  }

  /** The gene table's columns step 2 reads. */
  predicate GeneColumns(geneDB: Frame) {
    forall c :: c in ["CNV_ID", "Gene_ID", "Allele", "Exon_Overlap", "CANONICAL"] ==> c in geneDB.names
  }

  /** The catalog's columns step 3 reads. */
  predicate CatalogColumns(recurrent: Frame, build: Build) {
    "rCNV_ID" in recurrent.names && GeneColumn(build) in recurrent.names
  }

  /** `cnvDB_flagged` (steps 2 to 9). */
  function Flagged(geneDB: Frame, cnvDB: Frame, recurrent: Frame, build: Build): (g: Frame)
    ensures g.names == cnvDB.names + (if "rCNV_ID" in cnvDB.names then [] else ["rCNV_ID"])
    ensures |g.rows| >= |cnvDB.rows|
  {
    var cat := CatalogOf(recurrent);
    Flag(cnvDB, WithLabels(BestOf(geneDB.rows, cat, build), cat))
  }

  /** The two tables the script writes out. */
  datatype Outputs = Outputs(flagged: Frame, counts: seq<FreqRow>)

  /** `main` after loading: the flagged sample table and the sample count
      per label. */
  function Annotate(geneDB: Frame, cnvDB: Frame, recurrent: Frame, build: Build): (r: Result<Outputs>)
    ensures r.Ok? <==> HasColumns(geneDB, cnvDB, recurrent, build)
    ensures r.Ok? ==> |r.value.flagged.rows| >= |cnvDB.rows|
    ensures r.Ok? ==> r.value.flagged.names == cnvDB.names + (if "rCNV_ID" in cnvDB.names then [] else ["rCNV_ID"])
    ensures r.Ok? ==> FreqLabels(r.value.counts) == Universe(CatalogOf(recurrent))
    ensures r.Ok? ==> forall k :: 0 <= k < |r.value.counts| ==>
      r.value.counts[k].samples == |Samples(r.value.flagged.rows, r.value.counts[k].id)|
  {
    if !HasColumns(geneDB, cnvDB, recurrent, build) then Err("Binder Error: column not found")
    else
      var flagged := Flagged(geneDB, cnvDB, recurrent, build);
      Ok(Outputs(flagged, Frequencies(CatalogOf(recurrent), flagged.rows)))
  }

  /** With distinct catalog ids, every sample row appears exactly once in
      the flagged table, in order, and its label is null exactly when its CNV
      has no surviving full match or that match has a null type. */
  lemma AnnotateFlags(geneDB: Frame, cnvDB: Frame, recurrent: Frame, build: Build)
    requires UniqueIds(CatalogOf(recurrent))
    ensures var flagged := Flagged(geneDB, cnvDB, recurrent, build);
      |flagged.rows| == |cnvDB.rows| &&
      forall i :: 0 <= i < |cnvDB.rows| ==> flagged.rows[i] - {"rCNV_ID"} == cnvDB.rows[i] - {"rCNV_ID"}
    ensures var flagged := Flagged(geneDB, cnvDB, recurrent, build);
      var best := BestOf(geneDB.rows, CatalogOf(recurrent), build);
      forall i :: 0 <= i < |cnvDB.rows| ==>
        (Get(flagged.rows[i], "rCNV_ID") == Null <==>
         forall b :: b in best && KeyOfRow(cnvDB.rows[i]) == Some(b.cnv) ==> b.kind.None?)
  {
    var cat := CatalogOf(recurrent);
    var best := BestOf(geneDB.rows, cat, build);
    BestOfInCatalog(geneDB.rows, cat, build);
    FlagBest(cnvDB.rows, best, cat);
  }

  lemma FlagBest(rows: seq<Row>, best: seq<FullMatch>, cat: seq<CatalogRow>)
    requires UniqueIds(cat)
    requires NoDup(CnvsOf(best))
    requires forall b :: b in best ==> exists c :: c in cat && c.id == Some(b.id)
    ensures var out := FlagRows(rows, WithLabels(best, cat));
      |out| == |rows| &&
      forall i :: 0 <= i < |rows| ==> out[i] - {"rCNV_ID"} == rows[i] - {"rCNV_ID"}
    ensures var out := FlagRows(rows, WithLabels(best, cat));
      forall i :: 0 <= i < |rows| ==>
        (Get(out[i], "rCNV_ID") == Null <==>
         forall b :: b in best && KeyOfRow(rows[i]) == Some(b.cnv) ==> b.kind.None?)
  {
    WithLabelsOnePerMatch(best, cat);
    var ls := LabelsOf(best);
    LabelsOfOnePerCnv(best);
    FlagOnePerRow(rows, ls);
    forall i | 0 <= i < |rows| {
      RelabelledRow(rows[i], best);
    }
  }

  /** One sample row, relabelled from the best matches. */
  lemma RelabelledRow(g: Row, best: seq<FullMatch>)
    requires NoDup(CnvsOf(best))
    ensures var o := g["rCNV_ID" := FlagValue(g, LabelsOf(best))];
      o - {"rCNV_ID"} == g - {"rCNV_ID"} &&
      (Get(o, "rCNV_ID") == Null <==> forall b :: b in best && KeyOfRow(g) == Some(b.cnv) ==> b.kind.None?)
  {
    var ls := LabelsOf(best);
    LabelsOfOnePerCnv(best);
    FlagValueNull(g, ls);
    LabelsOfNull(best, KeyOfRow(g));
    var o := g["rCNV_ID" := FlagValue(g, ls)];
    assert o - {"rCNV_ID"} == g - {"rCNV_ID"};
  }

  /** The labelled rows of a CNV all have null labels exactly when its
      matches all have null types. */
  lemma LabelsOfNull(fs: seq<FullMatch>, key: Option<string>)
    ensures (forall l :: l in LabelsOf(fs) && key == Some(l.cnv) ==> l.typedId.None?) <==>
      (forall f :: f in fs && key == Some(f.cnv) ==> f.kind.None?)
  {
    var ls := LabelsOf(fs);
    forall f | f in fs ensures LabelOf(f) in ls {
      var j :| 0 <= j < |fs| && fs[j] == f;
      assert ls[j] == LabelOf(f);
    }
    forall l | l in ls ensures exists f :: f in fs && l == LabelOf(f) {
      var j :| 0 <= j < |ls| && ls[j] == l;
      assert fs[j] in fs;
    }
  }
}
