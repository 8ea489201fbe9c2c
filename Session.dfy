/** The DuckDB session of `annotate_rCNV.py`: the catalog of tables that
    `main`'s statements create one after another. */
module RecurrentSession {
  import opened Basics
  import opened Frames
  import opened RecurrentCnv

  /** The session's catalog: the three loaded tables and, for every table
      `main` creates, its rows once it exists. */
  datatype Catalog = Catalog(
    geneDB: Frame,
    cnvDB: Frame,
    recurrent: Frame,
    geneDBExploded: Option<seq<Edge>>,
    recurrentExploded: Option<seq<Member>>,
    geneDBFiltered: Option<seq<Edge>>,
    matchingCounts: Option<seq<MatchCount>>,
    recurrentCounts: Option<map<Option<string>, nat>>,
    fullMatches: Option<seq<FullMatch>>,
    fullMatchesWithRcnv: Option<seq<Labelled>>,
    cnvDBFlagged: Option<Frame>,
    recurrentExpanded: Option<seq<Option<string>>>,
    sampleRcnvCounts: Option<seq<FreqRow>>)

  /** `create_table_from_file` for the three inputs, on a new connection. */
  function Load(geneDB: Frame, cnvDB: Frame, recurrent: Frame): (db: Catalog)
    ensures db.geneDB == geneDB && db.cnvDB == cnvDB && db.recurrent == recurrent
    ensures Fresh(db) && db.recurrentExpanded.None? && db.sampleRcnvCounts.None?
  {
    Catalog(geneDB, cnvDB, recurrent, None, None, None, None, None, None, None, None, None, None)
  }

  /** None of the names `main` creates with a plain `CREATE TABLE` is taken;
      `recurrent_expanded` and `sample_rCNV_counts` are created with
      `CREATE OR REPLACE TABLE` and may exist. */
  predicate Fresh(db: Catalog) {
    db.geneDBExploded.None? && db.recurrentExploded.None? && db.geneDBFiltered.None? &&
    db.matchingCounts.None? && db.recurrentCounts.None? && db.fullMatches.None? &&
    db.fullMatchesWithRcnv.None? && db.cnvDBFlagged.None?
  }

  /** The tables `main` leaves behind. Each is what its statement computes
      from the tables its `FROM` clause names. */
  predicate Done(db: Catalog, build: Build) {
    var cat := CatalogOf(db.recurrent);
    db.geneDBExploded.Some? && db.recurrentExploded.Some? && db.geneDBFiltered.Some? &&
    db.matchingCounts.Some? && db.recurrentCounts.Some? && db.fullMatches.Some? &&
    db.fullMatchesWithRcnv.Some? && db.cnvDBFlagged.Some? && db.recurrentExpanded.Some? &&
    db.sampleRcnvCounts.Some? &&
    db.geneDBExploded.value == GeneEdges(db.geneDB.rows) &&
    db.recurrentExploded.value == Explode(cat, build) &&
    db.geneDBFiltered.value == Filtered(db.geneDBExploded.value, db.recurrentExploded.value) &&
    db.matchingCounts.value == MatchingCounts(db.geneDBFiltered.value, db.recurrentExploded.value) &&
    db.recurrentCounts.value == RecurrentCounts(db.recurrentExploded.value) &&
    db.fullMatches.value == BestMatches(FullCandidates(db.matchingCounts.value, db.recurrentCounts.value)) &&
    db.fullMatchesWithRcnv.value == WithLabels(db.fullMatches.value, cat) &&
    db.cnvDBFlagged.value == Flag(db.cnvDB, db.fullMatchesWithRcnv.value) &&
    db.recurrentExpanded.value == Expanded(cat) &&
    db.sampleRcnvCounts.value == Frequencies(cat, db.cnvDBFlagged.value.rows)
  }

  /** The loaded tables are the same in both catalogs. */
  predicate SameInputs(db: Catalog, out: Catalog) {
    out.geneDB == db.geneDB && out.cnvDB == db.cnvDB && out.recurrent == db.recurrent
  }

  /** `main`, statement by statement. A statement that names a missing
      column, or creates a name that is taken, raises; the script then stops
      and its in-memory catalog is discarded, so a failed run is modelled as
      leaving the catalog as it was. */
  method Execute(db: Catalog, build: Build) returns (r: Result<Unit>, out: Catalog)
    ensures r.Ok? <==> Fresh(db) && HasColumns(db.geneDB, db.cnvDB, db.recurrent, build)
    ensures r.Err? ==> out == db
    ensures r.Ok? ==> SameInputs(db, out) && Done(out, build)
  {
    if !Fresh(db) {
      return Err("Catalog Error: table already exists"), db;
    }
    if !HasColumns(db.geneDB, db.cnvDB, db.recurrent, build) {
      return Err("Binder Error: referenced column not found"), db;
    }
    out := db;
    // 2. geneDB_exploded
    var es := GeneEdges(db.geneDB.rows);
    out := out.(geneDBExploded := Some(es));
    // 3. recurrent_exploded
    var cat := CatalogOf(db.recurrent);
    var ms := Explode(cat, build);
    out := out.(recurrentExploded := Some(ms));
    // 4. geneDB_filtered
    var fs := Filtered(es, ms);
    out := out.(geneDBFiltered := Some(fs));
    // 5. matching_counts
    var mcs := MatchingCounts(fs, ms);
    out := out.(matchingCounts := Some(mcs));
    // 6. recurrent_counts
    var counts := RecurrentCounts(ms);
    out := out.(recurrentCounts := Some(counts));
    // 7. full_matches
    var best := BestMatches(FullCandidates(mcs, counts));
    out := out.(fullMatches := Some(best));
    // 8. full_matches_with_rCNV
    var ls := WithLabels(best, cat);
    out := out.(fullMatchesWithRcnv := Some(ls));
    // 9. cnvDB_flagged
    var flagged := Flag(db.cnvDB, ls);
    out := out.(cnvDBFlagged := Some(flagged));
    // recurrent_expanded and sample_rCNV_counts
    out := out.(recurrentExpanded := Some(Expanded(cat)));
    out := out.(sampleRcnvCounts := Some(Frequencies(cat, flagged.rows)));
    r := Ok(Unit);
  }

  /** The two tables the script writes out are `Annotate`'s outputs. */
  lemma DoneAnnotates(db: Catalog, build: Build)
    requires Done(db, build)
    requires HasColumns(db.geneDB, db.cnvDB, db.recurrent, build)
    ensures Annotate(db.geneDB, db.cnvDB, db.recurrent, build) ==
      Ok(Outputs(db.cnvDBFlagged.value, db.sampleRcnvCounts.value))
  {
  }

  /** The DuckDB connection of one run. */
  class Session {
    var db: Catalog

    constructor(geneDB: Frame, cnvDB: Frame, recurrent: Frame)
      ensures db == Load(geneDB, cnvDB, recurrent)
    {
      db := Load(geneDB, cnvDB, recurrent);
    }

    /** Runs `main`'s statements against the session's catalog. */
    method Run(build: Build) returns (r: Result<Unit>)
      modifies this
      ensures r.Ok? <==> Fresh(old(db)) && HasColumns(old(db).geneDB, old(db).cnvDB, old(db).recurrent, build)
      ensures r.Err? ==> db == old(db)
      ensures r.Ok? ==> SameInputs(old(db), db) && Done(db, build)
    {
      var out;
      r, out := Execute(db, build);
      db := out;
    }
  }
}
