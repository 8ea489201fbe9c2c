# CNV-Annotation core, modelled in Dafny

CNV-Annotation is a Nextflow pipeline that annotates copy-number variants
(CNVs) called on SNP-array samples. This project models the table
transformations its helper scripts perform, and proves what each one
guarantees about the tables it writes:

- `gene_db.py` cleans the per-transcript VEP annotation of every CNV. It
  nulls the `-` placeholders and computes `Exon_Overlap` from the `EXON`
  field. It turns `OverlapPC` into `Transcript_BP_Overlap` and reduces the
  gnomAD frequency columns to `Gnomad_Max_AF`. It builds the
  `chr_start_end_TYPE` identifier `CNV_ID`, casts `CANONICAL` to a boolean,
  splits `Consequence` into a list and renames `Feature` and `Gene`.
- `cnv_db_builder.py` reads the sample CNV table with a fixed schema. It
  parses `Copy_Number` into a list of Int32 values and classifies each CNV
  as `DUP`, `DEL` or `MIX`. Then it adds `CNV_ID` and moves the two
  identifiers to the front.
- `cnv_db_builder_lite.py` does the same for a table whose coordinate
  columns may be named in any letter case. It resolves them through the
  header's lower-cased names and does not classify the CNV.
- `merge_cnv_with_region.py` builds the same identifier and left-joins a
  region-overlap table on it.
- `prepare_cnvs_vep.py` turns the CNV table into VEP input. Columns 1 to 4
  become `Chr`, `Start`, `End` and `TYPE`, and a constant strand is added.
  Duplicate rows are dropped and the rest are sorted by position.
- `annotate_rCNV.py` runs a DuckDB session that flags every sample CNV
  which fully contains the gene set of a recurrent CNV from a catalog. It
  then counts the samples flagged with each recurrent CNV label.

The Polars scripts are modelled on a dynamic data frame
(`Frames.Frame`: column names and rows mapping names to cells). A cell
missing from a row reads as null. Each Polars expression
(`with_columns`, `select`, `concat_str`, `str.split`, `list.max`,
`when/then/otherwise`, `join`, `unique`, `sort`) is a function with its
own contract. An operation that raises in Polars, such as a missing
column, a duplicate output name or a failed strict cast, becomes an `Err`
result. The DuckDB script becomes typed records, one per intermediate
table, and a `Catalog` of the tables the session has created. The session
is the class `RecurrentSession.Session`, whose method `Run` executes the
statements in order.

Modules follow the source files: `GeneDb`, `CnvDbBuilder`,
`CnvDbBuilderLite`, `MergeCnvRegion`, `PrepareVep`, `RecurrentCnv` and
`RecurrentSession`. They are built on three shared modules: `Frames`,
`Text` (split, join, trimming, case mapping, decimal text) and `Seqs`
(filtering, de-duplication, sorting).

## Model

| member | source | states |
|---|---|---|
| GeneDb.MakeNull | modules/vep_annotate/resources/usr/bin/gene_db.py:135-154 | every `-` cell of every column becomes null, every other cell is kept; names and row count unchanged |
| GeneDb.NullRow | modules/vep_annotate/resources/usr/bin/gene_db.py:135-154 | one row keeps its keys and has each `-` replaced by null |
| GeneDb.MakeNullIdempotent | modules/vep_annotate/resources/usr/bin/gene_db.py:135-154 | make_null applied twice equals make_null applied once, and its output holds no placeholder |
| GeneDb.OverlapFallback | modules/vep_annotate/resources/usr/bin/gene_db.py:121-127 | the chain's last branch is 1.0 exactly when `OverlapPC` is text containing "100", otherwise null |
| GeneDb.ParseNats | modules/vep_annotate/resources/usr/bin/gene_db.py:84-102 | the strict cast of all range pieces succeeds iff every piece casts, and then yields each piece's value in order |
| GeneDb.ExonOfParts | modules/vep_annotate/resources/usr/bin/gene_db.py:72-131 | an `EXON` cell "range/total" gives the fraction the chain picks for its parsed range and total |
| GeneDb.SplitTotal | modules/vep_annotate/resources/usr/bin/gene_db.py:84-90 | "x/n" splits at its single '/' into the range and the total |
| GeneDb.ParseOne | modules/vep_annotate/resources/usr/bin/gene_db.py:84-102 | a single numeral casts to its value |
| GeneDb.ParseTwo | modules/vep_annotate/resources/usr/bin/gene_db.py:84-102 | two numerals cast to their values in order |
| GeneDb.ParseThree | modules/vep_annotate/resources/usr/bin/gene_db.py:84-102 | three numerals cast to their values in order |
| GeneDb.ExonSingle | modules/vep_annotate/resources/usr/bin/gene_db.py:108-112 | "a/n" with a non-zero single exon gives exactly 1/n |
| GeneDb.RangeParts | modules/vep_annotate/resources/usr/bin/gene_db.py:72-81 | "a-b" holds no '/' and splits into the two numbers a and b |
| GeneDb.ExonRange | modules/vep_annotate/resources/usr/bin/gene_db.py:114-120 | "a-b/n" gives (max(a,b) - min(a,b) + 1)/n |
| GeneDb.ExonRangeSymmetric | modules/vep_annotate/resources/usr/bin/gene_db.py:114-120 | "a-b/n" and "b-a/n" give the same fraction |
| GeneDb.ExonRangeInUnitInterval | modules/vep_annotate/resources/usr/bin/gene_db.py:114-120 | for "a-b/n" with both ends in 1..n, `Exon_Overlap` is a fraction over n with numerator in 1..n, so it lies in (0, 1] |
| GeneDb.ExonZero | modules/vep_annotate/resources/usr/bin/gene_db.py:105-127 | a range "0" and a null `EXON` both fall through to the `OverlapPC` test |
| GeneDb.SplitThree | modules/vep_annotate/resources/usr/bin/gene_db.py:72-81 | "x-y-z" with no '-' in its parts splits into exactly [x, y, z] |
| GeneDb.ThreeParts | modules/vep_annotate/resources/usr/bin/gene_db.py:72-81 | a three-piece range holds no '/' and splits into its three numbers |
| GeneDb.ExonThreePieces | modules/vep_annotate/resources/usr/bin/gene_db.py:105-127 | a range of three pieces is neither the single nor the two-ended case and falls through to the `OverlapPC` test |
| GeneDb.ExonWithoutTotalFails | modules/vep_annotate/resources/usr/bin/gene_db.py:84-102 | an `EXON` text without '/' makes the strict cast of the total fail, so the step raises |
| GeneDb.MakeExonOverlap | modules/vep_annotate/resources/usr/bin/gene_db.py:56-131 | succeeds iff `EXON` and `OverlapPC` are columns and every row's cast succeeds; adds `Exon_Overlap`, drops every helper column, keeps the row count and every other cell |
| GeneDb.TranscriptFraction | modules/vep_annotate/resources/usr/bin/gene_db.py:157-173 | null exactly when `OverlapPC` is null, otherwise the cast percentage divided by 100 |
| GeneDb.MakeTranscriptOverlap | modules/vep_annotate/resources/usr/bin/gene_db.py:157-173 | succeeds iff `OverlapPC` is a column; the columns are the input's with `Transcript_BP_Overlap` appended (or kept in place when present) and `OverlapPC` removed; every other cell is kept |
| GeneDb.ArgMax | modules/vep_annotate/resources/usr/bin/gene_db.py:217-230 | a position of a largest element of a non-empty list |
| GeneDb.MaxAF | modules/vep_annotate/resources/usr/bin/gene_db.py:217-230 | the result is one of the parsed frequencies and no parsed frequency exceeds it |
| GeneDb.GnomadValue | modules/vep_annotate/resources/usr/bin/gene_db.py:217-230 | a null gnomAD cell becomes 0, a text cell the largest of its comma-separated frequencies |
| GeneDb.NotGnomad | modules/vep_annotate/resources/usr/bin/gene_db.py:195-237 | a name not starting with 'g' is neither a `gnomad` nor a `gnomad_` column |
| GeneDb.GnomadAFColumns | modules/vep_annotate/resources/usr/bin/gene_db.py:232-236 | exactly the frame's `gnomad_` columns |
| GeneDb.RowMaxAF | modules/vep_annotate/resources/usr/bin/gene_db.py:232-236 | the horizontal maximum is null iff there is no `gnomad_` column, otherwise one of the converted cells and at least each of them |
| GeneDb.GnomadRow | modules/vep_annotate/resources/usr/bin/gene_db.py:195-237 | a row holds the maximum, no `gnomad_` cell, the converted other `gnomad` cells and every other cell unchanged |
| GeneDb.MakeMaxGnomad | modules/vep_annotate/resources/usr/bin/gene_db.py:195-237 | `Gnomad_Max_AF` is added, no `gnomad_` column survives, the row count is kept and every non-gnomAD cell is unchanged |
| GeneDb.AlleleType | modules/vep_annotate/resources/usr/bin/gene_db.py:251-255 | the type token is the first three characters of `Allele`, upper-cased (ASCII) |
| GeneDb.CnvId | modules/vep_annotate/resources/usr/bin/gene_db.py:257-265 | the identifier is `Location`, '_' and the type with every ':', '\|' and '-' turned into '_', character by character, and holds none of them |
| GeneDb.CnvIdOrder | modules/vep_annotate/resources/usr/bin/gene_db.py:267-269 | `CNV_ID` first, then exactly the other columns except `#Uploaded_variation`, duplicate-free when the input is |
| GeneDb.CnvIdColumns | modules/vep_annotate/resources/usr/bin/gene_db.py:251-265 | the type token replaces `Allele`, `CNV_ID` is built from `Location` and the token, other cells are kept |
| GeneDb.MakeCnvId | modules/vep_annotate/resources/usr/bin/gene_db.py:240-269 | succeeds only when `Allele` and `Location` are columns and keeps the row count; the column order and cells are stated by `GeneDb.MakeCnvIdNames` and `GeneDb.MakeCnvIdCells` |
| GeneDb.MakeCnvIdNames | modules/vep_annotate/resources/usr/bin/gene_db.py:240-269 | on distinct names holding both inputs the step succeeds, with `CNV_ID` first and the other columns minus `#Uploaded_variation` in order |
| GeneDb.MakeCnvIdCells | modules/vep_annotate/resources/usr/bin/gene_db.py:251-269 | the output rows hold the token in `Allele`, the identifier in `CNV_ID` and every other kept cell unchanged |
| GeneDb.CanonicalFlag | modules/vep_annotate/resources/usr/bin/gene_db.py:175-186 | null iff `Feature` is null; true iff a transcript row's `CANONICAL` contains "YES"; false for a transcript row without the flag |
| GeneDb.MakeCanonBool | modules/vep_annotate/resources/usr/bin/gene_db.py:175-186 | succeeds iff both columns exist; only `CANONICAL` changes |
| GeneDb.ConsequenceCell | modules/vep_annotate/resources/usr/bin/gene_db.py:188-192 | null stays null; text becomes a non-empty list that joins back with "," to the original text |
| GeneDb.MakeConsequenceList | modules/vep_annotate/resources/usr/bin/gene_db.py:188-192 | succeeds iff `Consequence` exists; only that column changes |
| GeneDb.RenameIds | modules/vep_annotate/resources/usr/bin/gene_db.py:51 | succeeds iff `Feature` and `Gene` are columns and `Transcript_ID` and `Gene_ID` are not; keeps every position and row, moves the two columns' cells to their new names and keeps every other cell |
| GeneDb.Annotate | modules/vep_annotate/resources/usr/bin/gene_db.py:38-45 | after make_CNV_ID the frame keeps its rows, starts with `CNV_ID` and holds no raw `OverlapPC` or `gnomad_` column |
| GeneDb.GnomadNames | modules/vep_annotate/resources/usr/bin/gene_db.py:195-237 | after make_max_gnomad no name is `OverlapPC` or a `gnomad_` column, given no `OverlapPC` came in |
| GeneDb.CnvIdNames | modules/vep_annotate/resources/usr/bin/gene_db.py:240-269 | every name after make_CNV_ID is `CNV_ID` or an input name other than `#Uploaded_variation` |
| GeneDb.Overlaps | modules/vep_annotate/resources/usr/bin/gene_db.py:38-43 | make_null, make_exon_overlap and make_transcript_overlap keep the rows and remove `OverlapPC` |
| GeneDb.Finish | modules/vep_annotate/resources/usr/bin/gene_db.py:46-51 | succeeds iff `CANONICAL`, `Consequence`, `Feature` and `Gene` are columns and neither new name is taken; keeps rows and positions, renames `Feature` and `Gene`, and gives every cell: the flag, the split list, the moved identifiers, and the rest unchanged |
| GeneDb.RenameKeepsClean | modules/vep_annotate/resources/usr/bin/gene_db.py:51 | renaming `Feature` and `Gene` keeps a clean name clean (not `#Uploaded_variation`, `OverlapPC` or a `gnomad_` name) |
| GeneDb.FinishClean | modules/vep_annotate/resources/usr/bin/gene_db.py:46-51 | the last two steps and the rename keep every column name clean |
| GeneDb.GeneDbTable | modules/vep_annotate/resources/usr/bin/gene_db.py:30-51 | the script succeeds iff the steps up to make_CNV_ID succeed and leave the columns the last steps need; the written table keeps every annotation row, starts with `CNV_ID` and holds no raw `OverlapPC` or `gnomad_` column |
| CnvDbBuilder.InputColumnsOfSchema | bin/cnv_db_builder.py:11-29 | the scanned column names are the schema's, in its order |
| CnvDbBuilder.CastInt32 | bin/cnv_db_builder.py:39 | a strict Int32 cast succeeds only with a value in the Int32 range |
| CnvDbBuilder.CastAll | bin/cnv_db_builder.py:39 | the list cast succeeds iff every piece casts, piece by piece in order |
| CnvDbBuilder.CopyNumbers | bin/cnv_db_builder.py:36-40 | null stays null; a parsed cell is a list of Int32 values |
| CnvDbBuilder.CastInt32Dec | bin/cnv_db_builder.py:39 | the decimal text of any Int32 casts back to it |
| CnvDbBuilder.DecHasNoComma | bin/cnv_db_builder.py:38 | a decimal numeral contains no ',' so it survives the split whole |
| CnvDbBuilder.CopyNumbersOfText | bin/cnv_db_builder.py:36-40 | the comma-joined decimals of a non-empty Int32 list parse back to exactly that list |
| CnvDbBuilder.CopyNumbersRejects | bin/cnv_db_builder.py:36-40 | a piece that is not an Int32 makes the whole step fail |
| CnvDbBuilder.SeqMax | bin/cnv_db_builder.py:46 | the maximum of a non-empty list is an element and bounds every element |
| CnvDbBuilder.SeqMin | bin/cnv_db_builder.py:47 | the minimum of a non-empty list is an element and is bounded by every element |
| CnvDbBuilder.ListMax | bin/cnv_db_builder.py:46 | `list.max()` is null iff the list is null or empty, otherwise the largest element |
| CnvDbBuilder.ListMin | bin/cnv_db_builder.py:47 | `list.min()` is null iff the list is null or empty, otherwise the smallest element |
| CnvDbBuilder.And | bin/cnv_db_builder.py:46-52 | Kleene `&`: true iff both are true, false iff either is false, otherwise null |
| CnvDbBuilder.CnType | bin/cnv_db_builder.py:43-58 | the type is always one of `DUP`, `DEL` and `MIX` |
| CnvDbBuilder.CnTypeDup | bin/cnv_db_builder.py:44-49 | `DUP` iff the list is non-empty and every copy number is at least 2 |
| CnvDbBuilder.CnTypeDel | bin/cnv_db_builder.py:50-54 | `DEL` iff the list is non-empty and every copy number is below 2 |
| CnvDbBuilder.CnTypeMix | bin/cnv_db_builder.py:55 | `MIX` iff the list is null or empty, or holds one copy number below 2 and one at least 2 |
| CnvDbBuilder.CnTypeSingle | bin/cnv_db_builder.py:43-58 | a single copy number is `DUP` when at least 2, otherwise `DEL` |
| CnvDbBuilder.ParseCopyNumbers | bin/cnv_db_builder.py:36-40 | succeeds iff every row parses; only `Copy_Number` changes, to its parsed list |
| CnvDbBuilder.AddCnType | bin/cnv_db_builder.py:43-58 | adds `CN_Type` as the classification of each row's list; other cells are kept |
| CnvDbBuilder.AddCnvId | bin/cnv_db_builder.py:60-66 | adds `CNV_ID` as the `_`-joined `Chr`, `Start`, `End` and `CN_Type` of each row; other cells are kept |
| CnvDbBuilder.ClassifiedShape | bin/cnv_db_builder.py:36-66 | the three steps succeed iff every `Copy_Number` parses, and keep the row count |
| CnvDbBuilder.NamesOfSchema | bin/cnv_db_builder.py:36-66 | on the schema's columns the steps append exactly `CN_Type` and `CNV_ID`, keeping names distinct |
| CnvDbBuilder.OrderOfSchema | bin/cnv_db_builder.py:69-72 | the output order is `CNV_ID`, `SampleID`, the other scanned columns in order, then `CN_Type` |
| CnvDbBuilder.OrderOfSchemaPermutation | bin/cnv_db_builder.py:69-72 | the output order is a duplicate-free permutation of the columns present |
| CnvDbBuilder.WithoutAppend | bin/cnv_db_builder.py:69-70 | removing a set of names distributes over concatenation |
| CnvDbBuilder.WithoutAbsent | bin/cnv_db_builder.py:69-70 | removing an absent name together with `SampleID` is removing `SampleID` alone |
| CnvDbBuilder.OutputHas | bin/cnv_db_builder.py:69-72 | every name of the output order is a column of the classified frame |
| CnvDbBuilder.BuildColumns | bin/cnv_db_builder.py:31-72 | on schema columns the script succeeds iff every row parses, with the IDs-first order and every row kept |
| CnvDbBuilder.ClassifiedType | bin/cnv_db_builder.py:43-58 | each classified row's `CN_Type` is the type of its parsed list |
| CnvDbBuilder.ClassifiedId | bin/cnv_db_builder.py:60-66 | each classified row's `CNV_ID` joins its coordinates and its type |
| CnvDbBuilder.ClassifiedOthers | bin/cnv_db_builder.py:36-66 | every other scanned cell is unchanged by the three steps |
| CnvDbBuilder.BuildCells | bin/cnv_db_builder.py:36-72 | the output cells are the parsed list, the type, the identifier and the scanned cells |
| CnvDbBuilder.BuildId | bin/cnv_db_builder.py:60-66 | for text and integer coordinates the identifier is `Chr_Start_End_CN_Type`, the integers in decimal and the type that of the parsed list |
| CnvDbBuilder.BuildIdNull | bin/cnv_db_builder.py:60-66 | the identifier is null exactly when `Chr`, `Start` or `End` has no text (the type never is null) |
| CnvDbBuilder.InputColumnsScan | bin/cnv_db_builder.py:11-29 | the schema's names meet what the script needs: distinct, holding `SampleID` and `Copy_Number`, and neither new column |
| CnvDbBuilder.InputColumnsDistinct | bin/cnv_db_builder.py:11-29 | the schema's names are distinct |
| CnvDbBuilder.InputColumnsNew | bin/cnv_db_builder.py:11-29 | the schema names neither `CN_Type` nor `CNV_ID` |
| CnvDbBuilder.CnvDbColumns | bin/cnv_db_builder.py:69-72 | a successful run writes `CNV_ID`, `SampleID`, the fourteen other schema columns in order, then `CN_Type` |
| CnvDbBuilder.OutputOrder | bin/cnv_db_builder.py:69-70 | the schema columns without `SampleID` are the schema order after its first column |
| CnvDbBuilder.WithoutHead | bin/cnv_db_builder.py:69-70 | removing the first name of a duplicate-free list leaves its tail |
| CnvDbBuilder.WithoutNone | bin/cnv_db_builder.py:69-70 | removing names none of which occur changes nothing |
| CnvDbBuilderLite.ResolveIdColumns | bin/cnv_db_builder_lite.py:14-27 | the four `col_map` look-ups succeed iff each key is some header lower-cased, and then give the mapped names; otherwise KeyError |
| CnvDbBuilderLite.AddCnvId | bin/cnv_db_builder_lite.py:22-28 | `CNV_ID` replaces or is appended as each row's `concat_str` of the four resolved cells; other cells are kept |
| CnvDbBuilderLite.OrderWithId | bin/cnv_db_builder_lite.py:31-32 | the IDs-first order of the names with `CNV_ID` is a duplicate-free permutation of them |
| CnvDbBuilderLite.LiteSucceeds | bin/cnv_db_builder_lite.py:12-33 | on a header of distinct names the script succeeds iff all four keys resolve and `SampleID` is a column |
| CnvDbBuilderLite.LiteKeyError | bin/cnv_db_builder_lite.py:24-27 | a missing coordinate key gives KeyError |
| CnvDbBuilderLite.LiteColumns | bin/cnv_db_builder_lite.py:31-33 | the output is `CNV_ID`, `SampleID` and the other input columns in order, with every row kept |
| CnvDbBuilderLite.WithoutIdAdded | bin/cnv_db_builder_lite.py:31-32 | adding `CNV_ID` does not change the names after the IDs |
| CnvDbBuilderLite.WithoutAppendId | bin/cnv_db_builder_lite.py:31-32 | an appended `CNV_ID` is filtered out again |
| CnvDbBuilderLite.LiteCells | bin/cnv_db_builder_lite.py:22-33 | each output row holds the identifier of its resolved coordinates and every other input cell unchanged |
| CnvDbBuilderLite.LiteId | bin/cnv_db_builder_lite.py:22-28 | for text and integer coordinates the identifier is `chr_start_end_type`, the integers in decimal |
| CnvDbBuilderLite.LiteIdInjective | bin/cnv_db_builder_lite.py:22-28 | two rows whose chromosome and type hold no `_` share an identifier only when they share chromosome, start, end and type |
| CnvDbBuilderLite.LiteIdNull | bin/cnv_db_builder_lite.py:22-28 | the identifier is null exactly when one of the four cells has no text |
| CnvDbBuilderLite.GeneDbIdAgrees | bin/cnv_db_builder_lite.py:22-28 | for a location `chr:start-end` and a type free of ':', '-' and '\|', the gene_db identifier equals this one |
| CnvDbBuilderLite.DigitsFree | bin/cnv_db_builder_lite.py:22-28 | a numeral contains none of the separators gene_db replaces |
| MergeCnvRegion.Utf8 | bin/merge_cnv_with_region.py:40-41 | the cast to Utf8 keeps a cell's text, and is null exactly when the cell has no text |
| MergeCnvRegion.MergeIdIsLiteId | bin/merge_cnv_with_region.py:37-44 | the identifier with the two casts equals the one cnv_db_builder_lite builds from the same cells |
| MergeCnvRegion.AddCnvId | bin/merge_cnv_with_region.py:37-44 | `CNV_ID` is each row's `concat_str` of the resolved cells; other cells are kept |
| MergeCnvRegion.Matches | bin/merge_cnv_with_region.py:54 | a non-null key joins each region row whose `CNV_ID` equals it, as many times as the region table holds that row, and no other row |
| MergeCnvRegion.MatchesAppend | bin/merge_cnv_with_region.py:54 | the matches of a region table are those of its first part followed by those of the rest, so they keep the region table's order |
| MergeCnvRegion.MatchesSingle | bin/merge_cnv_with_region.py:54 | a single region row matches itself when its `CNV_ID` equals the non-null key, and nothing otherwise |
| MergeCnvRegion.OutNames | bin/merge_cnv_with_region.py:54 | each region column keeps its name, or takes the `_right` suffix when the left side has it |
| MergeCnvRegion.AttachRight | bin/merge_cnv_with_region.py:54 | a joined row's region cell is the match's cell, or null without a match |
| MergeCnvRegion.AttachLeft | bin/merge_cnv_with_region.py:54 | attaching region cells leaves every left cell of the row unchanged |
| MergeCnvRegion.Expand | bin/merge_cnv_with_region.py:54 | a left row gives one joined row per match, or a single row when there is none |
| MergeCnvRegion.ExpandCells | bin/merge_cnv_with_region.py:54 | each joined row keeps the left cells and holds null or the matched row's region cells |
| MergeCnvRegion.JoinRowsAppend | bin/merge_cnv_with_region.py:54 | the join of two blocks of left rows is the two joins, concatenated |
| MergeCnvRegion.JoinBlock | bin/merge_cnv_with_region.py:54 | the joined rows of one left row appear together, in left order |
| MergeCnvRegion.JoinKeepsRows | bin/merge_cnv_with_region.py:54 | a left join never loses a left row |
| MergeCnvRegion.UniqueMatches | bin/merge_cnv_with_region.py:54 | with distinct region keys a key matches at most one region row |
| MergeCnvRegion.NoMatches | bin/merge_cnv_with_region.py:54 | a key no region row holds matches nothing |
| MergeCnvRegion.JoinUniqueRows | bin/merge_cnv_with_region.py:54 | with distinct region keys the join keeps the left row count exactly |
| MergeCnvRegion.LeftJoin | bin/merge_cnv_with_region.py:54 | succeeds iff the region table has `CNV_ID` and the joined names are distinct; otherwise ColumnNotFound or Duplicate |
| MergeCnvRegion.MergeSucceeds | bin/merge_cnv_with_region.py:25-59 | the script succeeds iff the keys resolve, the region has `CNV_ID`, the joined names are distinct and hold `SampleID` |
| MergeCnvRegion.MergeShape | bin/merge_cnv_with_region.py:54-59 | IDs first then the joined names in order; at least one row per CNV row, exactly one with distinct region keys |
| MergeCnvRegion.MergeIsSelect | bin/merge_cnv_with_region.py:57-59 | the output is the select of the joined frame in the IDs-first order |
| MergeCnvRegion.MergeCells | bin/merge_cnv_with_region.py:54-59 | every output cell is the joined frame's cell of the same name |
| MergeCnvRegion.MergeKey | bin/merge_cnv_with_region.py:37-59 | after the identifier step, each CNV row's `CNV_ID` is the identifier cnv_db_builder_lite builds from the same cells |
| PrepareVep.Projected | modules/vep_annotate/resources/usr/bin/prepare_cnvs_vep.py:17-24 | one projected row per input row, holding that row's cells at positions 1 to 4 |
| PrepareVep.ValueLeTotal | modules/vep_annotate/resources/usr/bin/prepare_cnvs_vep.py:46 | any two sort keys are ordered one way or the other |
| PrepareVep.ValueLeTransitive | modules/vep_annotate/resources/usr/bin/prepare_cnvs_vep.py:46 | the key order is transitive |
| PrepareVep.RowLeTotal | modules/vep_annotate/resources/usr/bin/prepare_cnvs_vep.py:46 | the (Chr, Start, End) order is total |
| PrepareVep.RowLeTransitive | modules/vep_annotate/resources/usr/bin/prepare_cnvs_vep.py:46 | the (Chr, Start, End) order is transitive |
| PrepareVep.RowLeStep | modules/vep_annotate/resources/usr/bin/prepare_cnvs_vep.py:46 | transitivity of the row order for three given rows |
| PrepareVep.KeyLeTransitive | modules/vep_annotate/resources/usr/bin/prepare_cnvs_vep.py:46 | a lexicographic key is transitive when the order on the later keys is |
| PrepareVep.VepColumnsExact | modules/vep_annotate/resources/usr/bin/prepare_cnvs_vep.py:17-44 | succeeds iff the table has at least five columns; the output has exactly the five VEP columns and no `SampleID` |
| PrepareVep.VepRows | modules/vep_annotate/resources/usr/bin/prepare_cnvs_vep.py:44-45 | the output rows are exactly the projected rows, each once |
| PrepareVep.VepSorted | modules/vep_annotate/resources/usr/bin/prepare_cnvs_vep.py:46 | the output is sorted by (Chr, Start, End) |
| PrepareVep.VepCells | modules/vep_annotate/resources/usr/bin/prepare_cnvs_vep.py:17-24 | each output row comes from an input row's positions 1 to 4, with strand "." and only the five columns |
| PrepareVep.ProjectShape | modules/vep_annotate/resources/usr/bin/prepare_cnvs_vep.py:17-24 | a projected row holds the positional cells, the strand and only the five columns |
| RecurrentCnv.GeneEdges | modules/rCNV_annotation/resources/bin/annotate_rCNV.py:40-46 | the edges are exactly those of annotation rows with positive exon overlap on a canonical transcript |
| RecurrentCnv.RowMembers | modules/rCNV_annotation/resources/bin/annotate_rCNV.py:49-58 | one catalog row's members are its trimmed comma-separated genes, none for a null list |
| RecurrentCnv.Explode | modules/rCNV_annotation/resources/bin/annotate_rCNV.py:51-58 | the exploded table holds the members of every catalog row, row by row |
| RecurrentCnv.RowMembersLists | modules/rCNV_annotation/resources/bin/annotate_rCNV.py:51-58 | a gene is a member of a row iff its list names it after trimming |
| RecurrentCnv.EntryGenesOfCatalog | modules/rCNV_annotation/resources/bin/annotate_rCNV.py:51-58 | a gene belongs to an entry iff a catalog row with that id lists it |
| RecurrentCnv.EmptyTokenKept | modules/rCNV_annotation/resources/bin/annotate_rCNV.py:57 | "a,,b" lists the empty gene |
| RecurrentCnv.TokenTrimmed | modules/rCNV_annotation/resources/bin/annotate_rCNV.py:55 | " g " lists the gene "g" |
| RecurrentCnv.MembersOf | modules/rCNV_annotation/resources/bin/annotate_rCNV.py:61-67 | exactly the members that list a gene |
| RecurrentCnv.Filtered | modules/rCNV_annotation/resources/bin/annotate_rCNV.py:61-67 | an edge survives iff its gene is listed by some entry |
| RecurrentCnv.FilteredGenes | modules/rCNV_annotation/resources/bin/annotate_rCNV.py:61-67 | after the filter a CNV keeps exactly its genes that the catalog lists |
| RecurrentCnv.JoinedGenesIntersection | modules/rCNV_annotation/resources/bin/annotate_rCNV.py:80-91 | the distinct genes a (CNV, entry) group counts are the CNV's genes shared with the entry |
| RecurrentCnv.EdgeKeys | modules/rCNV_annotation/resources/bin/annotate_rCNV.py:86-91 | the keys of one edge are its CNV paired with the id of each member it hits |
| RecurrentCnv.JoinKeys | modules/rCNV_annotation/resources/bin/annotate_rCNV.py:80-91 | exactly the joined (CNV, entry) keys |
| RecurrentCnv.JoinedIffShared | modules/rCNV_annotation/resources/bin/annotate_rCNV.py:80-91 | a key is grouped iff the CNV and the entry share a gene |
| RecurrentCnv.KindsOf | modules/rCNV_annotation/resources/bin/annotate_rCNV.py:75 | exactly the types of a CNV's edges |
| RecurrentCnv.StrLeBelowAll | modules/rCNV_annotation/resources/bin/annotate_rCNV.py:75 | a text below one that bounds every non-null type from below bounds them too |
| RecurrentCnv.MinOpt | modules/rCNV_annotation/resources/bin/annotate_rCNV.py:75 | SQL `MIN` ignores nulls, is null only when every value is, and is otherwise the least text |
| RecurrentCnv.CountOf | modules/rCNV_annotation/resources/bin/annotate_rCNV.py:72-91 | the count row of a key carries that key, and its `Type` is `MIN(Type)` over the CNV's filtered edges: null iff all are null, otherwise one of them and below every non-null one |
| RecurrentCnv.CountsOfKeys | modules/rCNV_annotation/resources/bin/annotate_rCNV.py:80-91 | one count row per joined key, in order |
| RecurrentCnv.MatchingCounts | modules/rCNV_annotation/resources/bin/annotate_rCNV.py:70-92 | one row per (CNV, entry) pair sharing a gene |
| RecurrentCnv.CountsOfKeysMembers | modules/rCNV_annotation/resources/bin/annotate_rCNV.py:80-91 | a count row exists iff its key was joined |
| RecurrentCnv.MatchingCountsMeaning | modules/rCNV_annotation/resources/bin/annotate_rCNV.py:70-92 | in terms of the raw edges, a row exists iff genes are shared; `matched` is the shared count and the CNV total its listed gene count |
| RecurrentCnv.RecurrentCounts | modules/rCNV_annotation/resources/bin/annotate_rCNV.py:95-100 | each entry with a member maps to its positive number of distinct genes |
| RecurrentCnv.FullCandidates | modules/rCNV_annotation/resources/bin/annotate_rCNV.py:105-121 | a candidate is a count row whose matched genes equal the entry's total |
| RecurrentCnv.SubsetOfSameSize | modules/rCNV_annotation/resources/bin/annotate_rCNV.py:120 | a subset as large as its finite superset equals it |
| RecurrentCnv.SubsetSize | modules/rCNV_annotation/resources/bin/annotate_rCNV.py:120 | a subset is no larger than its superset |
| RecurrentCnv.SharedAll | modules/rCNV_annotation/resources/bin/annotate_rCNV.py:120 | the shared genes number as many as the entry's iff all the entry's genes are shared |
| RecurrentCnv.EntryCounted | modules/rCNV_annotation/resources/bin/annotate_rCNV.py:117-120 | a joined entry has a total in `recurrent_counts` |
| RecurrentCnv.FullIffContained | modules/rCNV_annotation/resources/bin/annotate_rCNV.py:103-125 | a pair is a full match iff every gene of the entry is a gene of the CNV |
| RecurrentCnv.BeatsTransitive | modules/rCNV_annotation/resources/bin/annotate_rCNV.py:113-116 | the ranking of matches is transitive |
| RecurrentCnv.Best | modules/rCNV_annotation/resources/bin/annotate_rCNV.py:113-124 | the kept candidate is one of them and ranks at least as high as every other |
| RecurrentCnv.CandidatesOf | modules/rCNV_annotation/resources/bin/annotate_rCNV.py:113-114 | exactly the candidates of one CNV |
| RecurrentCnv.CnvsOf | modules/rCNV_annotation/resources/bin/annotate_rCNV.py:113-114 | the CNV of each candidate, position by position |
| RecurrentCnv.CnvsHaveCandidates | modules/rCNV_annotation/resources/bin/annotate_rCNV.py:113-114 | every listed CNV has a candidate |
| RecurrentCnv.BestMatches | modules/rCNV_annotation/resources/bin/annotate_rCNV.py:103-125 | exactly one kept match per CNV with a full match, and it is that CNV's best |
| RecurrentCnv.BestOfEach | modules/rCNV_annotation/resources/bin/annotate_rCNV.py:113-124 | the best candidate of each listed CNV, one per position of the CNV list |
| RecurrentCnv.BestOfEachMaximal | modules/rCNV_annotation/resources/bin/annotate_rCNV.py:113-124 | each kept match beats every candidate of its CNV |
| RecurrentCnv.BestOfEachCovers | modules/rCNV_annotation/resources/bin/annotate_rCNV.py:113-124 | the kept matches cover exactly the listed CNVs |
| RecurrentCnv.BestOfEachDistinct | modules/rCNV_annotation/resources/bin/annotate_rCNV.py:113-124 | no CNV keeps two matches |
| RecurrentCnv.Label | modules/rCNV_annotation/resources/bin/annotate_rCNV.py:133 | the label is `rCNV_ID_type` with the type lower-cased, and null exactly when the type is null |
| RecurrentCnv.LabelOf | modules/rCNV_annotation/resources/bin/annotate_rCNV.py:128-140 | the labelled row of a match carries its CNV, entry and label |
| RecurrentCnv.CatalogHits | modules/rCNV_annotation/resources/bin/annotate_rCNV.py:137-139 | the number of catalog rows with a given id: positive iff the catalog holds it, and at most the catalog size |
| RecurrentCnv.WithLabelsMembers | modules/rCNV_annotation/resources/bin/annotate_rCNV.py:128-140 | a labelled row is the label of a match whose id the catalog holds |
| RecurrentCnv.LabelledCnvs | modules/rCNV_annotation/resources/bin/annotate_rCNV.py:128-140 | the CNVs of the labelled rows, in order |
| RecurrentCnv.UniqueIdsHit | modules/rCNV_annotation/resources/bin/annotate_rCNV.py:137-139 | with distinct catalog ids an id hits at most one catalog row |
| RecurrentCnv.NoOtherHit | modules/rCNV_annotation/resources/bin/annotate_rCNV.py:137-139 | an id the catalog does not hold hits nothing |
| RecurrentCnv.LabelsOf | modules/rCNV_annotation/resources/bin/annotate_rCNV.py:128-140 | one labelled row per match, in order |
| RecurrentCnv.WithLabelsOnePerMatch | modules/rCNV_annotation/resources/bin/annotate_rCNV.py:128-140 | with distinct catalog ids holding every matched id, each match gets exactly one labelled row |
| RecurrentCnv.WithLabelsSingle | modules/rCNV_annotation/resources/bin/annotate_rCNV.py:128-140 | one match with a unique catalog id gives one labelled row |
| RecurrentCnv.LabelsOfOnePerCnv | modules/rCNV_annotation/resources/bin/annotate_rCNV.py:128-140 | one match per CNV gives one labelled row per CNV |
| RecurrentCnv.HitsOf | modules/rCNV_annotation/resources/bin/annotate_rCNV.py:147-148 | the labelled rows joining a CNV key; a null key joins nothing |
| RecurrentCnv.HitsOfDistinct | modules/rCNV_annotation/resources/bin/annotate_rCNV.py:147-148 | with one labelled row per CNV a key hits at most once |
| RecurrentCnv.HitsOfNone | modules/rCNV_annotation/resources/bin/annotate_rCNV.py:147-148 | a key no labelled row carries has no hit |
| RecurrentCnv.FlagRow | modules/rCNV_annotation/resources/bin/annotate_rCNV.py:143-149 | a sample row gives one copy per hit carrying that hit's label, or one copy with a null label |
| RecurrentCnv.FlagRows | modules/rCNV_annotation/resources/bin/annotate_rCNV.py:143-149 | the flagged rows are at least as many as the sample rows |
| RecurrentCnv.Flag | modules/rCNV_annotation/resources/bin/annotate_rCNV.py:143-149 | the flagged table has the sample columns plus `rCNV_ID` and at least as many rows |
| RecurrentCnv.Unflagged | modules/rCNV_annotation/resources/bin/annotate_rCNV.py:145 | rows with their label cell removed |
| RecurrentCnv.FlagRowCopies | modules/rCNV_annotation/resources/bin/annotate_rCNV.py:143-149 | every copy is the sample row with only its label cell set |
| RecurrentCnv.FlagKeepsRows | modules/rCNV_annotation/resources/bin/annotate_rCNV.py:143-149 | every sample row appears, differing only in the label, and every flagged row is such a copy |
| RecurrentCnv.UnflaggedAppend | modules/rCNV_annotation/resources/bin/annotate_rCNV.py:143-149 | removing labels commutes with concatenation |
| RecurrentCnv.FlagAddsLabel | modules/rCNV_annotation/resources/bin/annotate_rCNV.py:145 | every flagged row has a label cell |
| RecurrentCnv.FlagValue | modules/rCNV_annotation/resources/bin/annotate_rCNV.py:145-148 | a non-null label is the label of one of the row's hits; when every hit's label is null, or there is none, it is null |
| RecurrentCnv.Relabelled | modules/rCNV_annotation/resources/bin/annotate_rCNV.py:143-149 | each sample row with its label set, one per row |
| RecurrentCnv.FlagOnePerRow | modules/rCNV_annotation/resources/bin/annotate_rCNV.py:143-149 | with one labelled row per CNV, the left join keeps rows and order and sets each label |
| RecurrentCnv.FlagRowSingle | modules/rCNV_annotation/resources/bin/annotate_rCNV.py:143-149 | a row with at most one hit gives exactly one copy |
| RecurrentCnv.FlagEachSingle | modules/rCNV_annotation/resources/bin/annotate_rCNV.py:143-149 | rows with at most one hit each are relabelled one for one |
| RecurrentCnv.FlagValueNull | modules/rCNV_annotation/resources/bin/annotate_rCNV.py:145-148 | with one labelled row per CNV, a row's label is null exactly when every hit's label is null |
| RecurrentCnv.Suffixed | modules/rCNV_annotation/resources/bin/annotate_rCNV.py:162-165 | `rCNV_ID` with a suffix, null for a null id |
| RecurrentCnv.Expanded | modules/rCNV_annotation/resources/bin/annotate_rCNV.py:160-167 | every catalog id with `_dup`, then every one with `_del` |
| RecurrentCnv.LabelLeOrder | modules/rCNV_annotation/resources/bin/annotate_rCNV.py:179 | the label order, nulls last, is total and transitive |
| RecurrentCnv.Samples | modules/rCNV_annotation/resources/bin/annotate_rCNV.py:174-177 | the sample ids counted for a label are never null, and a null label counts none |
| RecurrentCnv.FreqLabels | modules/rCNV_annotation/resources/bin/annotate_rCNV.py:170-180 | the labels of the count rows, position by position |
| RecurrentCnv.Universe | modules/rCNV_annotation/resources/bin/annotate_rCNV.py:178-179 | exactly the expanded labels, each once, sorted with nulls last |
| RecurrentCnv.Frequencies | modules/rCNV_annotation/resources/bin/annotate_rCNV.py:170-180 | one row per distinct expanded label, in order, counting its distinct samples |
| RecurrentCnv.FrequenciesSize | modules/rCNV_annotation/resources/bin/annotate_rCNV.py:160-180 | with distinct non-null catalog ids the table has exactly two rows per entry |
| RecurrentCnv.UniverseSize | modules/rCNV_annotation/resources/bin/annotate_rCNV.py:160-179 | with distinct non-null ids there are two distinct labels per entry |
| RecurrentCnv.ExpandedDistinct | modules/rCNV_annotation/resources/bin/annotate_rCNV.py:160-167 | distinct ids give distinct expanded labels |
| RecurrentCnv.LabelInUniverse | modules/rCNV_annotation/resources/bin/annotate_rCNV.py:133 | a best match of a duplication or a deletion carries a label of the expanded universe |
| RecurrentCnv.BestOf | modules/rCNV_annotation/resources/bin/annotate_rCNV.py:40-125 | the surviving full matches name each CNV at most once |
| RecurrentCnv.BestOfInCatalog | modules/rCNV_annotation/resources/bin/annotate_rCNV.py:40-125 | every surviving match names an id the catalog holds |
| RecurrentCnv.CandidateInCatalog | modules/rCNV_annotation/resources/bin/annotate_rCNV.py:95-121 | every full candidate names an id the catalog holds |
| RecurrentCnv.CatalogOf | modules/rCNV_annotation/resources/bin/annotate_rCNV.py:37 | the catalog rows as the queries read them, one per input row |
| RecurrentCnv.Flagged | modules/rCNV_annotation/resources/bin/annotate_rCNV.py:40-149 | the flagged sample table has the sample columns plus `rCNV_ID` and at least as many rows |
| RecurrentCnv.Annotate | modules/rCNV_annotation/resources/bin/annotate_rCNV.py:32-180 | succeeds iff the inputs have the columns the queries name; the flagged table has the sample columns plus `rCNV_ID`; the counts list each expanded label once in order with its number of distinct flagged samples |
| RecurrentCnv.AnnotateFlags | modules/rCNV_annotation/resources/bin/annotate_rCNV.py:40-149 | with distinct catalog ids every sample row appears once, in order, differing only in a label that is null iff every best match of its CNV has a null type (so always when it has none) |
| RecurrentCnv.FlagBest | modules/rCNV_annotation/resources/bin/annotate_rCNV.py:128-149 | flagging with the labels of one catalog-held match per CNV keeps every sample row once, in order, with a null label iff its matches all have null types |
| RecurrentCnv.RelabelledRow | modules/rCNV_annotation/resources/bin/annotate_rCNV.py:143-149 | one sample row relabelled from the best matches differs only in a label that is null iff its matches all have null types |
| RecurrentCnv.LabelsOfNull | modules/rCNV_annotation/resources/bin/annotate_rCNV.py:133 | a CNV's labels are all null exactly when its matches' types are all null |
| RecurrentSession.Load | modules/rCNV_annotation/resources/bin/annotate_rCNV.py:11-37 | a new connection holds exactly the three input tables |
| RecurrentSession.Execute | modules/rCNV_annotation/resources/bin/annotate_rCNV.py:40-180 | the statements run iff the session is fresh and the inputs have the columns they name; a failure leaves the catalog unchanged, success creates every table |
| RecurrentSession.DoneAnnotates | modules/rCNV_annotation/resources/bin/annotate_rCNV.py:143-180 | the two tables written out are `Annotate`'s outputs |
| RecurrentSession.Session.Run | modules/rCNV_annotation/resources/bin/annotate_rCNV.py:32-189 | running `main` on the session's connection succeeds iff `Execute` does, keeps the inputs and leaves every table created |
| Frames.WithColumn | bin/cnv_db_builder.py:60-66 | `with_columns`: an existing column is replaced in place, a new one appended; only that column's cells change |
| Frames.AddName | bin/cnv_db_builder.py:60-66 | the new name list holds the column and every old name |
| Frames.EvalColumn | bin/cnv_db_builder.py:36-40 | a column expression succeeds iff it succeeds on every row, giving each row's value in order |
| Frames.Without | bin/cnv_db_builder.py:69-70 | the comprehension keeps exactly the names outside the set, distinct when the input is |
| Frames.Drop | modules/vep_annotate/resources/usr/bin/gene_db.py:129-131 | `drop` removes exactly the given columns and keeps every other cell |
| Frames.Select | bin/cnv_db_builder.py:72 | `select` succeeds iff every name exists and none repeats; it gives those columns in that order with their cells |
| Frames.Rename | modules/vep_annotate/resources/usr/bin/gene_db.py:51 | `rename` succeeds iff the old name exists and the new one is free; only that name changes |
| Frames.ConcatStr | bin/cnv_db_builder.py:61-65 | `concat_str` is null iff some cell has no text, otherwise the texts joined with the separator |
| Frames.ConcatFour | bin/cnv_db_builder.py:61-65 | four cells concatenate to `a_b_c_d`, or null when one has no text |
| Frames.AllTextFour | bin/cnv_db_builder.py:61-65 | four cells all have text iff each does |
| Frames.JoinFour | bin/cnv_db_builder.py:61-65 | joining four texts puts the separator between each pair |
| Frames.ColMap | bin/cnv_db_builder_lite.py:14 | the keys are the lower-cased headers, each mapped to a header that lower-cases to it |
| Frames.ColMapLastWins | bin/cnv_db_builder_lite.py:14 | the dictionary keeps the last header with a given lower-case form |
| Frames.IdsFirst | bin/cnv_db_builder.py:69-70 | `CNV_ID`, `SampleID`, then the other names in order |
| Frames.IdsFirstHas | bin/cnv_db_builder.py:69-70 | every column name appears in the IDs-first order |
| Frames.IdsFirstCells | bin/cnv_db_builder.py:69-72 | selecting the IDs-first order keeps every cell of every column |
| Frames.IdsFirstPermutation | bin/cnv_db_builder.py:69-72 | with both IDs present the order is a duplicate-free permutation of the names |
| Frames.SameSetPermutation | bin/cnv_db_builder.py:69-72 | two duplicate-free lists with the same elements are permutations |
| Frames.NoDupMultiplicity | bin/cnv_db_builder.py:69-72 | an element of a duplicate-free list occurs once |
| Text.Split | bin/cnv_db_builder.py:38 | `str.split` gives at least one piece and no piece holds the separator |
| Text.JoinSplit | bin/cnv_db_builder.py:38 | joining the pieces of a split gives the text back |
| Text.SplitJoin | bin/cnv_db_builder.py:38 | splitting a join of separator-free pieces gives the pieces back |
| Text.JoinInjective | bin/cnv_db_builder.py:38 | two lists of separator-free pieces with the same join are equal |
| Text.SplitPrefix | bin/cnv_db_builder.py:38 | a separator-free prefix extends the first piece |
| Text.SplitNoSep | bin/cnv_db_builder.py:38 | a separator-free text splits into itself |
| Text.SplitAt | bin/cnv_db_builder.py:38 | a text with one leading separator-free piece splits at that separator |
| Text.JoinCons | bin/cnv_db_builder.py:38 | joining a list with a head puts the separator after the head |
| Text.Upper | modules/vep_annotate/resources/usr/bin/gene_db.py:253 | upper-casing (ASCII) keeps the length, character by character |
| Text.Lower | bin/cnv_db_builder_lite.py:14 | lower-casing (ASCII) keeps the length, character by character |
| Text.Spaces | modules/rCNV_annotation/resources/bin/annotate_rCNV.py:55 | a run of n spaces |
| Text.Trim | modules/rCNV_annotation/resources/bin/annotate_rCNV.py:55 | a trimmed text neither starts nor ends with a space (U+0020), and the input is that text between a run of leading and a run of trailing spaces |
| Text.TrimLeftShape | modules/rCNV_annotation/resources/bin/annotate_rCNV.py:55 | trimming the left is a suffix with no leading space, and every removed character is a space |
| Text.TrimRightShape | modules/rCNV_annotation/resources/bin/annotate_rCNV.py:55 | trimming the right is a prefix with no trailing space, and every removed character is a space |
| Text.TrimEnds | modules/rCNV_annotation/resources/bin/annotate_rCNV.py:55 | both ends of the trimmed text are free of spaces, and only spaces were removed around it |
| Text.ReplaceSeparators | modules/vep_annotate/resources/usr/bin/gene_db.py:262-265 | `replace_all("[:\|-]", "_")` changes exactly the three separators to '_', keeping the length |
| Text.NatToDec | bin/merge_cnv_with_region.py:40-41 | the decimal text of a natural is a non-empty numeral |
| Text.IntToDec | bin/merge_cnv_with_region.py:40-41 | the decimal text of an integer is non-empty and free of '_', ':' and '\|' |
| Text.DecValueOfNatToDec | bin/merge_cnv_with_region.py:40-41 | a numeral's value is the natural it was written from |
| Text.ParseNatToDec | modules/vep_annotate/resources/usr/bin/gene_db.py:84-102 | the strict cast reads a natural's decimal text back |
| Text.ParseIntToDec | bin/cnv_db_builder.py:39 | the strict cast reads an integer's decimal text back |
| Text.IntToDecInjective | bin/cnv_db_builder.py:60-66 | distinct integers have distinct decimal texts |
| Text.StrLeTotal | modules/vep_annotate/resources/usr/bin/prepare_cnvs_vep.py:46 | lexicographic order is total |
| Text.StrLeTransitive | modules/vep_annotate/resources/usr/bin/prepare_cnvs_vep.py:46 | lexicographic order is transitive |
| Text.StrLeReflexive | modules/vep_annotate/resources/usr/bin/prepare_cnvs_vep.py:46 | lexicographic order is reflexive |
| Seqs.Filter | modules/vep_annotate/resources/usr/bin/gene_db.py:232-236 | the `^gnomad_` column selection keeps exactly the names that satisfy the test, and no more of them than there are names |
| Seqs.Dedup | modules/vep_annotate/resources/usr/bin/prepare_cnvs_vep.py:45 | `unique` keeps exactly the elements present, each once |
| Seqs.DedupFrom | modules/vep_annotate/resources/usr/bin/prepare_cnvs_vep.py:45 | de-duplication after a seen set keeps exactly the unseen elements, each once |
| Seqs.NoDupCard | modules/rCNV_annotation/resources/bin/annotate_rCNV.py:178-179 | a duplicate-free list has as many elements as its set |
| Seqs.NoDupAppend | bin/cnv_db_builder.py:60-66 | appending a new element keeps a list duplicate-free |
| Seqs.InsertBy | modules/vep_annotate/resources/usr/bin/prepare_cnvs_vep.py:46 | inserting adds exactly the element |
| Seqs.SortBy | modules/vep_annotate/resources/usr/bin/prepare_cnvs_vep.py:46 | the sort is a permutation of its input |
| Seqs.InsertBySorted | modules/vep_annotate/resources/usr/bin/prepare_cnvs_vep.py:46 | insertion into a sorted list under a total, transitive order keeps it sorted |
| Seqs.SortBySorted | modules/vep_annotate/resources/usr/bin/prepare_cnvs_vep.py:46 | under a total, transitive order the sort's output is sorted |
| Seqs.PermutationNoDup | modules/vep_annotate/resources/usr/bin/prepare_cnvs_vep.py:45-46 | a permutation of a duplicate-free list is duplicate-free |
| Seqs.NoDupAtMostOne | modules/vep_annotate/resources/usr/bin/prepare_cnvs_vep.py:45-46 | an element of a duplicate-free list occurs at most once |

## Left out

- File input and output: `scan_parquet`, `scan_csv`, `read_csv`, `read_csv_auto`, `read_parquet`, `sink_parquet`, `sink_csv`, `write_parquet` and `COPY ... TO`. Each script starts from a frame and ends with the frame it would write. Compression, the TSV header flag and the file-extension test in `create_table_from_file` are not modelled.
- The header line read in cnv_db_builder_lite.py and merge_cnv_with_region.py (`readline().strip().split("\t")`) is taken to be the frame's column list; CSV quoting, empty fields and Polars' renaming of duplicate headers are not modelled.
- modules/loeuf_report/resources/bin/loeuf_cnv_duckdb.py is not part of this model.
- Float parsing and arithmetic: the cast of `OverlapPC` and of the gnomAD frequencies are function parameters (`castPC`, `parseAF`), so Float32 rounding and the exact float text Polars accepts are not modelled. Exon fractions are kept as exact fractions; a zero total is a fraction with denominator 0, where Polars gives inf or NaN.
- A float cell has no text in `Frames.CellText`; `concat_str` of a float coordinate, which Polars formats as text, is modelled as null.
- Integer text: a strict cast accepts an optional '-' and decimal digits only; surrounding spaces, '+' and leading zeros beyond what the decimal text produces are not explored. Int64 bounds on scanned cells are stated by `CnvDbBuilder.WellTyped` but not enforced on frames given to the other scripts.
- Schema inference with `infer_schema_length` and the `SampleID` Utf8 override: they decide how text is parsed into cells, which happens before the model starts; the model takes typed cells as input.
- A join key dtype mismatch, which Polars rejects as a schema error, is not modelled: cells of different kinds simply do not match.
- MergeCnvRegion.Expand: the order of the matches of one left row follows the region table; Polars does not promise that order, so the model fixes one.
- PrepareVep.PrepareVep: `unique(keep="any")` and the sort do not promise which duplicate is kept or a stable order; the model fixes one order, and the proved properties (same rows, each once, sorted) hold for any such choice. Fractions and list cells compare as ties, and cells of different kinds are ordered by kind.
- The commented-out `CN_Type` block in prepare_cnvs_vep.py (lines 26-41) is a string literal the script never evaluates, so it is not modelled.
- RecurrentCnv.Best: `ROW_NUMBER() OVER (PARTITION BY CNV_ID ORDER BY matched_genes DESC)` leaves ties unordered; the model breaks them by the smallest `rCNV_ID`, one of the orders DuckDB may produce.
- RecurrentCnv.HasColumns, RecurrentCnv.CatalogOf: DuckDB resolves column names case-insensitively, while the model tests exact names; and the concatenations that build labels would turn a non-text `rCNV_ID` into text, while the model reads such an id as null.
- DuckDB type coercion in comparisons (`Exon_Overlap > 0`, `CANONICAL = 'true'`) is modelled on the cell kinds the annotation table holds; implicit casts of other kinds are not modelled.
- Text.Upper, Text.Lower: case mapping is ASCII-only, characters outside a-z and A-Z are kept. Polars `str.to_uppercase`, DuckDB `LOWER` and Python `str.lower` apply Unicode case mappings, some of which change the length ('ß' upper-cases to "SS"); those cases are not modelled, and neither is their effect on `GeneDb.AlleleType`, `RecurrentCnv.Label` and `Frames.ColMap`.
- GeneDb.ExonOverlap, GeneDb.OverlapFallback, GeneDb.TranscriptFraction, GeneDb.GnomadValue, GeneDb.AlleleCell, GeneDb.ConsequenceCell: inputs of the wrong type are read as null, where Polars raises when a `.str` expression meets a non-String column. `CnvDbBuilder.CopyNumbers` does model that error, because its input type is fixed by the scan schema; the gene_db steps take the annotation table's column types as given. In the same way GeneDb.NullIfPlaceholder and GeneDb.MakeNull keep a non-String cell, where the comparison with `'-'` raises, and GeneDb.CanonicalFlag reads a non-String `CANONICAL` as no text and gives false, where `.str.contains("YES")` raises.
- RecurrentCnv.Flag: `CREATE TABLE cnvDB_flagged AS SELECT ... LEFT JOIN` has no `ORDER BY`, so DuckDB promises no row order; the model keeps cnvDB's order, with a row's copies together, which is one order DuckDB may produce. The "in order" of `RecurrentCnv.FlagOnePerRow`, `RecurrentCnv.AnnotateFlags` and `RecurrentCnv.FlagBest` is about that order.
- RecurrentCnv.Flag: when cnvDB already has an `rCNV_ID` column, the model replaces that column's cells with the label, where `SELECT g.*, ... AS rCNV_ID` would emit a second column of that name. cnv_db_builder.py and cnv_db_builder_lite.py never write an `rCNV_ID` column, so the duplicate-column case is not modelled.
- DuckDB's `string_split` of an empty text is modelled as one empty piece.
- Text.Trim: removes U+0020 only; DuckDB's `TRIM` also strips the other Unicode space separators (category Zs, such as U+00A0 and U+3000), which the model keeps.
- Laziness, streaming and parallel execution of the Polars plans and of DuckDB are not modelled; each plan is evaluated as a whole.
- The command-line parsing (`sys.argv`, `argparse`) and the final `print` are left out; the genome build is a parameter of type `Build`.
