# Proteogenomics reference and database scripts, modelled in Dafny

This project models the deterministic text and table processing at the heart
of the mouse-aging long-read proteogenomics pipeline. It covers five scripts.

- **ORF refinement** (`RefineOrf`, `refine_orf.dfy`), `06_refine_orf_database.py`.
  - Reads the PacBio transcript FASTA into an accession-to-sequence map. The first record of an accession wins, and later ones are listed as redundant.
  - Admits the ORF rows with `coding_score >= cutoff` and a stop codon.
  - Translates each ORF and groups the accessions whose ORFs give the same protein.
  - Orders every group numerically by `(int(gene_part[7:]), int(isoform))`, skipping accessions that do not parse, and joins the group with `|`.
  - Sums FL and CPM over each group.
  - Writes the refined FASTA, whose header is `>pb|<base>|fullname GN=<gene>` or `>pb|<base>`.
- **Reference tables** (`ReferenceTables`, `reference_tables.dfy`), `01_prepare_reference_tables.py`.
  - Reads the GENCODE GTF `transcript` lines into four maps: ENSG to gene, ENST to transcript name, gene to ENSPs, and gene to transcript names.
  - Reads fields 4, 5 and 6 of the FASTA headers into the isoform length table.
  - Computes the minimum and maximum isoform length of each gene.
- **PoGo identifiers** (`PogoIds`, `pogo.dfy`), `map_peptides_to_pacbio_database.py`.
  - Takes the union of the PacBio accessions of the FASTA and the GTF.
  - Gives each accession a synthetic `ENST9…`, numbered in sorted order.
  - Gives each accession an ENSG: the GENCODE one for its gene name, or a synthetic `ENSG9…`.
  - Rewrites the GTF attribute column and puts a `gene` row before each ENSG's rows.
- **ENSG-to-gene-name extraction** (`EnsgGeneMap`, `ensg_gene_map.dfy`), `extract_ensg_to_gene_map_gencode_gtf.py`.
  - Scans the `gene` rows of a GTF into a last-wins dictionary.
  - The loop variables `ensg` and `gene_name` persist from one row to the next.
  - Writes the dictionary as one `ENSG \t name` line per ENSG.
- **Toy GTF** (`GtfToy`, `gtf_toy.dfy`), `01_create_gtf_toy.py`. It copies the comments and the transcript rows of the first `num_genes` protein-coding genes. It stops at the first transcript of one gene too many.

Three shared modules support them:

- `Text` (`text.dfy`) gives Python's string operations: `split`, `join`, `strip`, `str.split()`, `lower`, `int()` and `str()` of integers, slicing, and the order `sorted` uses on strings.
- `Collections` (`collections.dfy`) gives dictionaries built by assignment (last write wins, keys in first-insertion order), sorted sets, loops that stop at the first exception, and loops that write until an exception.
- `Wrappers` (`wrappers.dfy`) gives `Option`, `Result` and the Python exceptions that are modelled.

Every loop of the scripts is a `method` with loop invariants. Each method is proved equal to a function that folds over the input. The properties are lemmas about those functions. An exception is an `Err` of `Result` or a `Raised` stop state, carrying the exception class Python would raise.

Model, by core file:

- `06_refine_orf_database.py` is mixed, and so is the model. `get_accession_seqs`, `combine_by_sequence`, `order_enst_acc_numerically`, `get_total`, the combined-table loop and the refined-FASTA loop are methods. The filters, `string_to_boolean` and the merged-name logic are functions.
- `01_prepare_reference_tables.py` is mixed. `GenMap` and `IsoLenTab` are methods over their reading loops. Attribute extraction and `GeneLenTab` are functions.
- `map_peptides_to_pacbio_database.py` is mixed. Its reading loops, numbering loops and the loop writing the temporary GTF (`PogoIds.RewriteGtf`) are methods. `insert_gene_row` and the rewrite of one GTF line are functions.
- `extract_ensg_to_gene_map_gencode_gtf.py` and `01_create_gtf_toy.py` are imperative. Their loops are methods with the loop state as variables.

## Model

Paths are relative to the repository root.

| member | source | states |
|---|---|---|
| Text.SplitFirst | LRP/00_scripts/06_refine_orf_database.py:18 | `s.split(sep)[0]` is the prefix of `s` up to the first occurrence of `sep` (all of `s` when there is none), and it holds no `sep` |
| Text.SplitPiecesFree | LRP/00_scripts/06_refine_orf_database.py:18 | no piece of `s.split(sep)` contains `sep` |
| Text.JoinSplit | LRP/00_scripts/06_refine_orf_database.py:73 | `sep.join(s.split(sep)) == s` for every string |
| Text.SplitJoin | LRP/00_scripts/06_refine_orf_database.py:130 | splitting a `c`-joined list of pieces free of `c` gives back exactly those pieces |
| Text.TrimLeft | GTF_FASTA_2PoGo/extract_ensg_to_gene_map_gencode_gtf.py:25 | the result is a suffix of the input that starts with a non-stripped character, and everything cut off is strippable |
| Text.TrimRight | GTF_FASTA_2PoGo/extract_ensg_to_gene_map_gencode_gtf.py:25 | the result is a prefix of the input that ends with a non-stripped character, and everything cut off is strippable |
| Text.StripIdempotent | GTF_FASTA_2PoGo/extract_ensg_to_gene_map_gencode_gtf.py:32 | stripping twice equals stripping once, and the result is a contiguous slice of the input |
| Text.Words | 00_2024-05-29_Tian_Aging_Mouse_SpliceProt/scripts/01_create_gtf_toy.py:19 | `str.split()` yields non-empty words that contain no white space |
| Text.WordsSkipSpace | 00_2024-05-29_Tian_Aging_Mouse_SpliceProt/scripts/01_create_gtf_toy.py:19 | `str.split()` ignores leading white space |
| Text.WordsWord | 00_2024-05-29_Tian_Aging_Mouse_SpliceProt/scripts/01_create_gtf_toy.py:19 | a run of non-space characters ended by white space or the end of the text is one word |
| Text.WordsJoin | 00_2024-05-29_Tian_Aging_Mouse_SpliceProt/scripts/01_create_gtf_toy.py:19 | `str.split()` recovers any list of non-empty, space-free words from their space-joined text |
| Text.ParseIntToString | LRP/00_scripts/06_refine_orf_database.py:49-50 | `int(str(i)) == i` for every integer, negative ones included |
| Text.IntToStringInjective | 02_GTF_FASTA_2PoGo/map_peptides_to_pacbio_database.py:60 | different integers have different decimal strings |
| Text.NatToStringOrder | 02_GTF_FASTA_2PoGo/map_peptides_to_pacbio_database.py:58-60 | for two naturals with equally long decimal strings, the string order is the numeric order |
| Text.Slice | LRP/00_scripts/06_refine_orf_database.py:49 | Python slicing `s[i:j]`: equals `s[i..j]` when the bounds are in range, and is never longer than `s` |
| Text.LexLessTotal | 02_GTF_FASTA_2PoGo/map_peptides_to_pacbio_database.py:58 | the string order `sorted` uses is total on distinct strings |
| Text.LexLessTransitive | 02_GTF_FASTA_2PoGo/map_peptides_to_pacbio_database.py:58 | the string order `sorted` uses is transitive |
| Collections.LastWinsKeys | LRP/00_scripts/01_prepare_reference_tables.py:59-60 | a dictionary filled by assignment has exactly the assigned keys |
| Collections.LastWinsAt | LRP/00_scripts/01_prepare_reference_tables.py:59-60 | a key holds the value of its last assignment |
| Collections.LastWinsValue | LRP/00_scripts/01_prepare_reference_tables.py:59-60 | every stored value was assigned to its key at some point |
| Collections.FirstAppearance | LRP/00_scripts/06_refine_orf_database.py:128 | dictionary key order: each key listed once, exactly the keys that occur |
| Collections.SortedSet | 02_GTF_FASTA_2PoGo/map_peptides_to_pacbio_database.py:58 | `sorted(set(xs))` is strictly increasing and holds exactly the elements of `xs` |
| Collections.SortedKeys | 02_GTF_FASTA_2PoGo/map_peptides_to_pacbio_database.py:54-58 | the sorted listing of a set is strictly increasing and holds exactly the set's elements |
| Collections.StrictlySortedNoRepeats | 02_GTF_FASTA_2PoGo/map_peptides_to_pacbio_database.py:58 | a strictly sorted list has no repeated element |
| Collections.CollectAllOk | 02_GTF_FASTA_2PoGo/map_peptides_to_pacbio_database.py:31-34 | a reading loop that finishes has parsed every line, in order |
| Collections.CollectAllErr | 02_GTF_FASTA_2PoGo/map_peptides_to_pacbio_database.py:31-34 | a reading loop raises exactly when some line fails to parse, and it raises that line's exception after all earlier lines parsed |
| Collections.DictFromEntries | 02_GTF_FASTA_2PoGo/map_peptides_to_pacbio_database.py:31-34 | the entry of the last line with a given key is the one kept |
| Collections.DictFromKeys | 02_GTF_FASTA_2PoGo/map_peptides_to_pacbio_database.py:31-34 | the dictionary's keys are exactly the keys parsed from the lines, and each value comes from a line with that key |
| Collections.FillDict | 02_GTF_FASTA_2PoGo/map_peptides_to_pacbio_database.py:30-34 | the dictionary-filling loop computes the last-wins dictionary, or the first exception |
| Collections.WriteUntilErrorComplete | LRP/00_scripts/06_refine_orf_database.py:152-161 | a writing loop raises nothing exactly when every item can be written, and then it writes one output per item, in order |
| Collections.WriteUntilErrorStops | LRP/00_scripts/06_refine_orf_database.py:152-161 | a writing loop that raises has written exactly the items before the first failing one |
| ReferenceTables.AttrValueFound | LRP/00_scripts/01_prepare_reference_tables.py:55-58 | `line.split('K "')[1]` raises IndexError exactly when the line lacks `K "` |
| ReferenceTables.AttrValueOf | LRP/00_scripts/01_prepare_reference_tables.py:55-58 | for a line whose text after the first `K "` is `<x>"…` with no quote or space in `<x>`, the attribute value is exactly `<x>` |
| ReferenceTables.AttrValueText | LRP/00_scripts/01_prepare_reference_tables.py:55-58 | the attribute value is the text right after the first `K "`, up to the next `"` (or the end, or the next `K "`), and holds no `"` |
| ReferenceTables.AddTo | LRP/00_scripts/01_prepare_reference_tables.py:61-64 | `d[k].add(v)` on a defaultdict of sets: `k` gains `v`, and the other keys are unchanged |
| ReferenceTables.GenMap | LRP/00_scripts/01_prepare_reference_tables.py:47-66 | the line loop computes the four maps, or the uncaught IndexError |
| ReferenceTables.GenMapErrorStays | LRP/00_scripts/01_prepare_reference_tables.py:48-52 | after an uncaught IndexError, later lines change nothing |
| ReferenceTables.GenMapLineComplete | LRP/00_scripts/01_prepare_reference_tables.py:53-64 | a complete transcript line sets `genes[ensg]` and `isos[enst]` and adds to `isonames[gene]`; it adds to `ensps[gene]` exactly when it is protein-coding and has a protein_id |
| ReferenceTables.GenMapLineNoProteinId | LRP/00_scripts/01_prepare_reference_tables.py:59-66 | a protein-coding line without protein_id still records the gene but leaves `ensps` unchanged |
| ReferenceTables.GenMapLineIncomplete | LRP/00_scripts/01_prepare_reference_tables.py:54-58 | a transcript line missing any of the four attributes leaves every map unchanged |
| ReferenceTables.GenMapIgnoresOtherLines | LRP/00_scripts/01_prepare_reference_tables.py:49-53 | comments and lines of other features do not affect the maps |
| ReferenceTables.GenMapFails | LRP/00_scripts/01_prepare_reference_tables.py:49-52 | the reading fails exactly when a non-comment line has fewer than three tab fields |
| ReferenceTables.GenMapConsistent | LRP/00_scripts/01_prepare_reference_tables.py:59-64 | every gene in `genes`, and every gene with ENSPs, has a transcript-name set |
| ReferenceTables.GenMapGeneLastWins | LRP/00_scripts/01_prepare_reference_tables.py:59 | `genes[ensg]` is the gene name of the last complete transcript line of that ENSG |
| ReferenceTables.IsoLenTab | LRP/00_scripts/01_prepare_reference_tables.py:100-108 | the header loop followed by the length conversion computes the isoform table, or the first error |
| ReferenceTables.ParseLengths | LRP/00_scripts/01_prepare_reference_tables.py:108 | the `int(x_len)` comprehension converts every length, or raises ValueError at the first bad one |
| ReferenceTables.RawIsoLensErrorStays | LRP/00_scripts/01_prepare_reference_tables.py:101-105 | after an IndexError on a short header, later lines change nothing |
| ReferenceTables.ConvertLengthsErrorStays | LRP/00_scripts/01_prepare_reference_tables.py:108 | after a ValueError, later lengths change nothing |
| ReferenceTables.ConvertLengthsRows | LRP/00_scripts/01_prepare_reference_tables.py:108 | a successful conversion keeps one row per header, with the same isoform and gene and the parsed length |
| ReferenceTables.ConvertLengthsFails | LRP/00_scripts/01_prepare_reference_tables.py:108 | the conversion fails exactly when some length is not an integer |
| ReferenceTables.HeaderFieldsOfGencode | LRP/00_scripts/01_prepare_reference_tables.py:103-105 | a bar-joined header yields its fields 4, 5 and 6 |
| ReferenceTables.IsoLenOfOneLine | LRP/00_scripts/01_prepare_reference_tables.py:102-108 | a single header line gives its converted fields |
| ReferenceTables.ConvertOne | LRP/00_scripts/01_prepare_reference_tables.py:108 | one raw row with an integer length converts to one row with that length |
| ReferenceTables.IsoLenOfHeader | LRP/00_scripts/01_prepare_reference_tables.py:101-108 | a GENCODE header whose field 6 is a decimal number gives the row (field 4, field 5, that number) |
| ReferenceTables.MinMaxLen | LRP/00_scripts/01_prepare_reference_tables.py:122 | min and max exist exactly for genes with rows; each is the length of one of the gene's rows and bounds all of them |
| ReferenceTables.MinNotAboveMax | LRP/00_scripts/01_prepare_reference_tables.py:122-127 | `min_len <= max_len` |
| ReferenceTables.GeneLenTab | LRP/00_scripts/01_prepare_reference_tables.py:122-127 | one row per distinct gene, genes in sorted order |
| ReferenceTables.GeneLenTabRows | LRP/00_scripts/01_prepare_reference_tables.py:122-127 | the genes are strictly increasing and are exactly the genes of the isoform table; each row holds the gene's least and greatest length, with min <= max |
| RefineOrf.AccessionHasNoBar | LRP/00_scripts/06_refine_orf_database.py:18 | an accession (the id before the first bar) contains no bar |
| RefineOrf.LaterDuplicatesCount | LRP/00_scripts/06_refine_orf_database.py:20-21 | number of redundant accessions = records - distinct accessions |
| RefineOrf.FirstSeqs | LRP/00_scripts/06_refine_orf_database.py:20-23 | the sequence map has exactly the records' accessions as keys |
| RefineOrf.FirstSeqsFirstWins | LRP/00_scripts/06_refine_orf_database.py:20-23 | the first record of an accession supplies its sequence; later duplicates never overwrite it |
| RefineOrf.GetAccessionSeqs | LRP/00_scripts/06_refine_orf_database.py:12-24 | the loop yields the first-wins sequence map (keys free of bars) and the later duplicates in order; redundant count = records - keys |
| RefineOrf.AdmitKeepsAdmissible | LRP/00_scripts/06_refine_orf_database.py:84-120 | score filter then stop-codon query = the rows passing both tests, in order, unaltered |
| RefineOrf.AdmissibleRowsMembers | LRP/00_scripts/06_refine_orf_database.py:86-120 | a row is admitted exactly when it is in the table, has `coding_score >= cutoff` and has a stop codon |
| RefineOrf.OrfNucleotides | LRP/00_scripts/06_refine_orf_database.py:35 | `seq[start-1:end]` is the 1-based inclusive ORF span when the coordinates are in range |
| RefineOrf.CollapsedMembers | LRP/00_scripts/06_refine_orf_database.py:32-37 | an accession is in the list of protein `p` exactly when one of its rows translates to `p` |
| RefineOrf.GroupRowsOrder | LRP/00_scripts/06_refine_orf_database.py:31-37 | the proteins are listed once each, in the order they first appear |
| RefineOrf.GroupRowsMembers | LRP/00_scripts/06_refine_orf_database.py:32-37 | each protein's list is its rows' accessions, in row order |
| RefineOrf.GroupRowsSizes | LRP/00_scripts/06_refine_orf_database.py:32-37 | the list lengths sum to the number of rows |
| RefineOrf.CombineBySequence | LRP/00_scripts/06_refine_orf_database.py:27-38 | the grouping loop succeeds exactly when every row's accession has a sequence; otherwise it raises KeyError at the first row without one |
| RefineOrf.SortKeyOfVersioned | LRP/00_scripts/06_refine_orf_database.py:47-50 | `ENSMUST<gene>.<iso>` (seven-character prefix) has the key `(gene, iso)` |
| RefineOrf.SortKeyOfPacBio | LRP/00_scripts/06_refine_orf_database.py:47-54 | `PB.1.1` has no key: the unpacking raises ValueError and the accession is skipped |
| RefineOrf.InsertLast | LRP/00_scripts/06_refine_orf_database.py:57 | inserting after all equal keys keeps the list key-sorted and adds exactly one element |
| RefineOrf.StableSort | LRP/00_scripts/06_refine_orf_database.py:57 | the sort's result is key-sorted, with the same elements and length |
| RefineOrf.StableSortWithKey | LRP/00_scripts/06_refine_orf_database.py:57 | stability: the elements with any given key keep their input order |
| RefineOrf.StableSortAccs | LRP/00_scripts/06_refine_orf_database.py:57 | the sort is a permutation |
| RefineOrf.ParsedKeysKeyed | LRP/00_scripts/06_refine_orf_database.py:47-51 | every triple appended holds the key of its accession |
| RefineOrf.ParsedKeysAccs | LRP/00_scripts/06_refine_orf_database.py:44-54 | the appended accessions are the parseable ones, in input order |
| RefineOrf.ParseableSub | LRP/00_scripts/06_refine_orf_database.py:52-54 | the kept accessions are input accessions that have a key |
| RefineOrf.NumericOrderPermutes | LRP/00_scripts/06_refine_orf_database.py:44-60 | the output is a permutation of the parseable inputs |
| RefineOrf.NumericOrderSorted | LRP/00_scripts/06_refine_orf_database.py:57-60 | the output is ascending by `(gene_idx, iso_idx)` |
| RefineOrf.NumericOrderStable | LRP/00_scripts/06_refine_orf_database.py:57-60 | accessions with equal keys (`…001.1`, `…01.1`) keep their input order |
| RefineOrf.KeyFilterParseable | LRP/00_scripts/06_refine_orf_database.py:52-54 | dropping the unparseable accessions loses no accession of any key |
| RefineOrf.NumericOrderFromGroup | LRP/00_scripts/06_refine_orf_database.py:60 | the output holds only inputs, and is non-empty when some input parses |
| RefineOrf.OrderAccessionsNumerically | LRP/00_scripts/06_refine_orf_database.py:41-61 | the loop and the in-place sort compute the numeric order of the parseable accessions |
| RefineOrf.MergedNameRoundTrip | LRP/00_scripts/06_refine_orf_database.py:129-130 | splitting the merged name on bars recovers the ordered accessions, and `base_acc` is the first of them |
| RefineOrf.MergedNameEmpty | LRP/00_scripts/06_refine_orf_database.py:129-130 | the merged name is empty exactly when no accession of the group parses |
| RefineOrf.CombinedOf | LRP/00_scripts/06_refine_orf_database.py:128-131 | one combined entry per protein |
| RefineOrf.CombinedOfEmpty | LRP/00_scripts/06_refine_orf_database.py:128-131 | some combined entry has an empty name exactly when some group has no parseable accession |
| RefineOrf.WriteCombined | LRP/00_scripts/06_refine_orf_database.py:126-132 | the combined-table loop writes `(protein, merged name)` per protein in dictionary order |
| RefineOrf.TotalPermutation | LRP/00_scripts/06_refine_orf_database.py:67-71 | `get_total` does not depend on the order of the accessions |
| RefineOrf.TotalNonNegative | LRP/00_scripts/06_refine_orf_database.py:67-71 | the total of non-negative counts is non-negative |
| RefineOrf.GetTotal | LRP/00_scripts/06_refine_orf_database.py:67-71 | the accumulation loop sums `orf_dict.get(acc, 0)` over the accessions |
| RefineOrf.TablesLastRow | LRP/00_scripts/06_refine_orf_database.py:76-77 | with duplicated `pb_acc`, FL and CPM come from the last row |
| RefineOrf.TablesMissing | LRP/00_scripts/06_refine_orf_database.py:70-77 | an accession without an ORF row contributes 0 |
| RefineOrf.AggregateOfMerged | LRP/00_scripts/06_refine_orf_database.py:73-80 | the aggregated row of a merged name: accessions = numeric order, base = first of them, FL/CPM = sums over the parseable members |
| RefineOrf.AggregateResults | LRP/00_scripts/06_refine_orf_database.py:65-81 | `.str.split` raises AttributeError exactly when the merged-name column is read as numbers (every name empty or decimal-like); otherwise `x[0]` raises TypeError exactly when some name is empty; otherwise the result is one aggregated row per combined entry |
| RefineOrf.UnkeyedGroupsNumeric | LRP/00_scripts/06_refine_orf_database.py:73 | when no group has an accession with a numeric key, every merged name is empty and the column is numeric |
| RefineOrf.BarNameNotDecimal | LRP/00_scripts/06_refine_orf_database.py:73 | a merged name holding a `\|`-joined pair of accessions never reads as a number |
| RefineOrf.AggregateOfGroup | LRP/00_scripts/06_refine_orf_database.py:73-80 | for a group whose accessions have numeric keys, the aggregated row carries the merged name, the first ordered accession as base accession, and the FL and CPM totals over the parseable accessions |
| RefineOrf.MatchesMembers | LRP/00_scripts/06_refine_orf_database.py:146 | the inner merge pairs an aggregated row with exactly the ORF rows whose `pb_acc` is its `base_acc` |
| RefineOrf.MergeOnBaseMembers | LRP/00_scripts/06_refine_orf_database.py:146 | the merged table is exactly the pairs of aggregated and ORF rows that agree on the base accession |
| RefineOrf.RefinedRows | LRP/00_scripts/06_refine_orf_database.py:164-168 | the refined table has one row per merged row |
| RefineOrf.FastaIdPlain | LRP/00_scripts/06_refine_orf_database.py:155 | a header without white space is its own id |
| RefineOrf.RefinedHeaderFields | LRP/00_scripts/06_refine_orf_database.py:159 | the header with a gene reads back as `pb`, the base accession and `fullname GN=<gene>` |
| RefineOrf.RefinedHeaderFieldsNoGene | LRP/00_scripts/06_refine_orf_database.py:161 | the header without a gene reads back as `pb` and the base accession |
| RefineOrf.WriteRefinedFasta | LRP/00_scripts/06_refine_orf_database.py:152-161 | the refined-FASTA loop writes one entry per record until the first KeyError |
| RefineOrf.StringToBooleanCaseInsensitive | LRP/00_scripts/06_refine_orf_database.py:93-96 | `string_to_boolean` ignores case |
| RefineOrf.StringToBooleanOfStr | LRP/00_scripts/06_refine_orf_database.py:90-98 | `str(True)` and `str(False)` read back as the same boolean |
| RefineOrf.BaseMapFinds | LRP/00_scripts/06_refine_orf_database.py:151-156 | `base_map[pb_accs]` is found and is the group's base accession |
| RefineOrf.GeneMapHas | LRP/00_scripts/06_refine_orf_database.py:150-158 | every ORF accession is a key of `pb_gene` |
| RefineOrf.EmitEntryOk | LRP/00_scripts/06_refine_orf_database.py:153-161 | a group's record is written under its first ordered accession and that accession's gene |
| RefineOrf.FastaOfGroups | LRP/00_scripts/06_refine_orf_database.py:151-161 | with plain ids and no empty merged name, every record is written as its group's entry |
| RefineOrf.RefineOrfDatabase | LRP/00_scripts/06_refine_orf_database.py:118-168 | `main`: KeyError when an admitted row has no sequence; AttributeError exactly when the merged-name column is numeric; with plain FASTA identifiers, success exactly when the column is not numeric and every group has a parseable accession, and otherwise AttributeError or TypeError; on success the table is the column selection of the inner merge of the aggregated groups with the admitted rows, and the FASTA has one entry per protein, headed by the group's first ordered accession |
| RefineOrf.RefinedTableOfGroups | LRP/00_scripts/06_refine_orf_database.py:146-168 | a row is in the refined table exactly when it is the selection of one protein group's aggregated row and an admitted ORF row of that group's base accession |
| RefineOrf.FastaComplete | LRP/00_scripts/06_refine_orf_database.py:151-161 | every combined entry finds its base accession, so the FASTA has one entry per protein group, in order, each built from its group |
| PogoIds.GeneEnsgEntryOfWritten | 02_GTF_FASTA_2PoGo/map_peptides_to_pacbio_database.py:31-34 | a line `ensg \t name \n` reads as the name against the ENSG cut at its first `.` |
| PogoIds.GeneToEnsgUnversioned | 02_GTF_FASTA_2PoGo/map_peptides_to_pacbio_database.py:32 | the ENSGs of `gene_to_ensg` hold no `.` |
| PogoIds.RefinedGeneName | 02_GTF_FASTA_2PoGo/map_peptides_to_pacbio_database.py:41-42 | the gene read from a refined header is the one written into it |
| PogoIds.FastaAccGeneOfRefined | 02_GTF_FASTA_2PoGo/map_peptides_to_pacbio_database.py:41-43 | a refined header with a gene reads back as (base accession, gene) |
| PogoIds.FastaAccGeneOfRefinedNoGene | 02_GTF_FASTA_2PoGo/map_peptides_to_pacbio_database.py:42 | a refined header without a gene makes `split('GN=')[1]` raise |
| PogoIds.GtfAccInfoReads | 02_GTF_FASTA_2PoGo/map_peptides_to_pacbio_database.py:48-51 | a GTF line is read only if it has gene_id and transcript_id, and its accession holds no bar |
| PogoIds.GtfAccInfoFails | 02_GTF_FASTA_2PoGo/map_peptides_to_pacbio_database.py:48-51 | reading a GTF line fails exactly when it lacks `gene_id "`, lacks `transcript_id "`, or the text after the first `transcript_id "` (up to any second one) holds no `\|` |
| PogoIds.GtfAccInfoOfLine | 02_GTF_FASTA_2PoGo/map_peptides_to_pacbio_database.py:48-51 | for a line built as `gene_id "<g>"` … `transcript_id "<d>\|<acc>\|<rest>"`, the reading is the accession `<acc>`, the gene `<g>` and the descriptor `<d>\|<acc>\|<rest>` |
| PogoIds.EnstNameInjective | 02_GTF_FASTA_2PoGo/map_peptides_to_pacbio_database.py:60 | different ranks give different ENSTs |
| PogoIds.EnstNameOrder | 02_GTF_FASTA_2PoGo/map_peptides_to_pacbio_database.py:58-60 | below ten billion, a lower rank gives a lexicographically smaller ENST |
| PogoIds.AssignEnsts | 02_GTF_FASTA_2PoGo/map_peptides_to_pacbio_database.py:57-61 | the numbering loop gives the accession of rank `i` the name `ENST` + `str(90000000000 + i)`, and gives no other key a name |
| PogoIds.EnstAssignmentInjectiveMonotone | 02_GTF_FASTA_2PoGo/map_peptides_to_pacbio_database.py:57-61 | the ENST map is injective and, below ten billion accessions, monotone in the accession order |
| PogoIds.GeneNameOfUnion | 02_GTF_FASTA_2PoGo/map_peptides_to_pacbio_database.py:66-72 | every accession of the union has a gene name, the GTF's first; the "not found" exception cannot happen |
| PogoIds.SyntheticEnsgOfPacBio | 02_GTF_FASTA_2PoGo/map_peptides_to_pacbio_database.py:79-80 | `PB.<n>.<k>` gets `ENSG` + `str(90000000000 + n)` |
| PogoIds.EnsgDictKeys | 02_GTF_FASTA_2PoGo/map_peptides_to_pacbio_database.py:64-82 | `pb_to_ensg` has exactly the accessions as keys |
| PogoIds.EnsgDictEntries | 02_GTF_FASTA_2PoGo/map_peptides_to_pacbio_database.py:64-82 | each accession's ENSG is the known one for its gene name, or else the synthetic one |
| PogoIds.EnsgDictFails | 02_GTF_FASTA_2PoGo/map_peptides_to_pacbio_database.py:64-82 | the ENSG loop raises exactly when some accession's ENSG cannot be made |
| PogoIds.ReadInputMaps | 02_GTF_FASTA_2PoGo/map_peptides_to_pacbio_database.py:30-51 | the three reading loops compute the three last-wins maps, or the first exception |
| PogoIds.ReadInputsGtfAccessions | 02_GTF_FASTA_2PoGo/map_peptides_to_pacbio_database.py:49 | the GTF accessions hold no bar |
| PogoIds.AssignIds | 02_GTF_FASTA_2PoGo/map_peptides_to_pacbio_database.py:54-82 | the accessions are the sorted union of the FASTA and GTF keys; each has its ENST by rank and its ENSG by gene name, else synthetic; the method raises exactly when some ENSG cannot be made |
| PogoIds.RewriteGtfLineOk | 02_GTF_FASTA_2PoGo/map_peptides_to_pacbio_database.py:110-115 | a line that was read is rewritten when its accession has an ENST and an ENSG |
| PogoIds.RewriteGtfLineColumns | 02_GTF_FASTA_2PoGo/map_peptides_to_pacbio_database.py:109-115 | the accession is the second `\|`-field after `transcript_id "` (the one the GTF reading records) and has both IDs; the rewritten line keeps the first 8 tab fields and replaces the rest with `gene_id "<ensg>"; transcript_id "<enst>";`, where `<ensg>` is the accession's ENSG up to its first `.` and `<enst>` its ENST |
| PogoIds.RewriteGtf | 02_GTF_FASTA_2PoGo/map_peptides_to_pacbio_database.py:108-115 | the loop writes one rewritten line per input line, in order, and stops at the first line that raises; the exception is IndexError or KeyError |
| PogoIds.RewriteGtfComplete | 02_GTF_FASTA_2PoGo/map_peptides_to_pacbio_database.py:110-115 | when the reading loop accepted every line and each accession has both IDs, the rewrite raises nothing and writes every line's rewrite |
| PogoIds.GtfAttributesGeneId | 02_GTF_FASTA_2PoGo/map_peptides_to_pacbio_database.py:115-121 | reading the temporary GTF back, `attribute.split('gene_id "')[1].split('"')[0]` gives the ENSG that was written, when neither ID holds a quote or a blank |
| PogoIds.MinStartIsLeast | 02_GTF_FASTA_2PoGo/map_peptides_to_pacbio_database.py:126 | `group['start'].min()` is one row's start and no greater than any |
| PogoIds.MaxEndIsGreatest | 02_GTF_FASTA_2PoGo/map_peptides_to_pacbio_database.py:127 | `group['end'].max()` is one row's end and no smaller than any |
| PogoIds.InsertGeneRowSpans | 02_GTF_FASTA_2PoGo/map_peptides_to_pacbio_database.py:125-138 | one `gene` row spanning min start to max end is prepended, and the group's rows follow unchanged |
| PogoIds.RowsOf | 02_GTF_FASTA_2PoGo/map_peptides_to_pacbio_database.py:142 | a group holds only rows of its ENSG |
| PogoIds.WithGeneRowsLength | 02_GTF_FASTA_2PoGo/map_peptides_to_pacbio_database.py:142 | each group grows by exactly one row |
| PogoIds.GeneRowTableLength | 02_GTF_FASTA_2PoGo/map_peptides_to_pacbio_database.py:142 | the output has the input rows plus one gene row per distinct ENSG |
| PogoIds.GeneRowTableMultiset | 02_GTF_FASTA_2PoGo/map_peptides_to_pacbio_database.py:142 | the output is, as a multiset, the input records plus exactly one gene row per distinct ENSG |
| PogoIds.GeneRowTableBlockStart | 02_GTF_FASTA_2PoGo/map_peptides_to_pacbio_database.py:125-142 | the k-th ENSG block starts, after the rows of the earlier blocks, with a `gene` row whose attribute is `gene_id "<ensg>";` |
| PogoIds.GeneRowTableBlockNext | 02_GTF_FASTA_2PoGo/map_peptides_to_pacbio_database.py:142 | each block is its gene row followed by its group's rows, the next block starts right after it, and the last block ends the table |
| PogoIds.GeneRowTableBlockMember | 02_GTF_FASTA_2PoGo/map_peptides_to_pacbio_database.py:138 | after a block's gene row come the group's rows in input order |
| PogoIds.GeneRowsForAt | 02_GTF_FASTA_2PoGo/map_peptides_to_pacbio_database.py:125-135 | the gene row of a group is a `gene` feature with attribute `gene_id "<ensg>";` |
| PogoIds.RowsOfExactly | 02_GTF_FASTA_2PoGo/map_peptides_to_pacbio_database.py:142 | grouping by ENSG keeps every row of that ENSG, with its multiplicity, and no other row |
| Collections.ConcatMapBlock | 02_GTF_FASTA_2PoGo/map_peptides_to_pacbio_database.py:142 | concatenating the per-group blocks places each block intact after the total length of the blocks before it |
| EnsgGeneMap.ReadAttributes | GTF_FASTA_2PoGo/extract_ensg_to_gene_map_gencode_gtf.py:30-36 | the attribute loop computes the updated variables, or the IndexError of an attribute without quotes |
| EnsgGeneMap.AttrsErrorStays | GTF_FASTA_2PoGo/extract_ensg_to_gene_map_gencode_gtf.py:31-36 | after an exception, later attributes change nothing |
| EnsgGeneMap.AttrsKeepName | GTF_FASTA_2PoGo/extract_ensg_to_gene_map_gencode_gtf.py:31-36 | a row without a `gene_name` attribute keeps the previous `gene_name` |
| EnsgGeneMap.QuotedAttr | GTF_FASTA_2PoGo/extract_ensg_to_gene_map_gencode_gtf.py:34-36 | `attr.split('"')[1]` of `key "value"` is the value |
| EnsgGeneMap.StripAttr | GTF_FASTA_2PoGo/extract_ensg_to_gene_map_gencode_gtf.py:32 | stripping removes the blank after a `;` |
| EnsgGeneMap.GencodePieces | GTF_FASTA_2PoGo/extract_ensg_to_gene_map_gencode_gtf.py:30 | a GENCODE attribute column splits into its attributes and a trailing empty piece |
| EnsgGeneMap.AttrStepGeneId | GTF_FASTA_2PoGo/extract_ensg_to_gene_map_gencode_gtf.py:33-34 | `gene_id "X"` sets `ensg` to X |
| EnsgGeneMap.AttrStepGeneType | GTF_FASTA_2PoGo/extract_ensg_to_gene_map_gencode_gtf.py:31-36 | a `gene_type` attribute changes nothing |
| EnsgGeneMap.AttrStepGeneName | GTF_FASTA_2PoGo/extract_ensg_to_gene_map_gencode_gtf.py:35-36 | `gene_name "N"` sets `gene_name` to N |
| EnsgGeneMap.GencodeRowVars | GTF_FASTA_2PoGo/extract_ensg_to_gene_map_gencode_gtf.py:30-36 | a GENCODE gene column sets `ensg` and `gene_name` to its gene_id and gene_name |
| EnsgGeneMap.ScanErrorStays | GTF_FASTA_2PoGo/extract_ensg_to_gene_map_gencode_gtf.py:19-39 | after an exception, later rows change nothing |
| EnsgGeneMap.LineStepRecords | GTF_FASTA_2PoGo/extract_ensg_to_gene_map_gencode_gtf.py:21-39 | a gene row records exactly one assignment; any other row records none |
| EnsgGeneMap.FieldsStepRecords | GTF_FASTA_2PoGo/extract_ensg_to_gene_map_gencode_gtf.py:25-39 | a row whose third field is `gene` records one assignment; any other row records none |
| EnsgGeneMap.AssignedPerGeneRow | GTF_FASTA_2PoGo/extract_ensg_to_gene_map_gencode_gtf.py:28-39 | one dictionary assignment per gene row |
| EnsgGeneMap.GencodeRowAssigns | GTF_FASTA_2PoGo/extract_ensg_to_gene_map_gencode_gtf.py:25-39 | a GENCODE gene row assigns its gene_name to its gene_id |
| EnsgGeneMap.StaleGeneName | GTF_FASTA_2PoGo/extract_ensg_to_gene_map_gencode_gtf.py:31-39 | a gene row without `gene_name` that succeeds assigns the previous row's name |
| EnsgGeneMap.OrderIsKeys | GTF_FASTA_2PoGo/extract_ensg_to_gene_map_gencode_gtf.py:39-43 | the assigned ENSGs are the dictionary's keys |
| EnsgGeneMap.KeyOrder | GTF_FASTA_2PoGo/extract_ensg_to_gene_map_gencode_gtf.py:43 | the iteration order lists each key once, exactly the keys |
| EnsgGeneMap.KeyOrderSnoc | GTF_FASTA_2PoGo/extract_ensg_to_gene_map_gencode_gtf.py:39 | reassigning a key keeps its place; a new key goes last |
| EnsgGeneMap.ReadLine | GTF_FASTA_2PoGo/extract_ensg_to_gene_map_gencode_gtf.py:21-39 | one pass of the row loop: skipped, or the new variables and their assignment, or the exception |
| EnsgGeneMap.ExtractEnsgToGeneName | GTF_FASTA_2PoGo/extract_ensg_to_gene_map_gencode_gtf.py:18-44 | the script computes the output lines of the last-wins map, or the exception that stops it |
| EnsgGeneMap.WriteMap | GTF_FASTA_2PoGo/extract_ensg_to_gene_map_gencode_gtf.py:42-44 | the writing loop emits `ensg \t name \n` per key, in order |
| EnsgGeneMap.LastAssignment | GTF_FASTA_2PoGo/extract_ensg_to_gene_map_gencode_gtf.py:39 | each ENSG's name is that of its last assignment |
| EnsgGeneMap.OutputOnePerEnsg | GTF_FASTA_2PoGo/extract_ensg_to_gene_map_gencode_gtf.py:39-44 | one output line per distinct ENSG, holding its last assigned name |
| EnsgGeneMap.ScanTabFree | GTF_FASTA_2PoGo/extract_ensg_to_gene_map_gencode_gtf.py:25 | the recorded ENSGs and names hold no tab |
| EnsgGeneMap.WrittenReadsBack | GTF_FASTA_2PoGo/extract_ensg_to_gene_map_gencode_gtf.py:43-44 | each written line reads back through the PoGo gene-to-ENSG reader as (name, unversioned ENSG) |
| EnsgGeneMap.OutputReadsBack | GTF_FASTA_2PoGo/extract_ensg_to_gene_map_gencode_gtf.py:43-44 | the extraction's output, read by the PoGo script, maps each name to the unversioned ENSG |
| GtfToy.NonEmpty | 00_2024-05-29_Tian_Aging_Mouse_SpliceProt/scripts/01_create_gtf_toy.py:19 | `if attr` keeps exactly the non-empty pieces |
| GtfToy.GeneId | 00_2024-05-29_Tian_Aging_Mouse_SpliceProt/scripts/01_create_gtf_toy.py:22 | `attributes.get('gene_id')` is None exactly when the key is absent |
| GtfToy.StopStays | 00_2024-05-29_Tian_Aging_Mouse_SpliceProt/scripts/01_create_gtf_toy.py:26-27 | after `break` or an exception, later lines change nothing |
| GtfToy.CopyLine | 00_2024-05-29_Tian_Aging_Mouse_SpliceProt/scripts/01_create_gtf_toy.py:12-31 | one pass of the loop body |
| GtfToy.CopyTranscript | 00_2024-05-29_Tian_Aging_Mouse_SpliceProt/scripts/01_create_gtf_toy.py:21-31 | the transcript branch of the loop body |
| GtfToy.CreateSmallGtf | 00_2024-05-29_Tian_Aging_Mouse_SpliceProt/scripts/01_create_gtf_toy.py:6-31 | the loop writes the lines of the running fold and reports the exception that stopped it, if any |
| GtfToy.TranscriptStepWrites | 00_2024-05-29_Tian_Aging_Mouse_SpliceProt/scripts/01_create_gtf_toy.py:21-31 | a transcript is written exactly when its gene was seen, or it is protein-coding and the cap is not reached |
| GtfToy.LineStepWrites | 00_2024-05-29_Tian_Aging_Mouse_SpliceProt/scripts/01_create_gtf_toy.py:12-31 | a line is appended exactly when it is a comment or a qualifying transcript; nothing else is written |
| GtfToy.LineStepCases | 00_2024-05-29_Tian_Aging_Mouse_SpliceProt/scripts/01_create_gtf_toy.py:12-31 | by the line: a comment is appended verbatim; a transcript row whose attributes unpack is handled by the transcript step; a row of another feature changes nothing; any other non-comment line (fewer than three fields, a transcript with fewer than nine, or attributes that do not unpack) raises and changes nothing else |
| GtfToy.TranscriptStepCounted | 00_2024-05-29_Tian_Aging_Mouse_SpliceProt/scripts/01_create_gtf_toy.py:23-27 | the counter equals the number of distinct genes seen, and stays within the cap until the break |
| GtfToy.LineStepCounted | 00_2024-05-29_Tian_Aging_Mouse_SpliceProt/scripts/01_create_gtf_toy.py:11-31 | every line keeps the count invariant |
| GtfToy.RunCounted | 00_2024-05-29_Tian_Aging_Mouse_SpliceProt/scripts/01_create_gtf_toy.py:7-27 | at the end, `gene_count == len(gene_ids)`, at most `num_genes` unless broken, and exactly one more at the break |
| GtfToy.TranscriptStepGenes | 00_2024-05-29_Tian_Aging_Mouse_SpliceProt/scripts/01_create_gtf_toy.py:21-31 | a written transcript's gene is in the seen set; the break writes nothing |
| GtfToy.LineStepGenes | 00_2024-05-29_Tian_Aging_Mouse_SpliceProt/scripts/01_create_gtf_toy.py:11-31 | every written non-comment line stays a transcript of a seen gene |
| GtfToy.RunGenes | 00_2024-05-29_Tian_Aging_Mouse_SpliceProt/scripts/01_create_gtf_toy.py:21-31 | every written transcript's gene lies in a set of at most `num_genes` seen genes |
| GtfToy.RunSubsequence | 00_2024-05-29_Tian_Aging_Mouse_SpliceProt/scripts/01_create_gtf_toy.py:11-31 | the output is an order-preserving subsequence of the input |

## Left out

- File I/O, argparse, logging, `os.makedirs`, `os.remove` and the temporary write-and-reread of the combined TSV/FASTA (`06_refine_orf_database.py` lines 101-137) are left out. Files are sequences of lines or of records, and the scripts' outputs are returned values.
- `Bio.SeqIO` parsing is not modelled. A FASTA record is given as its id (the header up to its first white space) and its sequence.
- `Bio.Seq.translate` is a foreign call and is a parameter `translate`. The groups depend only on the proteins it returns. The parameter is total, so errors raised by translate (such as Biopython's TranslationError on an invalid codon) are not modelled.
- `pandas`: `read_table`, `merge`, `groupby` and `to_csv` are modelled by their effect on rows. `merge` is an inner join on the base accession. `groupby('ensg')` visits the ENSGs in sorted order. The `to_csv` formatting of the refined table and of the PoGo GTF is not modelled.
- `gtfparse` and `protein_coding_genes` (`01_prepare_reference_tables.py` lines 131-154) are left out. They are a foreign GTF reader.
- Floating point is not modelled. FL, CPM and the coding score are `real`, so sums are exact.
- The mean and its rounding in `GeneLenTab` (line 122-123) are left out.
- `ReferenceTables.GenMap` builds the four maps but does not model the order in which the `set` iteration writes their members, because Python's set order is unspecified. The ENSG-to-gene and ENST-to-name files are the maps themselves.
- The info table of the PoGo script (`map_peptides_to_pacbio_database.py` lines 85-96) and its FASTA write (lines 99-105) are left out. They only print values the model already computes.
- `pandas.read_csv` of the temporary GTF (`map_peptides_to_pacbio_database.py` line 120) is not modelled. The rows grouped by `PogoIds.GeneRowTable` are given as `EnsgRow` values. `PogoIds.GtfAttributesGeneId` shows that the ENSG read back from a written attribute column (line 121) is the one written. The `enst` column (line 122) is used only by line 140 and then dropped, so it is not modelled.
- PogoIds.GtfAttributesGeneId: the read-back is stated only for IDs without quotes and blanks. An ID ending in `gene_id ` would make `gene_id "` occur a second time, and the split would then return a shorter value.
- Line 140 of the PoGo script sorts copies of the groups and discards them, so it has no effect and is not modelled.
- The order of `for pb_accession in all_pb_accessions` (set order) is unspecified. `PogoIds.AssignIds` visits the accessions in sorted order. Each key is assigned once, so the resulting maps do not depend on the order. When several accessions cannot get an ENSG, which exception is raised (Exception for an accession in neither file, or ValueError/IndexError from `int(pb_accession.split('.')[1])`) depends on Python's set order; `PogoIds.AssignIds` states only that it fails exactly when some accession has no ENSG, not which error it reports.
- `PogoIds.EnstAssignmentInjectiveMonotone`: monotonicity is stated only below ten billion accessions. From there on the decimal string grows a digit and the string order stops following the rank.
- `RefineOrf.StringToBoolean` takes a boolean or a string. Other Python types (which would raise AttributeError on `.lower()`) are not modelled.
- `Text.Lower` folds only ASCII letters. Python's full Unicode lower-casing is not modelled.
- `Text.ParseInt` accepts ASCII digits, an optional sign, surrounding white space and single underscores between digits. Non-ASCII digits, which Python's `int()` also accepts, are not modelled.
- The helper methods `GtfToy.CopyLine`, `GtfToy.CopyTranscript`, `EnsgGeneMap.ReadLine` and `EnsgGeneMap.WriteMap` are loop bodies or loops carved out of one script loop. Each is specified by the same step function as the loop.
- Where the code and the documented intent differ, the model follows the code:
  - The numeric ordering parses Ensembl transcript accessions such as `ENSMUST00000012345.2`. A PacBio accession such as `PB.1.2` splits into three `.`-pieces, so it raises ValueError, is logged, and is dropped from the merged name (`RefineOrf.SortKeyOfPacBio`).
  - A group whose accessions all fail to parse gets an empty merged name, which `pandas.read_csv` reads back as a missing value. When every merged name is empty or looks like a number, the column is read as floats and `.str.split` raises AttributeError. Otherwise the split leaves the missing value in place and `x[0]` of it raises TypeError (`RefineOrf.AggregateResults`).
  - A refined header written without a gene has no `GN=`, so the PoGo script's `split('GN=')[1]` raises IndexError on it (`PogoIds.FastaAccGeneOfRefinedNoGene`).
  - In the ENSG extraction, a gene row without `gene_name` takes the name left over from the previous gene row (`EnsgGeneMap.StaleGeneName`). The first such row raises NameError. `gene_name` is evaluated before `ensg` in `ensg_to_genename[ensg] = gene_name`, so NameError names `gene_name` first.
  - The toy GTF keeps the lines written before an exception or the `break`, as the open output file does.
