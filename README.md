# Recon adapter: metabolite identifier reconciliation and metabolite-to-gene edges

This project models the core of the Recon3D adapter of the HMDB-BioCypher
knowledge-graph builder (`metalinks/adapters/recon_adapter.py`) in Dafny and
proves properties of the model.

The adapter does two things.

1. It reconciles metabolite identifiers. Three mapping tables are involved:
   - the Recon3D metabolite table;
   - a curated metabolite map;
   - an HMDB mapping table.

   Each record has four namespace cells: ChEBI, KEGG, HMDB and PubChem.
   - The tables are first normalised: ChEBI prefixing, KEGG compound
     extraction and HMDB zero padding.
   - Then four anchor passes run, on ChEBI, KEGG, HMDB and PubChem in that
     order. Each pass left-joins the first table with the other two on the
     anchor, resolves every other namespace of each merged row with a
     three-slot majority rule (`check_fill`), and builds anchor-to-value
     dictionaries from the first table's side of the merge. It then fills
     only the missing cells of all three tables from those dictionaries.
2. It extracts metabolite-to-gene links from the stoichiometric matrix `S`
   and the reaction-to-gene matrix:
   - producing and degrading pairs, joined with the genes of each reaction;
   - each link labelled with reversibility, subsystem, compartment,
     transport and transport direction;
   - after that, each link's metabolite is looked up in the reconciled recon
     table to get its HMDB id.

Tables are sequences of records, with one `Option<string>` cell per
namespace. Namespaces are an enumeration. Pandas operations become explicit
sequence functions:
- `drop_duplicates` keeps first occurrences;
- `dict(zip(...))` is last-wins;
- a left merge keeps left order;
- `df.loc[mask, col] = v` is the method `Frames.LocAssign`.

Where the source loops or overrides columns step by step, the model is a
method proved equal to a specification function:
- `check_fill`;
- `fillna_with_map`;
- `fill_missing_values`;
- the four-pass driver;
- the transport and transport-direction columns.

Modules, one file each:
- `Frames`: cells, `drop_duplicates`, `zip`/`dict`, filters, Python string
  methods;
- `Identifiers`: namespaces, records, tables, the "only fills" ordering;
- `Normaliser`: `preprocess_metmaps`, `drop_nan`;
- `Resolver`: `check_fill`;
- `AnchorMerge`: `fill_missing_values`, `create_dict`, `fillna_with_map`;
- `Propagation`: the driver;
- `Reactions`: `get_metabolites`, `get_gene_symbols`,
  `get_metabolite_to_gene`, bounds;
- `Annotation`: subsystem, compartment and transport columns;
- `Edges`: the HMDB lookup and the composition of `get_edges` up to line
  167.

Where the code and a natural reading of it differ, the model follows the code:
- `check_fill` overwrites a present minority value when the other two slots
  agree.
- A KEGG value without `C` is sliced as `x[-1:5]`, so it keeps its last
  character (when it is 1 to 5 characters long) or becomes empty. It does
  not become missing.
- The curated and HMDB-mapping ChEBI prefixing is unconditional, so it can
  prefix twice.
- `get_metabolites` with `d = 0` selects every pair of labels, because the
  two masks turn every entry into 1. The adapter only calls it with 1 and -1.
- The first pass receives the tables in the order recon, HMDB mapping,
  curated.

## Model

| member | source | states |
|---|---|---|
| Resolver.Missing | metalinks/adapters/recon_adapter.py:326 | the number of missing slots is at most 3; it is 0 exactly when all three are present and 3 exactly when all are missing |
| Resolver.Resolve | metalinks/adapters/recon_adapter.py:326-342 | a row with any present slot leaves with all three present; every value it leaves with is one it came with; it is a conflict exactly when at most one slot is missing and no two slots are equal (missing equals nothing) |
| Resolver.SparseRows | metalinks/adapters/recon_adapter.py:326-342 | two missing slots are both filled with the one present value; three missing slots, or three equal values, leave the row unchanged; neither case is a conflict |
| Resolver.MajorityRule | metalinks/adapters/recon_adapter.py:329-337 | with at most one slot missing, any equal pair sets all three slots to its value, whether the third slot was missing or held a different value, and the row is not a conflict |
| Resolver.ConflictRule | metalinks/adapters/recon_adapter.py:338-340 | with at most one slot missing and no equal pair, only a missing slot changes, taking the first present value in column order; three distinct values are kept; the row is a conflict |
| Resolver.ConflictsCount | metalinks/adapters/recon_adapter.py:337-343 | the length of the conflict list is exactly the number of rows that are conflicts |
| Resolver.ConflictsZero | metalinks/adapters/recon_adapter.py:337-343 | no conflict is counted exactly when no row is a conflict |
| Resolver.CheckFill | metalinks/adapters/recon_adapter.py:320-344 | the row loop over the copy returns exactly the resolved column and the number of conflicting rows |
| AnchorMerge.AnchoredMembership | metalinks/adapters/recon_adapter.py:237-238 | a row enters the merge exactly when it is a first-table row with a present anchor; it is keyed by that anchor, carries that row's own other cells, and has nothing joined yet |
| AnchorMerge.MatchesMembership | metalinks/adapters/recon_adapter.py:239-240 | the rows a table offers for a key are exactly its rows whose anchor holds that key, each without its anchor cell |
| AnchorMerge.LeftMergeMembership | metalinks/adapters/recon_adapter.py:239-240 | a left merge holds exactly, for each left row, one row per matching row of the right table with that row's cells attached, or the left row itself when nothing matches |
| AnchorMerge.FirstMergeMembership | metalinks/adapters/recon_adapter.py:237-239 | after the first merge and `drop_duplicates`, the rows are exactly the anchored first-table rows with the cells the second table gives their key (a matching row's, or missing when none matches) |
| AnchorMerge.JoinMembership | metalinks/adapters/recon_adapter.py:237-240 | the merged table holds exactly the anchored first-table rows with their own cells, paired with every matching row of the second table and then of the third, or with missing cells where a table has no match |
| AnchorMerge.WriteColumn | metalinks/adapters/recon_adapter.py:242-244 | writing back one namespace's three cells changes that namespace only |
| AnchorMerge.SuccessiveCheckFills | metalinks/adapters/recon_adapter.py:242-244 | the three `check_fill` calls, each on the table the previous one produced, equal resolving every non-anchor namespace of each merged row independently |
| AnchorMerge.CheckFillMerged | metalinks/adapters/recon_adapter.py:242-244 | the three write-backs produce the resolved merged table and the sum of the three conflict counts |
| AnchorMerge.PresentPairsKeys | metalinks/adapters/recon_adapter.py:351-353 | a key survives `dropna` exactly when some pair with that key has a present value |
| AnchorMerge.CreateDictKeys | metalinks/adapters/recon_adapter.py:350-355 | a key is in the dictionary exactly when some row with that key has a present value |
| AnchorMerge.CreateDictSnoc | metalinks/adapters/recon_adapter.py:354 | a trailing pair writes its key when its value is present and leaves the dictionary unchanged otherwise |
| AnchorMerge.CreateDictLastWins | metalinks/adapters/recon_adapter.py:354 | for a repeated key, the last row with a present value gives the stored value |
| AnchorMerge.PassDictKeys | metalinks/adapters/recon_adapter.py:246-248 | every dictionary key is the key of a merged row |
| AnchorMerge.DictionaryKeysFromFirstTable | metalinks/adapters/recon_adapter.py:237-248 | only the first table's rows drive the dictionaries: every key is an anchor value present in the first table |
| AnchorMerge.FillNa | metalinks/adapters/recon_adapter.py:310-317 | same rows in the same order; the anchor column is unchanged; present cells are unchanged; a missing cell of namespace k is filled exactly when the row's anchor is present and is a key of dictionary k, and then with that dictionary's value |
| AnchorMerge.FillNaExtends | metalinks/adapters/recon_adapter.py:310-317 | filling keeps every row and every present value |
| AnchorMerge.FillNaWithMap | metalinks/adapters/recon_adapter.py:310-317 | the loop over the three columns produces exactly the filled table |
| AnchorMerge.PassExtends | metalinks/adapters/recon_adapter.py:231-261 | a pass keeps each table's rows in order, keeps every present value, and leaves the anchor column as it was |
| AnchorMerge.PassIgnoresForeignAnchors | metalinks/adapters/recon_adapter.py:237-252 | a row whose anchor is missing, or does not occur in the first table, is left as it is in all three tables |
| AnchorMerge.PassDictFromSecondTable | metalinks/adapters/recon_adapter.py:237-248 | when the first table lacks namespace n for every row with anchor value `key`, every second-table row with that value holds v in n, and the third table has none, the pass dictionary of n maps `key` to v |
| AnchorMerge.PassFillsFromSecondTable | metalinks/adapters/recon_adapter.py:231-252 | under the same conditions, the pass fills the first table's row with v: values of the second table reach the first |
| AnchorMerge.PassDictUniform | metalinks/adapters/recon_adapter.py:237-248 | when each table's rows with the anchor value agree on namespace n, the pass dictionary of n holds the key exactly when resolving the three offered cells leaves the first slot present, and maps it to that value |
| AnchorMerge.PassWithoutAnchors | metalinks/adapters/recon_adapter.py:237-252 | a pass whose first table has no value in the anchor column changes none of the three tables |
| AnchorMerge.FillMissingValues | metalinks/adapters/recon_adapter.py:231-261 | the merge, resolve, dictionary and fill sequence returns the three tables of the pass and its conflict count, each table extending its input |
| Propagation.StepExtends | metalinks/adapters/recon_adapter.py:155 | one pass extends each of the three tables it receives and leaves their anchor columns as they were |
| Propagation.RunChain | metalinks/adapters/recon_adapter.py:155-158 | in the run of the four passes, every pass extends the tables it receives: no row is dropped or reordered and no present value changes |
| Propagation.ChainExtends | metalinks/adapters/recon_adapter.py:155-158 | along such a run, every later triple of tables extends every earlier one |
| Propagation.RunPresentCounts | metalinks/adapters/recon_adapter.py:155-158 | across the passes, table lengths never change and every per-table, per-namespace count of present values is non-decreasing |
| Propagation.RunPass | metalinks/adapters/recon_adapter.py:156 | one rebinding of `test` is one pass on the three current tables, with that pass's conflict count |
| Propagation.Reconcile | metalinks/adapters/recon_adapter.py:155-158 | the four calls on ChEBI, KEGG, HMDB, PubChem end in the last tables of the run from the preprocessed tables, with each pass's conflict count on the tables it receives; every pass extends the one before and the result extends the preprocessed tables |
| Propagation.RunNotIdempotent | metalinks/adapters/recon_adapter.py:155-158 | the four passes are not idempotent: on a recon row known only by KEGG id, a mapping row linking that id to a ChEBI id and a curated row linking the ChEBI id to an HMDB id, the first run ends without the recon row's HMDB id and a second run fills it |
| Normaliser.ReconChebi | metalinks/adapters/recon_adapter.py:285 | missing stays missing; a present result carries the `CHEBI:` prefix; an already prefixed value is unchanged; otherwise the old value follows the prefix |
| Normaliser.ReconChebiIdempotent | metalinks/adapters/recon_adapter.py:285 | the recon ChEBI rule applied twice equals once |
| Normaliser.PrefixChebi | metalinks/adapters/recon_adapter.py:283-301 | missing stays missing; a present value gets a six-character `CHEBI:` prefix |
| Normaliser.PrefixChebiUnconditional | metalinks/adapters/recon_adapter.py:283 | the curated and mapping rule is unconditional: applying it to its own output prefixes again |
| Normaliser.SliceBound | metalinks/adapters/recon_adapter.py:287-288 | an index inside the string is kept; a negative one counts from the end; an index past the end becomes the length and one before the start becomes 0 |
| Normaliser.Kegg | metalinks/adapters/recon_adapter.py:287-288 | missing stays missing; a present value becomes at most 6 characters |
| Normaliser.KeggWithC | metalinks/adapters/recon_adapter.py:287-288 | when `C` occurs, the result is the substring of up to 6 characters that starts at its first occurrence |
| Normaliser.KeggWithoutC | metalinks/adapters/recon_adapter.py:287-288 | without `C`, `x[-1:5]` keeps the last character of a 1 to 5 character value and is empty otherwise; the value does not become missing |
| Normaliser.KeggIdempotent | metalinks/adapters/recon_adapter.py:287-288 | KEGG extraction applied twice equals once |
| Normaliser.PadHmdb | metalinks/adapters/recon_adapter.py:290-296 | the output length is max(11, len x); zeros are inserted after the first 4 characters, and the prefix and the tail are kept |
| Normaliser.PadHmdbIdempotent | metalinks/adapters/recon_adapter.py:290-296 | padding twice equals padding once |
| Normaliser.PadKeepsNan | metalinks/adapters/recon_adapter.py:289-297 | a padded value starts with `nan` exactly when the input did |
| Normaliser.Hmdb | metalinks/adapters/recon_adapter.py:289-297 | missing (stringified as `nan`) ends missing; a present value ends missing exactly when it starts with `nan`, and is otherwise the padded value |
| Normaliser.HmdbIdempotent | metalinks/adapters/recon_adapter.py:289-297 | the HMDB normaliser applied twice equals once |
| Normaliser.Widen | metalinks/adapters/recon_adapter.py:277 | a 9-character value becomes 11 characters, with `00` inserted after position 4; other values are unchanged |
| Normaliser.DropNan | metalinks/adapters/recon_adapter.py:270-278 | the result has at most as many rows as the input |
| Normaliser.DropNanRows | metalinks/adapters/recon_adapter.py:272-277 | a row survives exactly when one of its three candidates is present, and then it carries the first present candidate, widened |
| Normaliser.NormalisationProperties | metalinks/adapters/recon_adapter.py:281-307 | the recon normalisation is idempotent, and no normalisation turns a missing cell into a present one |
| Reactions.StackEntries | metalinks/adapters/recon_adapter.py:213 | the stacked matrix holds exactly the matrix's entries, each with its line and column labels |
| Reactions.StackLength | metalinks/adapters/recon_adapter.py:213 | the stacked matrix has one entry per line and column: its length is lines times columns |
| Reactions.StackAt | metalinks/adapters/recon_adapter.py:213 | the stacking is row-major: the entry of line i and column j sits at position i * columns + j |
| Reactions.KeepOnesMembership | metalinks/adapters/recon_adapter.py:215-216 | a label pair is kept exactly when some stacked entry with those labels equals 1 |
| Reactions.GetMetabolites | metalinks/adapters/recon_adapter.py:209-218 | the extracted pairs are duplicate-free |
| Reactions.GetMetabolitesMembership | metalinks/adapters/recon_adapter.py:209-218 | (m, r) is extracted exactly when some entry of metabolite m and reaction r equals d; for d = 0, every label pair is extracted |
| Reactions.RowSumAtLeast | metalinks/adapters/recon_adapter.py:198 | without negative entries, a line's sum is at least each of its entries |
| Reactions.ActiveLines | metalinks/adapters/recon_adapter.py:198-200 | exactly the lines with a positive sum are kept |
| Reactions.GetGeneSymbols | metalinks/adapters/recon_adapter.py:197-206 | the extracted pairs are duplicate-free |
| Reactions.GetGeneSymbolsMembership | metalinks/adapters/recon_adapter.py:197-206 | (r, g) is extracted exactly when the entry of reaction r and gene g is 1 and the line of r has a positive sum |
| Reactions.GeneSymbolsOfBinaryMatrix | metalinks/adapters/recon_adapter.py:197-206 | on a matrix without negative entries, (r, g) is extracted exactly when its entry is 1 |
| Reactions.BoundsClasses | metalinks/adapters/recon_adapter.py:92-93 | the `rev` and `direction` columns split the bounds three ways: reversible and forward iff lb < 0 < ub; irreversible and forward iff 0 <= lb and 0 < ub; irreversible and backward iff ub <= 0; never reversible and backward |
| Reactions.ReversibleReactions | metalinks/adapters/recon_adapter.py:226 | a reaction counts as reversible exactly when some bounds row for it has lb < 0 < ub |
| Reactions.PartnersMembership | metalinks/adapters/recon_adapter.py:221-222 | one left pair joined with the genes gives exactly the genes of its reaction |
| Reactions.InnerMergeMembership | metalinks/adapters/recon_adapter.py:221-222 | (m, r, g) is in the inner join exactly when (m, r) is a left pair and (r, g) is a gene pair |
| Reactions.GetMetaboliteToGeneMembership | metalinks/adapters/recon_adapter.py:220-228 | a link exists exactly for a producing (or degrading) pair and a gene of the same reaction; it is labelled reversible exactly when its reaction has bounds with lb < 0 < ub |
| Reactions.GetMetaboliteToGeneOrder | metalinks/adapters/recon_adapter.py:221-224 | the producing links come first, then the degrading ones: a link is producing exactly when its position is within the producing merge |
| Annotation.Compartment | metalinks/adapters/recon_adapter.py:107-108 | the compartment is missing (IndexError) exactly when the id holds no `[`; a present one holds neither `[` nor `]` |
| Annotation.CompartmentOfTag | metalinks/adapters/recon_adapter.py:107-108 | the compartment of `name[tag]` is `tag` |
| Annotation.LastApplyingRule | metalinks/adapters/recon_adapter.py:112-125 | under successive overrides, the last applying rule decides the transport |
| Annotation.NoApplyingRule | metalinks/adapters/recon_adapter.py:109-125 | the transport stays `unknown` exactly when no rule applies |
| Annotation.RulesExclusive | metalinks/adapters/recon_adapter.py:112-125 | no two of the fourteen rules share a (compartment, subsystem) pair, and none writes `unknown` |
| Annotation.TransportTable | metalinks/adapters/recon_adapter.py:109-125 | the transport is `unknown` unless (compartment, subsystem) is one of the 14 listed pairs, and otherwise it is that pair's transport |
| Annotation.RuleDirection | metalinks/adapters/recon_adapter.py:112-131 | every listed subsystem contains `Transport`; a listed row is inward exactly when its compartment is `e`, or is `c` with a non-extracellular subsystem |
| Annotation.DirectionTable | metalinks/adapters/recon_adapter.py:109-131 | a listed pair always gets a direction, inward as above; an unlisted pair is `out` when its subsystem contains `Transport` and `unknown` otherwise |
| Annotation.Annotate | metalinks/adapters/recon_adapter.py:105-131 | a link cannot be annotated exactly when its reaction has no subsystem or its metabolite id has no `[` |
| Annotation.CompartmentColumn | metalinks/adapters/recon_adapter.py:107-108 | the two splits give the compartment column, or fail exactly when some id has no `[` |
| Annotation.TransportColumn | metalinks/adapters/recon_adapter.py:109-125 | the default then the fourteen masked assignments, in order, give each row its table transport |
| Annotation.DirectionColumn | metalinks/adapters/recon_adapter.py:127-131 | the four successive overrides give each row its priority-order direction: `out` if `c->e`, else `in` if `e->c`, else `in` if the transport starts with `c`, else `out` if the subsystem contains `Transport`, else `unknown` |
| Annotation.AnnotateLinks | metalinks/adapters/recon_adapter.py:105-131 | the column-by-column computation equals the per-link annotation, including both error cases |
| Edges.MetDictEntries | metalinks/adapters/recon_adapter.py:162 | a metabolite has an entry exactly when it is paired with a recon row, and the entry is the HMDB cell of such a row |
| Edges.MetDictOfUniqueMetabolite | metalinks/adapters/recon_adapter.py:162 | a metabolite paired only once gets the HMDB cell of its own row |
| Edges.Emit | metalinks/adapters/recon_adapter.py:163-167 | a KeyError exactly when some link's metabolite has no entry; otherwise the rows are duplicate-free and no more numerous than the links |
| Edges.EmitMembership | metalinks/adapters/recon_adapter.py:163-167 | the emitted rows are exactly the stripped links whose HMDB cell is present |
| Edges.EmitProvenance | metalinks/adapters/recon_adapter.py:105-167 | every emitted row has a present HMDB id, which is the dictionary entry of one link's metabolite, and that link's gene |
| Edges.EmitLinksProvenance | metalinks/adapters/recon_adapter.py:105-167 | every emitted row's present HMDB id is held by the recon table in a row paired with one link's metabolite |
| Edges.GetEdgeRows | metalinks/adapters/recon_adapter.py:98-167 | running extraction, annotation, reconciliation and the emitter, in the adapter's order, gives exactly the composed edge rows |

## Left out

- File and network I/O: `sio.loadmat`, `pd.read_csv` and the `.mat` struct unpacking (lines 76-95 and 135-151). The model receives the matrices, bounds, subsystems, metabolite ids and mapping tables as parameters.
- The pypath `mapping.translation_df` lookup, its column-swap workaround, the UniProt mapping and its `dropna` and `drop_duplicates` (lines 168-180), and the constant `status` column. These are a foreign call and its consequences.
- Edge emission: the md5 hash, the attribute dictionary and the generator `yield` (lines 182-194). They belong to a hash library and the BioCypher protocol.
- Printing: the tqdm progress, the conflict message of `check_fill`, and the before/after distinct-value statistics of `fill_missing_values` (lines 233-235 and 254-259). Conflicts are returned as counts instead.
- Float bounds and matrix entries are integers in the model, so the NaN comparisons of lines 92-93 are not modelled.
- Pandas merge mechanics: the `_x`/`_y` suffixes and the positional `iloc` selection are replaced by namespace-keyed columns. `check_fill` takes its three slots in the column order those positions select.
- The length-1 Series assignment at line 342 is modelled as filling with the single present value, which is what it evidently intends.
- Duplicate row labels: `rxn_gene_df.loc[rxn_genes]` repeats every line that shares a label. The model keeps each positive-sum line once, so a duplicated reaction label whose other line has non-positive sum and an entry 1 is not reproduced.
- Structural errors: a table that lacks a namespace column, or a value that is not a string, cannot be expressed with the model's records.
- `get_hmdb_ids_s` (lines 264-267) is never called.
- Propagation.Reconcile: the four passes run once each, so the driver is not idempotent. A value learned in a later pass can widen the merge of an earlier anchor, and only a second run would use it (`RunNotIdempotent`). No fixed point is promised.
- `create_knowledge_graph.py` and `script.py` only orchestrate the pipeline, and `metalinks/adapters/cellphone_metabolites_adapter.py` is a thin loader around a network lookup. None of them is part of this model.
- Row order inside a merge: `LeftMerge` fixes the order pandas documents for left merges, and `InnerMerge` keeps left order. The lemmas about the merges state membership in both directions, not the order of the merged rows. The order of the metabolite-to-gene links is stated by `GetMetaboliteToGeneOrder`: producing links precede degrading ones.
- Reactions.GetMetabolites: membership and duplicate-freedom of the extracted pairs are proved, and the row-major order of `stack` is proved by `StackAt`, but the order of the extracted pairs themselves is not stated.
