# reti: a Dafny model of the phenotype-to-gene core

reti is a rare-disease diagnosis assistant. A clinician's notes, speech or
images become a list of HPO (Human Phenotype Ontology) terms. A ranking
engine turns those terms into candidate genes, and a genome browser shows
the variants of reference phenopackets. This project models the
deterministic core of that system and proves properties of the model:

- **Gene index** (`hpo_gene_index.dfy`). It parses the tab-separated
  HPO-to-gene association table into a term-to-gene-set index with
  per-term gene counts. The index is a class whose two fields stand for
  the module's two global maps. It scores a query by inverse gene-count
  weights and ranks the best genes first, cut at `topK`.
- **rank_genes tool** (`rank_genes_tool.dfy`). It validates the tool's
  arguments against their schema, calls the ranking and renders the
  candidates with six-decimal scores.
- **Phenotype schema** (`phenotype_schema.dfy`). It defines the HPO item
  (`HP:` and seven digits, a label, a confidence in [0, 1]) and the
  phenotype document.
- **Gene-guess checker** (`gene_checker.dfy`). It collects the
  ground-truth gene symbols of a phenopacket and gives the "Yes"/"No"
  verdict for a list of guessed genes.
- **Checker client** (`gene_checker_client.dfy`). It covers the phenotype
  summary, the slicing of the model's reply down to its JSON array, and
  the clean-up of guesses.
- **Store renamer** (`rename_phenopackets.dfy`). It assigns
  collision-free content-derived ids, rewrites `subject.id`, filters
  `.json` files, and walks the store in sorted order.
- **Phenopacket listing route** (`igv_route.dfy`). It extracts each
  packet's variant and picks the first ten `.json` files.
- **Speech recognition glue** (`asr.dfy`) and the **transcription
  endpoint** (`transcribe.dfy`). These cover the MIME-to-extension rule,
  the upload filter, the size limit and the error-to-status mapping.
- **Genome browser component** (`igv_browser.dfy`). It covers the
  one-record VCF document (VCF v4.2, sections 1.3 and 1.4), its base-64
  data URI, the INFO column, the selection toggle and the track colours.

Shared modules model the host languages:

- `wrappers.dfy`: Option and Result.
- `text.dfy`: ASCII case mapping, JavaScript `trim` and Python `strip`,
  `split`/`join`, `find`/`rfind`, and code-point string order.
- `json.dfy`: parsed JSON trees.
- `js_values.dfy`: JavaScript truthiness, `?.`, `??`, `String()` and
  `Number()`, including the TypeError they raise on an object with its
  own `toString` member.
- `py_values.dfy`: Python truthiness and `str()`.
- `sorting.dfy`: sorting of distinct names.
- `base64.dfy`: base 64 per section 4 of RFC 4648, and the browser's
  `btoa()`.

The file system and the remote services are inputs:

- An association table is `Option<string>`; `None` means the file is
  missing.
- A directory listing is the names it returns, or the message of the
  error it raised.
- A file's read is its parsed JSON, or a "did not parse" marker, or the
  error message.
- The SHA-256 prefixes used by the renamer are function parameters.
- The recogniser's reply is a parameter.

## Model

| member | source | states |
|---|---|---|
| HpoGeneIndex.GeneIndex.constructor | api/src/lib/hpo_gene_index.ts:14-15 | before the first load both maps are empty |
| HpoGeneIndex.GeneIndex.Load | api/src/lib/hpo_gene_index.ts:17-62 | a missing file empties both maps; a file with no non-blank line raises (the `lines[0]` TypeError) and leaves the maps as they were; otherwise the maps become the index built from the data lines and its gene counts |
| HpoGeneIndex.SplitLines | api/src/lib/hpo_gene_index.ts:36 | `split(/\r?\n/)` yields at least one piece and no piece holds a line feed |
| HpoGeneIndex.NonBlank | api/src/lib/hpo_gene_index.ts:36 | the lines kept are exactly those whose trim is non-empty |
| HpoGeneIndex.NonBlankFirst | api/src/lib/hpo_gene_index.ts:36 | the filter keeps order: its result is the first non-blank line followed by the filter of the lines after it |
| HpoGeneIndex.DataLines | api/src/lib/hpo_gene_index.ts:39 | the first non-blank line is dropped exactly when, lower-cased, it starts with `hpo_id` |
| HpoGeneIndex.ParseLine | api/src/lib/hpo_gene_index.ts:43-49 | a parsed line yields a well-formed `HP:` term and a non-empty gene symbol |
| HpoGeneIndex.ParseLineByColumns | api/src/lib/hpo_gene_index.ts:43-49 | fewer than five tab-separated columns are skipped; otherwise the pair is column 0 and column 3, each trimmed and upper-cased, kept only when the term matches `^HP:\d+$` and the symbol is non-empty |
| HpoGeneIndex.IndexLine | api/src/lib/hpo_gene_index.ts:43-52 | one iteration of the loader loop adds the line's pair, if any, to the index |
| HpoGeneIndex.AddGene | api/src/lib/hpo_gene_index.ts:51-52 | creating the set on first use and adding the gene records exactly that pair |
| HpoGeneIndex.AddPairMembership | api/src/lib/hpo_gene_index.ts:51-52 | after one addition, a (term, gene) pair is indexed iff it was before or is the added pair |
| HpoGeneIndex.ParseAll | api/src/lib/hpo_gene_index.ts:41-53 | the parsing loop from line `start` on builds the index of those lines |
| HpoGeneIndex.BuildIndexStep | api/src/lib/hpo_gene_index.ts:41-53 | one more data line adds its parse to the index built so far |
| HpoGeneIndex.FoldMembership | api/src/lib/hpo_gene_index.ts:41-53 | the folded index holds a pair iff some parsed line is that pair, however many lines are |
| HpoGeneIndex.BuildIndexMembership | api/src/lib/hpo_gene_index.ts:41-53 | set semantics: gene g is indexed under t iff some data line parses to (t, g); t is a key iff some line parses to a pair with term t |
| HpoGeneIndex.FoldWellFormed | api/src/lib/hpo_gene_index.ts:41-53 | folding well-formed pairs gives an index whose keys are terms and whose gene sets are non-empty |
| HpoGeneIndex.BuildIndexWellFormed | api/src/lib/hpo_gene_index.ts:41-53 | every key of a loaded index is a term, and every gene set is non-empty and holds no empty symbol |
| HpoGeneIndex.CountsOf | api/src/lib/hpo_gene_index.ts:55-56 | the counts have exactly the index's terms as keys |
| HpoGeneIndex.CountGenes | api/src/lib/hpo_gene_index.ts:55-56 | the counting loop gives every term the size of its gene set |
| HpoGeneIndex.CountsPositive | api/src/lib/hpo_gene_index.ts:55-56 | every indexed term's count is the number of its distinct genes and is at least 1 |
| HpoGeneIndex.Wanted | api/src/lib/hpo_gene_index.ts:65-67 | the query filter keeps no more terms than it is given, and all of them are well-formed |
| HpoGeneIndex.WantedMembership | api/src/lib/hpo_gene_index.ts:65-67 | a term is kept iff it is well-formed and some input, upper-cased and trimmed, equals it |
| HpoGeneIndex.WantedCons | api/src/lib/hpo_gene_index.ts:65-67 | the filter treats the first id and the rest separately, in order |
| HpoGeneIndex.WantedIdempotent | api/src/lib/hpo_gene_index.ts:65-67 | normalising and filtering a second time changes nothing |
| HpoGeneIndex.WantedKeepsTerms | api/src/lib/hpo_gene_index.ts:65-67 | a query of well-formed upper-case terms passes unchanged and in order |
| HpoGeneIndex.WantedConsTerm | api/src/lib/hpo_gene_index.ts:65-67 | a well-formed first id is kept in front |
| HpoGeneIndex.NormalizeFixesTerm | api/src/lib/hpo_gene_index.ts:66 | a well-formed term is its own normalisation |
| HpoGeneIndex.Weight | api/src/lib/hpo_gene_index.ts:71 | `1/(1+count)` lies in (0, 1] |
| HpoGeneIndex.WeightOrder | api/src/lib/hpo_gene_index.ts:71 | an indexed term weighs at most 1/2, and a term with fewer genes weighs strictly more |
| HpoGeneIndex.ReciprocalDecreasing | api/src/lib/hpo_gene_index.ts:71 | the reciprocal is anti-monotone, strictly for distinct arguments |
| HpoGeneIndex.AddTerm | api/src/lib/hpo_gene_index.ts:76-84 | the inner scoring loop turns the records of a query prefix into those of the prefix extended by one term |
| HpoGeneIndex.ScoreAll | api/src/lib/hpo_gene_index.ts:75-85 | after the scoring loops, each gene's record holds its score and its matched terms over the whole query |
| HpoGeneIndex.StepFacts | api/src/lib/hpo_gene_index.ts:75-85 | one more query term adds its weight to each gene it maps to, appends itself to that gene's matches when new, and adds its genes to the matched set |
| HpoGeneIndex.UnmatchedHasNothing | api/src/lib/hpo_gene_index.ts:75-85 | a gene no query term maps to has score 0 and no matches |
| HpoGeneIndex.MatchesSpec | api/src/lib/hpo_gene_index.ts:75-85 | a gene's matches are exactly the query terms mapping to it, each listed once, in order of first occurrence |
| HpoGeneIndex.MatchedIffMatches | api/src/lib/hpo_gene_index.ts:75-85 | a gene is scored iff it has a match iff its score is positive; scores are never negative |
| HpoGeneIndex.RepeatedTermAddsWeight | api/src/lib/hpo_gene_index.ts:75-85 | a repeated query term adds its weight again without being listed twice |
| HpoGeneIndex.AbsentTermContributesNothing | api/src/lib/hpo_gene_index.ts:76-77 | a term missing from the index changes no score, no match list and no matched gene |
| HpoGeneIndex.SpecificTermScoresHigher | api/src/lib/hpo_gene_index.ts:71-85 | of two genes each matched by one term, the one matched by the term with fewer genes scores higher |
| HpoGeneIndex.FirstIndex | api/src/lib/hpo_gene_index.ts:82 | the first occurrence of a term, the order `matches` keeps |
| HpoGeneIndex.CollectHits | api/src/lib/hpo_gene_index.ts:87-98 | one hit per scored gene, built from that gene's record, no gene twice |
| HpoGeneIndex.TableOfScores | api/src/lib/hpo_gene_index.ts:87-98 | the records of a complete scoring pass give exactly the hits of the matched genes |
| HpoGeneIndex.HitTable | api/src/lib/hpo_gene_index.ts:87-98 | there is one hit for each matched gene |
| HpoGeneIndex.LinksRecoverGene | api/src/lib/hpo_gene_index.ts:92-96 | all three links are templated from the gene symbol alone, which each gives back |
| HpoGeneIndex.PrecedesTransitive | api/src/lib/hpo_gene_index.ts:100-102 | the comparator's order is transitive |
| HpoGeneIndex.PrecedesAsymmetric | api/src/lib/hpo_gene_index.ts:100-102 | the comparator's order is asymmetric |
| HpoGeneIndex.PrecedesIrreflexive | api/src/lib/hpo_gene_index.ts:100-102 | no hit precedes itself |
| HpoGeneIndex.PrecedesTotal | api/src/lib/hpo_gene_index.ts:100-102 | hits of different genes are always ordered one way or the other |
| HpoGeneIndex.InsertHit | api/src/lib/hpo_gene_index.ts:100-102 | insertion keeps the list strictly sorted and adds exactly the one hit |
| HpoGeneIndex.SortHits | api/src/lib/hpo_gene_index.ts:100-102 | the sort is strictly ordered and a permutation of its input |
| HpoGeneIndex.SliceEnd | api/src/lib/hpo_gene_index.ts:103 | `slice(0, k)` keeps min(k, n) hits for k >= 0 |
| HpoGeneIndex.GeneIndex.Rank | api/src/lib/hpo_gene_index.ts:64-104 | the returned hits are the ranking of the query against the current index, cut at topK |
| HpoGeneIndex.RankingOfSorted | api/src/lib/hpo_gene_index.ts:100-103 | sorting all hits and cutting at topK yields a ranking of the hit table |
| HpoGeneIndex.RankingOrder | api/src/lib/hpo_gene_index.ts:87-103 | scores descend; equal scores come in ascending symbol order; each hit carries its gene's score, matches and links; every dropped gene scores no more than any kept one |
| HpoGeneIndex.RankingUnique | api/src/lib/hpo_gene_index.ts:64-103 | the ranking of a query is unique, so the engine is deterministic |
| HpoGeneIndex.TableRankingUnique | api/src/lib/hpo_gene_index.ts:100-103 | two rankings of one table agree position by position |
| HpoGeneIndex.NotOutranked | api/src/lib/hpo_gene_index.ts:100-103 | two rankings that agree so far cannot disagree in order at the next position |
| HpoGeneIndex.GenesOfMembership | api/src/lib/hpo_gene_index.ts:87-103 | a gene is among the hits iff some hit names it |
| HpoGeneIndex.DistinctCardinality | api/src/lib/hpo_gene_index.ts:100-103 | a strictly sorted list of table entries names as many genes as it has hits |
| HpoGeneIndex.EmptyIndexRanksNothing | api/src/lib/hpo_gene_index.ts:24-32 | after a missing file, every ranking is empty |
| HpoGeneIndex.NothingMatchedInEmptyIndex | api/src/lib/hpo_gene_index.ts:76-77 | no gene matches in an empty index |
| HpoGeneIndex.NoTermRanksNothing | api/src/lib/hpo_gene_index.ts:69 | a query with no well-formed term, or topK 0, ranks nothing |
| HpoGeneIndex.LargeTopKRanksAll | api/src/lib/hpo_gene_index.ts:103 | with topK at least the number of matched genes, every matched gene is ranked |
| RankGenesTool.ItemIssues | api/src/lib/rank_genes_tool.ts:6 | there is no item issue iff every element is a string, and each issue is a type error |
| RankGenesTool.Strings | api/src/lib/rank_genes_tool.ts:6 | the parsed ids are the array's strings, in order |
| RankGenesTool.NumberIssuesEmpty | api/src/lib/rank_genes_tool.ts:8 | a number passes `int().min(1).max(100)` iff it is an integer from 1 to 100 |
| RankGenesTool.ParseHpoIdsSpec | api/src/lib/rank_genes_tool.ts:5-7 | hpo_ids is accepted iff it is a non-empty array of strings, then yields those strings in order; a rejection carries an issue |
| RankGenesTool.ParseTopKSpec | api/src/lib/rank_genes_tool.ts:8 | top_k is accepted iff absent or an integer from 1 to 100, then yields that number; a rejection carries an issue |
| RankGenesTool.ParseParamsSpec | api/src/lib/rank_genes_tool.ts:4-9 | parse succeeds iff hpo_ids is a non-empty string array and top_k is absent or an integer in [1, 100]; it then yields those values; a rejection carries at least one issue |
| RankGenesTool.EmptyIdsRejected | api/src/lib/rank_genes_tool.ts:5-7 | an empty hpo_ids array is rejected with a too-small issue on hpo_ids |
| RankGenesTool.TopKRange | api/src/lib/rank_genes_tool.ts:8 | with string ids, an integer top_k is accepted exactly from 1 to 100; when absent, 25 is used |
| RankGenesTool.Round6 | api/src/lib/rank_genes_tool.ts:29 | `toFixed(6)` lands on a multiple of 10^-6 within half a unit of the score |
| RankGenesTool.RoundUp6 | api/src/lib/rank_genes_tool.ts:29 | rounding a non-negative value to a whole number of millionths at most half a millionth above it and strictly less than half a millionth below it, so a value halfway between rounds up |
| RankGenesTool.Round6Monotone | api/src/lib/rank_genes_tool.ts:29 | rounding keeps the order of scores |
| RankGenesTool.Round6Idempotent | api/src/lib/rank_genes_tool.ts:29 | rounding a rounded score changes nothing |
| RankGenesTool.StringArray | api/src/lib/rank_genes_tool.ts:30 | `matches` is copied element by element |
| RankGenesTool.Render | api/src/lib/rank_genes_tool.ts:26-33 | the result is `{candidates}`, one candidate per hit, in order |
| RankGenesTool.RenderedScoresDescend | api/src/lib/rank_genes_tool.ts:27-29 | the rendered scores of a ranking do not increase |
| RankGenesTool.RankGenes | api/src/lib/rank_genes_tool.ts:12-34 | a rejection reports the schema issues; otherwise the result renders the ranking against the index, cut at top_k or 25 |
| RankGenesTool.ToolDeterministic | api/src/lib/rank_genes_tool.ts:13-33 | the rendered output depends only on the index and the arguments |
| PhenotypeSchema.NumberOf | api/src/lib/phenotypeSchema.ts:6 | `z.number()` accepts exactly the JSON numbers |
| PhenotypeSchema.ParseItems | api/src/lib/phenotypeSchema.ts:11 | an array parses iff every element does, into the items in order |
| PhenotypeSchema.ParseHpoItemSpec | api/src/lib/phenotypeSchema.ts:3-7 | an item is accepted iff its id is `HP:` and seven digits, its label a string and its confidence a number in [0, 1]; it keeps those values |
| PhenotypeSchema.ParsePhenotypeSpec | api/src/lib/phenotypeSchema.ts:9-12 | a document is accepted iff phenotype_text is a non-empty string and hpo an array of valid items, possibly empty |
| PhenotypeSchema.ConfidenceInterval | api/src/lib/phenotypeSchema.ts:6 | the confidence bound is the closed interval [0, 1] |
| PhenotypeSchema.ItemIdIsTerm | api/src/lib/phenotypeSchema.ts:4 | every item id is a term the index accepts, unchanged by query normalisation |
| PhenotypeSchema.ItemIdStricterThanTerm | api/src/lib/phenotypeSchema.ts:4 | the item id is stricter than `^HP:\d+$`: `HP:1` is a term but no item id |
| PhenotypeSchema.ItemIdsQueryUnchanged | api/src/lib/phenotypeSchema.ts:4 | item ids pass the ranking's query filter unchanged and in order |
| PhenotypeSchema.IdsOf | api/src/lib/phenotypeSchema.ts:11 | the ids of the items, in order |
| PhenotypeSchema.ParsedIdsQueryUnchanged | api/src/lib/phenotypeSchema.ts:9-12 | the ids of any parsed document reach the ranking unchanged |
| GeneChecker.DictOr | diagnosis/mcp/gene_checker_server.py:17-21 | `v or {}` gives an empty dict for a missing or falsy value |
| GeneChecker.ListOr | diagnosis/mcp/gene_checker_server.py:16-18 | `v or []` gives an empty list for a missing or falsy value |
| GeneChecker.SymbolSets | diagnosis/mcp/gene_checker_server.py:18-24 | one symbol set per genomic interpretation, in order |
| GeneChecker.InterpretationSets | diagnosis/mcp/gene_checker_server.py:16-24 | one symbol set per interpretation, in order |
| GeneChecker.GatherSpec | diagnosis/mcp/gene_checker_server.py:16-24 | collecting raises iff some entry raises, and otherwise is the union of the entries' sets |
| GeneChecker.GatherFailurePersists | diagnosis/mcp/gene_checker_server.py:16-24 | once an entry raises, the whole extraction raises |
| GeneChecker.GatherStep | diagnosis/mcp/gene_checker_server.py:16-24 | one more entry that does not raise adds its set |
| GeneChecker.GatherStepFails | diagnosis/mcp/gene_checker_server.py:16-24 | one more entry that raises makes the list raise |
| GeneChecker.TruthSymbolsSpec | diagnosis/mcp/gene_checker_server.py:13-26 | the extraction succeeds iff every level has a readable shape, and then holds exactly `strip().upper()` of every truthy symbol of every genomic interpretation of every interpretation |
| GeneChecker.NoInterpretationsNoSymbols | diagnosis/mcp/gene_checker_server.py:16 | missing or null interpretations give the empty set without raising |
| GeneChecker.NoDiagnosisNoSymbols | diagnosis/mcp/gene_checker_server.py:17 | a missing or null diagnosis contributes nothing without raising |
| GeneChecker.MissingLevelNoSymbol | diagnosis/mcp/gene_checker_server.py:19-21 | a missing or null variantInterpretation contributes nothing without raising |
| GeneChecker.ExtractTruthGeneSymbols | diagnosis/mcp/gene_checker_server.py:13-26 | the nested loops compute exactly the truth symbols, or raise where the value does |
| GeneChecker.VerdictSpec | diagnosis/mcp/gene_checker_server.py:38-53 | a missing or unparsable file gives "No"; otherwise raising follows the extraction, and the verdict is "Yes" iff some truth symbol is among the normalised guesses |
| GeneChecker.GuessedSetMembership | diagnosis/mcp/gene_checker_server.py:48 | a guess is kept iff it is a non-blank string, and is kept normalised |
| GeneChecker.GuessOrderIrrelevant | diagnosis/mcp/gene_checker_server.py:48-53 | the verdict ignores the order and repetition of guesses |
| GeneChecker.NormalizeIgnoresCase | diagnosis/mcp/gene_checker_server.py:24 | normalisation ignores ASCII case, and so does blankness |
| GeneChecker.LowerGuesses | diagnosis/mcp/gene_checker_server.py:48 | every string guess lower-cased, others unchanged |
| GeneChecker.GuessedSetLower | diagnosis/mcp/gene_checker_server.py:48 | lower-cased guesses give the same normalised set |
| GeneChecker.GuessCaseIrrelevant | diagnosis/mcp/gene_checker_server.py:48-53 | the verdict does not depend on the case of the guesses |
| GeneCheckerClient.Iterate | diagnosis/mcp/test_gene_checker.py:26 | `v or []` visits nothing for a missing or falsy value and a list's items for a list |
| GeneCheckerClient.KeysOf | diagnosis/mcp/test_gene_checker.py:28 | iterating a dict visits its keys |
| GeneCheckerClient.CharsOf | diagnosis/mcp/test_gene_checker.py:28 | iterating a string visits its characters |
| GeneCheckerClient.FeatureLabelSpec | diagnosis/mcp/test_gene_checker.py:29-32 | a feature gives str() of its type's truthy label, else of its truthy id, else nothing; a falsy feature or type is empty, and a truthy non-dict raises |
| GeneCheckerClient.FeatureLabelNonEmpty | diagnosis/mcp/test_gene_checker.py:30-32 | a collected label is never empty |
| GeneCheckerClient.LabelsOfSpec | diagnosis/mcp/test_gene_checker.py:26-32 | labels are collected iff no feature raises; each comes from a feature, and each feature with a label gives one |
| GeneCheckerClient.LabelsFailurePersists | diagnosis/mcp/test_gene_checker.py:28-32 | once a feature raises, the summary raises |
| GeneCheckerClient.LabelsStep | diagnosis/mcp/test_gene_checker.py:28-32 | one more feature appends its label, if any |
| GeneCheckerClient.ExtractPhenotypeSummary | diagnosis/mcp/test_gene_checker.py:21-33 | the loop computes the summary: the labels joined by ", ", or the fixed sentence |
| GeneCheckerClient.JoinNonEmpty | diagnosis/mcp/test_gene_checker.py:33 | joining pieces whose first is non-empty gives a non-empty string |
| GeneCheckerClient.SummaryNonEmpty | diagnosis/mcp/test_gene_checker.py:33 | the summary is never empty, and is the fixed sentence when no label was collected |
| GeneCheckerClient.NoFeaturesSentence | diagnosis/mcp/test_gene_checker.py:26-33 | a packet without truthy features gets "No phenotypic features provided." |
| GeneCheckerClient.BracketSpanSpec | diagnosis/mcp/test_gene_checker.py:90-93 | the span is the text, or its part from the first `[` to the last `]` |
| GeneCheckerClient.SliceKeepsArrays | diagnosis/mcp/test_gene_checker.py:88-93 | a reply that, stripped, is empty or starts with `[` is left alone; any other is cut to the bracket span |
| GeneCheckerClient.SliceJsonArrayIdempotent | diagnosis/mcp/test_gene_checker.py:88-93 | slicing a sliced reply changes nothing |
| GeneCheckerClient.ParsedGuesses | diagnosis/mcp/test_gene_checker.py:95-98 | a reply that is not a list yields no guesses |
| GeneCheckerClient.KeepGuesses | diagnosis/mcp/test_gene_checker.py:97 | the kept guesses are no more than the items |
| GeneCheckerClient.KeptGuessStripped | diagnosis/mcp/test_gene_checker.py:97 | a kept guess is stripped and not blank |
| GeneCheckerClient.KeepGuessesSpec | diagnosis/mcp/test_gene_checker.py:97 | the kept guesses are exactly those the non-blank string items give, stripped |
| GeneCheckerClient.CleanManualGuesses | diagnosis/mcp/test_gene_checker.py:172 | cleaning keeps no more guesses than it is given |
| GeneCheckerClient.AsJson | diagnosis/mcp/test_gene_checker.py:172 | command-line guesses as JSON strings, in order |
| GeneCheckerClient.ManualLikeParsed | diagnosis/mcp/test_gene_checker.py:172 | command-line guesses are cleaned exactly as the strings of a parsed reply |
| GeneCheckerClient.CleanFixesStripped | diagnosis/mcp/test_gene_checker.py:172 | already stripped, non-blank guesses are kept as they are |
| GeneCheckerClient.CleanManualIdempotent | diagnosis/mcp/test_gene_checker.py:172 | cleaning twice is cleaning once |
| GeneCheckerClient.NormalizeKept | diagnosis/mcp/test_gene_checker.py:172 | normalising a stripped guess is normalising the guess |
| GeneCheckerClient.GuessedFromClean | diagnosis/mcp/test_gene_checker.py:172 | a guess in the checker's set after cleaning was in it before |
| GeneCheckerClient.GuessedFromRaw | diagnosis/mcp/test_gene_checker.py:172 | a guess in the checker's set before cleaning stays after |
| GeneCheckerClient.CleaningKeepsGuessedSet | diagnosis/mcp/test_gene_checker.py:172 | cleaning does not change the set the checker compares with the truth |
| RenamePhenopackets.IdRegistry.constructor | diagnosis/scripts/rename_phenopackets_to_uid.py:109 | the registry starts empty |
| RenamePhenopackets.IdRegistry.AssignUniqueId | diagnosis/scripts/rename_phenopackets_to_uid.py:27-58 | a free base id, or one held by the same source, is returned without a collision; otherwise the first candidate (alt, alt-2, alt-3, ...) free or held by the source is returned and flagged; the id is then recorded for the source |
| RenamePhenopackets.CandidateDistinct | diagnosis/scripts/rename_phenopackets_to_uid.py:50-56 | the candidates are pairwise distinct, so the suffix loop ends |
| RenamePhenopackets.AssignmentKeepsOthers | diagnosis/scripts/rename_phenopackets_to_uid.py:41-58 | the returned id is held by the source, at most that key is added, no other source's entry changes, and a base already held by the source leaves the map unchanged |
| RenamePhenopackets.Suffix | diagnosis/scripts/rename_phenopackets_to_uid.py:68 | `Path.suffix` is empty or a dot with no further dot, shorter than the name |
| RenamePhenopackets.IsJsonFileSpec | diagnosis/scripts/rename_phenopackets_to_uid.py:68-69 | a file is copied iff its name ends in `.json` in any case after at least one character |
| RenamePhenopackets.BareJsonSkipped | diagnosis/scripts/rename_phenopackets_to_uid.py:68-69 | a file named `.json` is skipped |
| RenamePhenopackets.UpperJsonCopied | diagnosis/scripts/rename_phenopackets_to_uid.py:68-69 | the suffix test ignores case |
| RenamePhenopackets.LastSuffixCounts | diagnosis/scripts/rename_phenopackets_to_uid.py:68-69 | only the last suffix counts |
| RenamePhenopackets.UpdateSubjectSpec | diagnosis/scripts/rename_phenopackets_to_uid.py:81-90 | an object packet has subject.id set, keeping an object subject's other members and replacing any other subject, with every other member unchanged; a non-object packet is untouched |
| RenamePhenopackets.MappingRow | diagnosis/scripts/rename_phenopackets_to_uid.py:99 | the row is source, destination and id, with status "collision" iff a collision was resolved, else "ok" |
| RenamePhenopackets.ProcessFile | diagnosis/scripts/rename_phenopackets_to_uid.py:61-99 | non-JSON names and unparsable files are skipped without touching the registry; any other is assigned an id and written under it |
| RenamePhenopackets.NamesOf | diagnosis/scripts/rename_phenopackets_to_uid.py:116-118 | the names of a directory's entries, in order |
| RenamePhenopackets.EntryNamed | diagnosis/scripts/rename_phenopackets_to_uid.py:116-118 | an entry found by name is listed under that name |
| RenamePhenopackets.EntryNamedDistinct | diagnosis/scripts/rename_phenopackets_to_uid.py:116-118 | with distinct names, the entry found is the one listed |
| RenamePhenopackets.FilterNames | diagnosis/scripts/rename_phenopackets_to_uid.py:116-119 | `is_dir()`/`is_file()` keeps exactly the names of entries of that kind |
| RenamePhenopackets.FilterNamesDistinct | diagnosis/scripts/rename_phenopackets_to_uid.py:116-119 | filtering keeps names distinct |
| RenamePhenopackets.FilterAscending | diagnosis/scripts/rename_phenopackets_to_uid.py:116-119 | filtering keeps names sorted |
| RenamePhenopackets.GeneDirs | diagnosis/scripts/rename_phenopackets_to_uid.py:116 | the gene directories come in ascending order |
| RenamePhenopackets.GeneDirsSpec | diagnosis/scripts/rename_phenopackets_to_uid.py:116 | the genes walked are exactly the sub-directories of the store |
| RenamePhenopackets.FilesIn | diagnosis/scripts/rename_phenopackets_to_uid.py:118-119 | a gene directory's files come in ascending order |
| RenamePhenopackets.FileVisits | diagnosis/scripts/rename_phenopackets_to_uid.py:117-120 | each file is visited at its path and copied to the gene's target directory |
| RenamePhenopackets.FileVisitsSnoc | diagnosis/scripts/rename_phenopackets_to_uid.py:118-120 | visiting one more file appends its visit |
| RenamePhenopackets.ChildrenOf | diagnosis/scripts/rename_phenopackets_to_uid.py:118 | a gene directory's entries have distinct names |
| RenamePhenopackets.GenesVisitsSnoc | diagnosis/scripts/rename_phenopackets_to_uid.py:116-120 | walking one more gene appends its visits |
| RenamePhenopackets.CopiedVisits | diagnosis/scripts/rename_phenopackets_to_uid.py:118-120 | only visits that produce a copy are kept |
| RenamePhenopackets.CopiedVisitsSnoc | diagnosis/scripts/rename_phenopackets_to_uid.py:118-120 | one more visit adds a copy iff it is copied |
| RenamePhenopackets.AssignmentFollowsIdRule | diagnosis/scripts/rename_phenopackets_to_uid.py:41-58 | an id given without a collision is `<prefix>-<content hash>`; one given after a collision is a candidate that follows `<prefix>-<content hash>-<path hash>` |
| RenamePhenopackets.MatchesIdsHeld | diagnosis/scripts/rename_phenopackets_to_uid.py:41-58 | two copies with one id come from one source, so copies of visits with distinct paths have distinct ids |
| RenamePhenopackets.HeldSpec | diagnosis/scripts/rename_phenopackets_to_uid.py:41-57 | the registry left by a run of copies holds exactly their ids, each for the source of a copy that took it |
| RenamePhenopackets.HeldPrefix | diagnosis/scripts/rename_phenopackets_to_uid.py:57 | recording one more copy updates the registry at its id with its source |
| RenamePhenopackets.CollidedIffBaseHeld | diagnosis/scripts/rename_phenopackets_to_uid.py:40-58 | a copy is flagged collided (status "collision") exactly when an earlier copy from another source holds its base id; an unflagged copy has the base id |
| RenamePhenopackets.MatchesAppend | diagnosis/scripts/rename_phenopackets_to_uid.py:57-58 | recording one more copy whose id was assigned against the current registry keeps the copies in step with the walk and the registry equal to the one the copies leave |
| RenamePhenopackets.ProcessStep | diagnosis/scripts/rename_phenopackets_to_uid.py:118-120 | processing one more file keeps the copies in step with the walk, each assigned its id in turn against the registry of the copies before it |
| RenamePhenopackets.CopyGeneDir | diagnosis/scripts/rename_phenopackets_to_uid.py:117-120 | the files of one gene directory are copied in sorted order and appended; every copy is assigned its id in turn, by the full assign_unique_id rule against the registry the earlier copies leave; the registry is exactly the one the copies leave |
| RenamePhenopackets.GeneDirsDisjoint | diagnosis/scripts/rename_phenopackets_to_uid.py:116-118 | a path inside one gene directory is inside no other |
| RenamePhenopackets.FileVisitsDistinct | diagnosis/scripts/rename_phenopackets_to_uid.py:118-120 | the files of one directory are visited at distinct paths, all inside it |
| RenamePhenopackets.GeneVisitsDistinct | diagnosis/scripts/rename_phenopackets_to_uid.py:117-120 | the files of one gene directory have distinct paths inside it and outside every other gene's |
| RenamePhenopackets.GenesVisitsDistinct | diagnosis/scripts/rename_phenopackets_to_uid.py:116-120 | walking distinct gene directories visits distinct paths, none inside a gene not walked |
| RenamePhenopackets.CopiedVisitsDistinct | diagnosis/scripts/rename_phenopackets_to_uid.py:118-120 | keeping only the copied visits keeps the paths distinct |
| RenamePhenopackets.WalkDistinct | diagnosis/scripts/rename_phenopackets_to_uid.py:116-120 | the walk of a store copies each path once |
| RenamePhenopackets.RenameStore | diagnosis/scripts/rename_phenopackets_to_uid.py:102-120 | a missing source directory stops the run; otherwise the copies are one per copied file of the sorted walk, in order; each id is `<prefix>-<content hash>` or, after a collision, a candidate after `<prefix>-<content hash>-<path hash>`; distinct copies have distinct ids and copies that share an id share a source; each copy's id and status are what assign_unique_id gives against the registry of the copies before it, and a copy is flagged collided (status "collision") exactly when an earlier copy from another source holds its base id |
| IgvRoute.FindHgvsC | api/src/routes/igv.ts:27-28 | `find` gives the first expression whose syntax is hgvs.c, or nothing when none is |
| IgvRoute.HgvsOf | api/src/routes/igv.ts:27-29 | the hgvs field is never a JSON null |
| IgvRoute.HgvsSpec | api/src/routes/igv.ts:27-29 | hgvs is the value of the first hgvs.c expression, null when expressions is not an array or holds none |
| IgvRoute.ExtractVariantSpec | api/src/routes/igv.ts:20-44 | a variant is reported iff chrom, pos, ref and alt of the first descriptor's VCF record are truthy and none of their conversions raises; its fields are those values converted, with gene and assembly copied unless null |
| IgvRoute.CaughtConversionGivesNull | api/src/routes/igv.ts:40-43 | when String() or Number() of one of the four fields raises, the error is caught and the packet shows no variant |
| IgvRoute.PlainFieldsShown | api/src/routes/igv.ts:31-34 | non-empty string chrom, ref and alt and a non-zero integer pos are reported unchanged |
| IgvRoute.OwnToStringWitness | api/src/routes/igv.ts:31-43 | a record whose chrom is `{"toString": 1}` yields no variant |
| IgvRoute.FalsyFieldsGiveNull | api/src/routes/igv.ts:26 | position 0 or an empty chromosome shows no variant |
| IgvRoute.JsonNames | api/src/routes/igv.ts:50 | exactly the names ending in `.json` are kept |
| IgvRoute.JsonNamesDistinct | api/src/routes/igv.ts:50 | filtering keeps names distinct |
| IgvRoute.SelectedSpec | api/src/routes/igv.ts:49-52 | the selection is ascending, holds min(10, count) `.json` names of the directory, and every `.json` name left out sorts after every one kept |
| IgvRoute.EntryOf | api/src/routes/igv.ts:65-69 | the entry keeps the file name; id is `data.id` unless null or absent; a truthy parsed packet carries its extracted variant, and an unparsable or falsy one carries null |
| IgvRoute.Phenopackets | api/src/routes/igv.ts:46-70 | a failed listing ends with its message; otherwise it succeeds iff every read does, with one entry per selected file in order, and otherwise fails with the first failed read's message |
| IgvRoute.EntryJson | api/src/routes/igv.ts:53-57 | a listed entry is sent as an object whose `file` is the file name, whose `id` is the id or null and whose `variant` is the variant object or null |
| IgvRoute.ResponseOf | api/src/routes/igv.ts:71-76 | success replies 200 with one `files` entry per result, carrying its file name, its id or null, and its variant or null; failure replies 500 with the error message |
| JsValues.Prop | api/src/routes/igv.ts:22-25 | `v?.key` is defined only on an object |
| JsValues.OrNull | api/src/routes/igv.ts:35-37 | `v ?? null` is defined iff the value is present and not null, and is then the value |
| JsValues.NumberToString | frontend/src/components/IGVBrowser.tsx:41 | an integer-valued number is written as its decimal digits, and the result starts with a minus sign iff the number is negative |
| JsValues.ToString | api/src/routes/igv.ts:31-34 | String() of undefined is "undefined", of null "null", of a string the string itself and of an integer its decimal digits |
| JsValues.TryToString | api/src/routes/igv.ts:31-34 | String() raises a TypeError exactly on an object with its own `toString` member or an array holding one at any depth, and otherwise gives the string |
| JsValues.StringToNumber | api/src/routes/igv.ts:32 | a blank string is 0, and every number read from a string is an integer |
| JsValues.ToNumber | api/src/routes/igv.ts:32 | Number() of undefined is NaN, of an integer that integer, and of a string the string's number |
| JsValues.TryToNumber | api/src/routes/igv.ts:32 | Number() raises a TypeError exactly where String() does, and otherwise gives the number |
| JsValues.NumberOfIntString | api/src/routes/igv.ts:31-32 | Number(String(i)) is i for every integer |
| JsValues.NumberOfNumberString | frontend/src/components/IGVBrowser.tsx:41 | reading back the rendering of an integer-valued number gives that number |
| JsValues.PrimitivesConvert | api/src/routes/igv.ts:31-34 | the conversions of null, booleans, numbers and strings never raise |
| JsValues.OwnToStringThrows | api/src/routes/igv.ts:31-32 | String({"toString": 1}) and Number([[{"toString": 1}]]) raise, while String({"valueOf": 1}) is "[object Object]" |
| Asr.ExtFromMime | api/src/lib/asr.ts:11-16 | the extension is one of webm, mp3, wav and bin |
| Asr.RuleOrder | api/src/lib/asr.ts:11-16 | the rules are tried in order: webm iff the type names webm; mp3 iff it does not and names mp3 or mpeg; then wav, else bin, each iff the earlier ones fail |
| Asr.ExtIgnoresCase | api/src/lib/asr.ts:12-14 | the `/i` tests ignore the case of the MIME type |
| Asr.XWavContainsWav | api/src/lib/asr.ts:14 | the `x-wav` alternative adds nothing to `wav` |
| Asr.WebmName | api/src/lib/asr.ts:12 | `audio/webm` is sent as `.webm` |
| Asr.OggName | api/src/lib/asr.ts:15 | `audio/ogg`, though the upload filter admits it, is sent as `.bin` |
| Asr.ResultOf | api/src/lib/asr.ts:29-33 | the transcript is the text or "", the language or "en", and exactly one segment from 0 to 0 with the transcript's text |
| Transcribe.FileFilter | api/src/routes/transcribe.ts:11-30 | a rejection carries `unsupported_media_type` |
| Transcribe.OkTypesAccepted | api/src/routes/transcribe.ts:12-24 | every listed MIME type is admitted, whatever the name |
| Transcribe.ExtensionAccepted | api/src/routes/transcribe.ts:25 | a name ending in a listed extension is admitted, whatever the type |
| Transcribe.NameCaseIgnoredTypeCaseNot | api/src/routes/transcribe.ts:24-29 | the extension test ignores case, the type test does not |
| Transcribe.Receive | api/src/routes/transcribe.ts:8-31 | no file gives no file; the upload fails iff the filter rejects the file (with `unsupported_media_type`) or it is over 20 MiB (with `LIMIT_FILE_SIZE`); an admitted file within the limit is stored |
| Transcribe.CatchResponse | api/src/routes/transcribe.ts:43-50 | `unsupported_media_type` gives 415 (checked first), `LIMIT_FILE_SIZE` 413, everything else 500, each with its error body |
| Transcribe.Handle | api/src/routes/transcribe.ts:36-51 | a missing file gives 400 `missing_file`; a reply gives 200 with its result; a throw goes to the catch mapping |
| Transcribe.UploadErrorsMissCatch | api/src/routes/transcribe.ts:35-50 | as wired, a rejected or oversized upload gets the default 500 page, and 413/415 only come from the recogniser |
| Transcribe.UploadErrorWitness | api/src/routes/transcribe.ts:29-44 | a plain-text upload gets 500 as wired where 415 was meant |
| Transcribe.ServeIntendedStatuses | api/src/routes/transcribe.ts:33-52 | with upload errors mapped by the catch block: 400, 415, 413 or the handler's response, and 200 iff a file is stored and recognised |
| IgvBrowser.RowSplits | frontend/src/components/IGVBrowser.tsx:41 | the record splits back into exactly its eight columns: chrom, pos, ".", ref, alt, ".", "PASS", info or "" |
| IgvBrowser.VcfLines | frontend/src/components/IGVBrowser.tsx:39-42 | the document is the file-format line, the column line, the record and a final newline |
| IgvBrowser.MissingInfoEmpty | frontend/src/components/IGVBrowser.tsx:41 | an absent INFO leaves the eighth column empty, the same as an empty INFO |
| IgvBrowser.CreateVcfDataUri | frontend/src/components/IGVBrowser.tsx:31-44 | btoa raises iff a character is above U+00FF; otherwise the URI is the prefix and a base-64 text that decodes to the document's bytes |
| IgvBrowser.KeepTruthy | frontend/src/components/IGVBrowser.tsx:151 | `filter(Boolean)` keeps only non-empty strings |
| IgvBrowser.InfoSpec | frontend/src/components/IGVBrowser.tsx:147-152 | INFO is "", `GENE=g`, `HGVS=h` or `GENE=g;HGVS=h` as the gene and hgvs are truthy |
| IgvBrowser.InfoSplits | frontend/src/components/IGVBrowser.tsx:147-152 | with both parts, INFO splits back into the two key=value pairs |
| IgvBrowser.VariantTrackUri | frontend/src/components/IGVBrowser.tsx:147-164 | a variant's track URI fails iff its document is not Latin-1, and otherwise starts with the data-URI prefix |
| IgvBrowser.VariantTrackColumns | frontend/src/components/IGVBrowser.tsx:158-164 | a variant's record has eight columns, the last its INFO string |
| IgvBrowser.Toggled | frontend/src/components/IGVBrowser.tsx:84-92 | the toggled file's membership flips and every other membership stays |
| IgvBrowser.HandleFileToggle | frontend/src/components/IGVBrowser.tsx:84-92 | copying the set and deleting or adding the file gives the toggled selection |
| IgvBrowser.ToggleTwice | frontend/src/components/IGVBrowser.tsx:84-92 | toggling twice restores the selection |
| IgvBrowser.ToggleSize | frontend/src/components/IGVBrowser.tsx:84-92 | a toggle changes the selection's size by exactly one |
| IgvBrowser.FindIndex | frontend/src/components/IGVBrowser.tsx:108 | `findIndex` is -1 iff the file is absent, and otherwise its first position |
| IgvBrowser.FindIndexAt | frontend/src/components/IGVBrowser.tsx:108 | `findIndex` returns the first position holding the file |
| IgvBrowser.JsRemainder | frontend/src/components/IGVBrowser.tsx:108 | JavaScript's `%` takes the sign of the dividend |
| IgvBrowser.TrackColorSpec | frontend/src/components/IGVBrowser.tsx:95-110 | an unlisted file gets undefined; a listed one gets the palette entry at its first position mod 10 |
| IgvBrowser.ColorAt | frontend/src/components/IGVBrowser.tsx:95-110 | in a listing of distinct files, position i gets palette entry i mod 10 |
| IgvBrowser.FirstTenColorsDistinct | frontend/src/components/IGVBrowser.tsx:96-109 | the first ten tracks get ten different colours |
| IgvBrowser.ColorsRepeatEveryTen | frontend/src/components/IGVBrowser.tsx:96-109 | positions ten apart share a colour |
| IgvBrowser.PaletteDistinct | frontend/src/components/IGVBrowser.tsx:96-107 | the ten palette colours are distinct |
| Base64.Char | frontend/src/components/IGVBrowser.tsx:43 | an alphabet character is never the pad character |
| Base64.Value | frontend/src/components/IGVBrowser.tsx:43 | the value of an alphabet character encodes back to it |
| Base64.ValueOfChar | frontend/src/components/IGVBrowser.tsx:43 | decoding a character recovers its 6-bit group |
| Base64.Encode | frontend/src/components/IGVBrowser.tsx:43 | the output takes 4 characters per started group of 3 bytes and uses the alphabet and "=" only |
| Base64.Decode | frontend/src/components/IGVBrowser.tsx:43 | only texts whose length is a multiple of 4 decode |
| Base64.DecodeFull | frontend/src/components/IGVBrowser.tsx:43 | a full group decodes to three bytes |
| Base64.DecodeLast | frontend/src/components/IGVBrowser.tsx:43 | a final group decodes to one to three bytes |
| Base64.Group3 | frontend/src/components/IGVBrowser.tsx:43 | a group of three bytes round-trips |
| Base64.Group2 | frontend/src/components/IGVBrowser.tsx:43 | a padded group of two bytes round-trips |
| Base64.Group1 | frontend/src/components/IGVBrowser.tsx:43 | a padded group of one byte round-trips |
| Base64.DecodeEncode | frontend/src/components/IGVBrowser.tsx:43 | decoding undoes encoding for every byte sequence |
| Base64.EncodeInjective | frontend/src/components/IGVBrowser.tsx:43 | different byte sequences have different encodings |
| Base64.Latin1Bytes | frontend/src/components/IGVBrowser.tsx:43 | each character becomes the byte of its code |
| Base64.Btoa | frontend/src/components/IGVBrowser.tsx:43 | btoa fails with InvalidCharacterError iff a character is above U+00FF |
| Base64.BtoaDecodes | frontend/src/components/IGVBrowser.tsx:43 | btoa of Latin-1 text succeeds, has the expected length and decodes to the character codes |
| Text.Split | api/src/lib/hpo_gene_index.ts:43 | `split` gives pieces without the separator that join back to the text |
| Text.SplitJoin | api/src/lib/hpo_gene_index.ts:43 | splitting a join of separator-free pieces gives the pieces back |
| Text.SplitNoSep | api/src/lib/hpo_gene_index.ts:43 | a text without the separator is one piece |
| Text.SplitCons | api/src/lib/hpo_gene_index.ts:43 | a separator-free first piece splits off first |
| Text.AsciiUpper | api/src/lib/hpo_gene_index.ts:46-47 | upper-casing maps each character and keeps the length |
| Text.AsciiLower | api/src/lib/hpo_gene_index.ts:39 | lower-casing maps each character and keeps the length |
| Text.UpperChar | api/src/lib/hpo_gene_index.ts:46-47 | a lower-case ASCII letter becomes its capital; any other character stays |
| Text.LowerChar | api/src/lib/hpo_gene_index.ts:39 | a capital ASCII letter becomes lower-case; any other character stays |
| Text.UpperOfLower | diagnosis/mcp/gene_checker_server.py:48 | upper-casing after lower-casing is upper-casing |
| Text.LowerOfUpper | api/src/routes/transcribe.ts:25 | lower-casing after upper-casing is lower-casing |
| Text.LowerIdempotent | api/src/lib/asr.ts:12-14 | lower-casing twice is lower-casing once |
| Text.UpperIdempotent | diagnosis/mcp/gene_checker_server.py:48 | upper-casing twice is upper-casing once |
| Text.StripLeft | diagnosis/mcp/gene_checker_server.py:24 | the leading whitespace is removed and nothing more |
| Text.StripRight | diagnosis/mcp/gene_checker_server.py:24 | the trailing whitespace is removed and nothing more |
| Text.Strip | diagnosis/mcp/gene_checker_server.py:24 | a stripped string neither starts nor ends with whitespace |
| Text.StripLeftFixed | diagnosis/mcp/gene_checker_server.py:24 | a string not starting with whitespace loses nothing on the left |
| Text.StripRightFixed | diagnosis/mcp/gene_checker_server.py:24 | a string not ending with whitespace loses nothing on the right |
| Text.StripFixed | diagnosis/mcp/test_gene_checker.py:172 | a string trimmed at both ends is its own strip |
| Text.StripIdempotent | diagnosis/mcp/test_gene_checker.py:172 | stripping twice is stripping once |
| Text.StripEmptyIff | diagnosis/mcp/test_gene_checker.py:97 | strip is empty iff every character is whitespace |
| Text.UpperPreservesStrip | api/src/lib/hpo_gene_index.ts:66 | upper-casing a stripped string keeps it stripped |
| Text.MapChars | api/src/lib/hpo_gene_index.ts:66 | the characters each mapped, in place |
| Text.AsciiCaseIsMapChars | api/src/lib/hpo_gene_index.ts:66 | case mapping works character by character |
| Text.StripLeftCommutes | diagnosis/mcp/gene_checker_server.py:24 | left stripping commutes with a mapping that keeps whitespace apart |
| Text.StripRightCommutes | diagnosis/mcp/gene_checker_server.py:24 | right stripping commutes with such a mapping |
| Text.StripCommutes | diagnosis/mcp/gene_checker_server.py:24 | stripping commutes with such a mapping |
| Text.PyStripCommutesWithCase | diagnosis/mcp/gene_checker_server.py:24 | `strip().upper()` equals `upper().strip()` |
| Text.ContainsAt | api/src/lib/asr.ts:12-14 | an occurrence at a position means the pattern is contained |
| Text.ContainsIndex | api/src/lib/asr.ts:12-14 | a contained pattern occurs at some position |
| Text.ContainsFirstChar | api/src/lib/asr.ts:12-14 | a text holding a pattern holds its first character |
| Text.FirstCharAbsent | api/src/lib/asr.ts:12-14 | a text without a pattern's first character does not hold it |
| Text.FindFirst | diagnosis/mcp/test_gene_checker.py:90 | `find` is -1 iff the character is absent, and otherwise its first position |
| Text.FindLast | diagnosis/mcp/test_gene_checker.py:91 | `rfind` is -1 iff the character is absent, and otherwise its last position |
| Text.DigitChar | diagnosis/scripts/rename_phenopackets_to_uid.py:55 | the digit character of a digit value |
| Text.NatToDecimal | diagnosis/scripts/rename_phenopackets_to_uid.py:55 | decimals are non-empty digit strings, one digit exactly below 10 |
| Text.NatToDecimalInjective | diagnosis/scripts/rename_phenopackets_to_uid.py:52-56 | different suffix numbers render differently |
| Text.StrLtIrreflexive | api/src/lib/hpo_gene_index.ts:101 | the string order is irreflexive |
| Text.StrLtTransitive | api/src/lib/hpo_gene_index.ts:101 | the string order is transitive |
| Text.StrLtTotal | api/src/lib/hpo_gene_index.ts:101 | distinct strings are ordered one way or the other |
| Text.StrLtAsymmetric | api/src/lib/hpo_gene_index.ts:101 | the string order is asymmetric |
| Sorting.Insert | diagnosis/scripts/rename_phenopackets_to_uid.py:116 | insertion keeps names sorted and adds exactly one |
| Sorting.SortStrings | diagnosis/scripts/rename_phenopackets_to_uid.py:116-118 | `sorted` of distinct names is ascending with the same names |
| Sorting.AscendingUnique | api/src/routes/igv.ts:51 | two ascending lists of the same names are the same |
| Sorting.SortStringsUnique | api/src/routes/igv.ts:51 | any ascending listing of the names is the sorted one |
| Json.Lookup | diagnosis/mcp/gene_checker_server.py:16 | `d.get(k)` is absent iff no member has the key, and otherwise a member's value |
| Json.SetMember | diagnosis/scripts/rename_phenopackets_to_uid.py:84-87 | setting a key gives it the value and leaves every other key alone |
| PyValues.StrOfTruthyNonEmpty | diagnosis/mcp/test_gene_checker.py:31-32 | `str()` of a truthy value is non-empty |
| PyValues.StrSpec | diagnosis/mcp/gene_checker_server.py:24 | `str()` of a string is the string itself, of None "None" and of an integer its decimal digits |
| PyValues.ReprSpec | diagnosis/mcp/test_gene_checker.py:32 | `repr()` quotes a string, writes booleans as True and False and an integer-valued float with a trailing ".0" |

## Left out

- The file system:
  - `existsSync`, `readFileSync` and `readdir`;
  - Python's `open`, `mkdir`, `json.load`/`json.dump` and the CSV writer.
  Their results are inputs (see above), and the written files and mapping rows are returned rather than written.
  A listed name is taken to contain no `/`, as no directory entry does.
  The source directory is taken to have no trailing `/`: `JoinPath` writes `dir + "/" + name`, which gives "//x" for the root, where pathlib gives "/x". That string is also what the path hash is computed from.
- JSON parsing. Documents are parsed trees, and an object's keys are taken to be distinct.
- SHA-256 and the hex prefixes: `compute_stable_hash_for_json_content` and `compute_short_path_hash` are function parameters.
- The remote services are not modelled:
  - the speech recogniser call in `transcribeWithASR`;
  - the model call in `call_gpt5_get_gene_guesses` and the parsing of its reply into text;
  - the `_result_to_text` helper;
  - every other LLM, HTTP and MCP transport.
- Express and multer wiring beyond the upload middleware's observable decision: memory storage, the router, JSON serialisation.
- React state, effects and rendering in the genome browser component. That includes the locus computation and the filter of selected variants into tracks; only the data URI, INFO string, toggle and colour of a track are modelled.
- The three orders of the source:
  - HpoGeneIndex.SortHits: the tie-break `localeCompare` (api/src/lib/hpo_gene_index.ts:101) is modelled as code-point order. The real order depends on the runtime's locale collation, so gene symbols that differ in case or accents may tie-break differently.
  - IgvRoute.SelectedSpec: `.sort()` (api/src/routes/igv.ts:51) compares UTF-16 code units, which the model takes as code points. The two orders differ only on names holding characters above U+FFFF.
  - `sorted()` of the paths of one directory (diagnosis/scripts/rename_phenopackets_to_uid.py:116, 118) compares their names by code point, so the gene directories and files are walked in exactly the modelled order.
- Floating point. Scores and weights are exact reals, so double rounding, and with it tie detection by `===`, is not modelled.
- RankGenesTool.Round6: models `toFixed(6)` as exact-real rounding with halves away from zero. Double-precision representation is not modelled.
- Text.AsciiUpper and Text.AsciiLower: case mapping covers the ASCII letters only. JavaScript's and Python's full Unicode case mapping is not modelled.
- PyValues.Repr: Python's `repr` is written without string escaping. A float is written like JsValues.NumberToString, with at most six fraction digits and no exponent form, where Python writes `repr(1e-07)` as `1e-07` and `repr(1e16)` as `1e+16`.
- JsValues.NumberToString: keeps at most six fraction digits (cut, not rounded) and has no exponent form. JavaScript's shortest round-trip rendering is not modelled: `String(1.5e-7)` is "1.5e-7", `String(0.1234567)` is "0.1234567" and `String(1e21)` is "1e+21".
- JsValues.ToString: a JSON integer above 2^53 is written exactly, where JavaScript writes the nearest double (`String(12345678901234567890)` is "12345678901234567000").
- JsValues.StringToNumber: reads only an optionally signed run of decimal digits. Decimal fractions ("1.5"), exponents ("1e3"), hexadecimal, octal and binary literals ("0x1A") and "Infinity" give NaN here, where JavaScript gives numbers. A digit string above 2^53 is read exactly, where `Number("12345678901234567890")` gives the nearest double.
- JsValues.ToNumber: a JSON integer above 2^53 is taken exactly, not as the nearest double.
- IgvBrowser.Info: a gene or hgvs value that is an object with its own `toString` member, or an array holding one, makes the `GENE=${v.gene}` template literal raise while the component renders. That render-time error is not modelled; the INFO string is built from String() as for an ordinary value.
- RenamePhenopackets.ProcessFile and RenamePhenopackets.RenameStore: a file that is not valid UTF-8 is treated like one that does not parse and is skipped. In the source, `json.load` then raises UnicodeDecodeError, which `except json.JSONDecodeError` (diagnosis/scripts/rename_phenopackets_to_uid.py:71-76) does not catch, so the whole `rename_store` run aborts. RenameStore here still succeeds.
- IgvBrowser.TrackColor: looks only at the file names of the listing, not the whole entries `findIndex` walks over.
- Console logging and `print` output.

## Findings

| source | as written | input that shows it | evidently intended | confidence | as-written member | corrected member |
|---|---|---|---|---|---|---|
| api/src/routes/transcribe.ts:29-49 | the file filter and the size limit raise inside `upload.single("file")`, which hands the error to the framework's default handler; the route's catch block never sees it, so its 415 and 413 branches are dead for upload errors | an upload `notes.txt` of type `text/plain`, 10 bytes: as wired the reply is the default 500 page | a rejected type gives 415 `unsupported_media_type` and an oversized file gives 413 `file_too_large`, as the catch block's branches test for | not executed | Transcribe.UploadErrorWitness | Transcribe.ServeIntendedStatuses |
