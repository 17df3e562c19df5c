# gs_assist query preprocessing — a Dafny model

This project models the query-preprocessing core of gs_assist, an ERP assistant. The core turns a user's
natural-language question into entity candidates mapped to business entities. The parts modelled are:

- **The preprocessing pipeline** (`PipeLine` in `preprocessing/__init__.py`). It cleans the query and chunks it
  at stop words. It collects the meaningful words and expands them with business vocabulary. It then generates
  candidates in four tiers (chunk, adjacent-word sub-phrase, meaningful word, expanded term), drops candidates
  that overlap a kept phrase, and maps the rest to entities.
- **The business vocabulary expander** (`business_vocabulary.py`). It expands words and query terms, lists all
  business terms, and expands candidate lists.
- **The entity mapper** (`entity_mapper.py`). For each candidate it picks the first index hit that is within the
  distance bound, belongs to a requested group and passes the fuzzy-match test. It also builds the doctype context.
- **The Chroma-backed entity manager** (`managers/entity.py`). It cleans metadata, prepares an entity's aliases and
  groups, syncs one record per (group, alias) pair, and deletes an entity's records.
- **The lightweight in-memory entity store** (`managers/entity_lt.py`). It builds a text index and a group index.
  Its search answers each query by an exact match first, then by a brute-force or approximate nearest-neighbour
  pass over the group-filtered entities, and returns the results in query order. It also reports stats.
- **The persistent learning layer** (`preprocessing/persistent_layer.py`). This is a vector store of learned
  patterns with exact-match lookup, similarity search, stats and rebuilding of the exact-match index. On top of
  it sit a spell corrector, a phrase detector, query rebuilding, learning from user corrections, and learning
  statistics.

Objects the source updates in place are Dafny classes whose methods are proved against specification functions:

| Dafny class | source object |
|---|---|
| `Pipeline.PipeLine` | `PipeLine` |
| `Candidates.EntityCandidate` | `EntityCandidate` |
| `EntityIndex.EntityManager` | `EntityManager` |
| `LightweightStore.EntityStore` | `LightweightEntityStore` |
| `PersistentStore.VectorLearning` | `PersistentVectorLearning` |
| `PersistentLearning.SpellCorrector` | `PersistentSpellCorrector` |
| `PersistentLearning.PhraseDetector` | `PersistentPhraseDetector` |
| `PersistentLearning.Pipeline` | `PersistentPreprocessingPipeline` |

Pure computations are functions, and lemmas prove their properties.

External services are parameters. These are the sentence embedder, the vector index, the fuzzy ratio, the
clock, the id hash and the stop-word list.

## Model

| member | source | states |
|---|---|---|
| Text.LowerIsLower | gsai_assist/services/preprocessing/__init__.py:51 | lower-casing yields a lower-case string and is idempotent |
| Text.TrackFromTracked | gsai_assist/services/preprocessing/__init__.py:58-68 | word tracking yields the whitespace-separated words in order, each with its start and end offset in the query |
| Text.TrackedPairwise | gsai_assist/services/preprocessing/__init__.py:58-68 | tracked word positions never overlap and increase strictly |
| Text.FindNextTracked | gsai_assist/services/preprocessing/__init__.py:65-68 | searching for the next word from the end of the previous one finds exactly that word's tracked start |
| Text.SplitOn | gsai_assist/services/managers/entity.py:59 | splitting on a separator gives at least one part, no part holds the separator, and joining the parts back gives the input |
| Text.StripLeft | gsai_assist/services/managers/entity.py:59 | left strip removes exactly the leading whitespace |
| Text.StripRight | gsai_assist/services/managers/entity.py:59 | right strip removes exactly the trailing whitespace |
| Text.ReplaceAbsent | gsai_assist/services/preprocessing/persistent_layer.py:473-481 | replacing a pattern that does not occur leaves the text unchanged |
| Text.ReplaceBySelf | gsai_assist/services/preprocessing/persistent_layer.py:473-481 | replacing a word by itself leaves the text unchanged |
| Cleaning.ReplaceRejected | gsai_assist/services/preprocessing/__init__.py:52 | replacing rejected characters by spaces keeps the length |
| Cleaning.CollapseEnds | gsai_assist/services/preprocessing/__init__.py:53 | collapsing whitespace yields empty only for empty input and keeps a leading or trailing space exactly when the input had one |
| Cleaning.CollapseNoDoubleSpace | gsai_assist/services/preprocessing/__init__.py:53 | collapsed text never has two spaces in a row |
| Cleaning.CollapseChars | gsai_assist/services/preprocessing/__init__.py:53 | every character of collapsed text is a plain space or a non-space character of the input |
| Cleaning.CollapseCollapsed | gsai_assist/services/preprocessing/__init__.py:53 | text already made of single plain spaces is left unchanged by collapsing |
| Cleaning.CleanIsClean | gsai_assist/services/preprocessing/__init__.py:48-53 | a cleaned query is lower case, holds only word characters, spaces and kept punctuation, has no double space and no leading or trailing space |
| Cleaning.CleanFixesClean | gsai_assist/services/preprocessing/__init__.py:48-53 | cleaning an already clean query changes nothing |
| Cleaning.CleanIdempotent | gsai_assist/services/preprocessing/__init__.py:48-53 | cleaning twice equals cleaning once |
| Chunking.KeptFlags | gsai_assist/services/preprocessing/__init__.py:70-75 | a word is kept exactly when it is not a stop word, or it is a question word and nothing was kept before it |
| Chunking.StopWordKeptOnlyAtHead | gsai_assist/services/preprocessing/__init__.py:70-75 | a kept stop word is a question word and no word before it was kept |
| Chunking.NothingKeptMeansNoneKept | gsai_assist/services/preprocessing/__init__.py:70-75 | the "no chunk and no current words" test means no earlier word was kept |
| Chunking.FirstNonStop | gsai_assist/services/preprocessing/__init__.py:70-75 | once something was kept, some earlier word was the first one kept and it was kept on its own merit |
| Chunking.RunsEmpty | gsai_assist/services/preprocessing/__init__.py:76-106 | there are no runs of kept words exactly when no word is kept |
| Chunking.RunsAreMaximal | gsai_assist/services/preprocessing/__init__.py:76-106 | the runs are non-empty, ordered, separated, cover every kept word, and none can be extended |
| Chunking.ChunkOf | gsai_assist/services/preprocessing/__init__.py:83-93 | a chunk starts at its first word, ends at its last word, and its text is that slice of the query |
| Chunking.ChunksOfRuns | gsai_assist/services/preprocessing/__init__.py:76-106 | the k-th chunk holds exactly the tracked words of the k-th run |
| Chunking.FindNextWord | gsai_assist/services/preprocessing/__init__.py:65-68 | the chunker's position search finds each word at its tracked offset |
| Chunking.KeepDecision | gsai_assist/services/preprocessing/__init__.py:70-75 | the chunker's keep test with its running "nothing yet" flag equals the kept-flag specification |
| Chunking.ChunkQuery | gsai_assist/services/preprocessing/__init__.py:56-109 | the chunking loop returns exactly the chunks of the maximal runs of kept words |
| Chunking.ChunksAreMaximalRuns | gsai_assist/services/preprocessing/__init__.py:56-109 | the chunks correspond one to one, in order, to the maximal runs of kept words |
| Chunking.ChunkTextIsSlice | gsai_assist/services/preprocessing/__init__.py:83-106 | each chunk is non-empty, its offsets lie within the query, and its text is the query between them |
| Candidates.EntityCandidate.constructor | gsai_assist/services/preprocessing/__init__.py:8-15 | a new candidate has the given text, offsets, type and priority and no entity |
| Candidates.EntityCandidate.Entatise | gsai_assist/services/preprocessing/__init__.py:17-19 | entatising sets both the entity and the canonical name |
| Candidates.ChunkTierSpec | gsai_assist/services/preprocessing/__init__.py:151-160 | the chunk tier holds exactly the chunks of more than one word, as chunk candidates |
| Candidates.AddChunkCandidates | gsai_assist/services/preprocessing/__init__.py:151-160 | the loop appends exactly the chunk tier, with fresh candidates |
| Candidates.PairsSpec | gsai_assist/services/preprocessing/__init__.py:162-180 | the adjacent-pair list has one entry per pair of neighbouring words, spanning both |
| Candidates.ChunkPairsSpec | gsai_assist/services/preprocessing/__init__.py:162-180 | a chunk of two or more words yields one sub-phrase per adjacent pair, none otherwise |
| Candidates.ChunkPairsMembers | gsai_assist/services/preprocessing/__init__.py:162-180 | a chunk's sub-phrases are exactly its adjacent word pairs |
| Candidates.SubPhraseTierSpec | gsai_assist/services/preprocessing/__init__.py:162-180 | the sub-phrase tier holds exactly the adjacent pairs of every chunk |
| Candidates.AddPairs | gsai_assist/services/preprocessing/__init__.py:167-180 | the inner loop appends exactly one chunk's adjacent pairs |
| Candidates.AddSubPhraseCandidates | gsai_assist/services/preprocessing/__init__.py:162-180 | the loop appends exactly the sub-phrase tier |
| Candidates.MeaningfulSpansSpec | gsai_assist/services/preprocessing/__init__.py:182-192 | the word list holds exactly the meaningful words of a chunk |
| Candidates.WordTierSpec | gsai_assist/services/preprocessing/__init__.py:182-192 | the word tier holds exactly the meaningful words of every chunk |
| Candidates.AddMeaningfulWords | gsai_assist/services/preprocessing/__init__.py:184-192 | the inner loop appends exactly one chunk's meaningful words |
| Candidates.AddWordCandidates | gsai_assist/services/preprocessing/__init__.py:182-192 | the loop appends exactly the word tier |
| Candidates.FirstSpanSpec | gsai_assist/services/preprocessing/__init__.py:197-204 | the word search finds nothing exactly when no tracked word matches, otherwise the first match |
| Candidates.FindWordPosition | gsai_assist/services/preprocessing/__init__.py:197-204 | the nested search loop returns the first tracked occurrence of the word across the chunks |
| Candidates.TermCandidatesSpec | gsai_assist/services/preprocessing/__init__.py:206-215 | each expansion term becomes one candidate at the original word's position |
| Candidates.ExpansionTierSpec | gsai_assist/services/preprocessing/__init__.py:194-215 | every expanded-term candidate comes from an expanded word found in the chunks |
| Candidates.AddTermCandidates | gsai_assist/services/preprocessing/__init__.py:208-215 | the inner loop appends exactly the term candidates |
| Candidates.AddExpansionCandidates | gsai_assist/services/preprocessing/__init__.py:194-215 | the loop appends exactly the expansion tier |
| Candidates.OverlapsKept | gsai_assist/services/preprocessing/__init__.py:217-239 | overlapping the kept phrases equals overlapping an earlier kept phrase |
| Candidates.KeptPhrasesDisjoint | gsai_assist/services/preprocessing/__init__.py:217-239 | kept phrase candidates never overlap each other |
| Candidates.KeptIsFirstForRange | gsai_assist/services/preprocessing/__init__.py:217-239 | a kept non-empty phrase is the first phrase with its range |
| Candidates.PhraseSurvivesOrIsOverlapped | gsai_assist/services/preprocessing/__init__.py:217-239 | every phrase is either kept or overlaps an earlier kept phrase |
| Candidates.TermsSpec | gsai_assist/services/preprocessing/__init__.py:234-238 | every word and expanded-term candidate survives the filter, and only those are added after the phrases |
| Candidates.PhrasesFirst | gsai_assist/services/preprocessing/__init__.py:217-239 | in the filtered list all phrases come before all words and terms |
| Candidates.OverlapsAny | gsai_assist/services/preprocessing/__init__.py:224-228 | the overlap loop reports true exactly when some kept range overlaps the candidate |
| Candidates.AppendTerms | gsai_assist/services/preprocessing/__init__.py:235-237 | the loop appends exactly the word and term candidates, in order |
| Candidates.FilterCandidates | gsai_assist/services/preprocessing/__init__.py:217-239 | the filter returns exactly the filtered list and only input candidates |
| Candidates.GenerateCandidates | gsai_assist/services/preprocessing/__init__.py:147-240 | generation returns the filtered concatenation of the four tiers as fresh candidates with no entity and no canonical name yet |
| Pipeline.MeaningfulInSpec | gsai_assist/services/preprocessing/__init__.py:111-121 | a chunk yields exactly its meaningful words |
| Pipeline.MeaningfulListSpec | gsai_assist/services/preprocessing/__init__.py:111-121 | the collected list holds exactly the meaningful words of all chunks |
| Pipeline.ExpandedPut | gsai_assist/services/preprocessing/__init__.py:124-141 | recording an expandable word's extra terms keeps the expansion invariant |
| Pipeline.ExpandedTermsSpec | gsai_assist/services/preprocessing/__init__.py:124-141 | the expanded terms are keyed by exactly the expandable meaningful words, each with its non-empty extra table terms, never itself |
| Pipeline.MappingsOfSpec | gsai_assist/services/preprocessing/__init__.py:259-269 | there is one mapping per candidate that has a canonical entity, with its text, offsets, type and priority |
| Pipeline.NoCanonicalNoMappings | gsai_assist/services/preprocessing/__init__.py:259-269 | without mapped candidates there are no mappings |
| Pipeline.CollectMeaningfulWords | gsai_assist/services/preprocessing/__init__.py:111-121 | the collection loop gathers exactly the meaningful words in chunk order |
| Pipeline.ExpandWords | gsai_assist/services/preprocessing/__init__.py:124-141 | the expansion loop establishes the expansion invariant for all meaningful words |
| Pipeline.BuildMappings | gsai_assist/services/preprocessing/__init__.py:259-269 | the loop builds exactly the mappings of mapped candidates |
| Pipeline.PipeLine.constructor | gsai_assist/services/preprocessing/__init__.py:21-35 | a new pipeline holds the default vocabulary and empty state |
| Pipeline.PipeLine.Reset | gsai_assist/services/preprocessing/__init__.py:32-35 | reset clears context, mappings and candidates and nothing else |
| Pipeline.PipeLine.BasicClean | gsai_assist/services/preprocessing/__init__.py:48-53 | the stored cleaned query is the cleaned original and is clean |
| Pipeline.PipeLine.ReplaceStopwordsWithPositions | gsai_assist/services/preprocessing/__init__.py:56-109 | the stored chunks are the chunks of the cleaned query |
| Pipeline.PipeLine.ExtractMeaningfulWords | gsai_assist/services/preprocessing/__init__.py:111-121 | the stored words are the distinct meaningful words of the chunks |
| Pipeline.PipeLine.ExpandWithBusinessTerms | gsai_assist/services/preprocessing/__init__.py:124-141 | the stored expansions satisfy the expansion invariant for the options' domain |
| Pipeline.PipeLine.GenerateCandidatesWithExpansions | gsai_assist/services/preprocessing/__init__.py:147-240 | the stored candidates are the filtered tiers, as fresh candidates not yet mapped to an entity |
| Pipeline.PipeLine.EntityMapping | gsai_assist/services/preprocessing/__init__.py:242-271 | with candidates and groups given, it records the mapper's context, the mappings of mapped candidates and each candidate's entity; without candidates it does nothing; a missing group list is a failure |
| Pipeline.PipeLine.Process | gsai_assist/services/preprocessing/__init__.py:21-46 | processing a query leaves the state every step promises; when mapping succeeds on some candidates, the context is that of the mapper's selected hits, each candidate carries the canonical name of its selected hit or none, and the mappings are those of the mapped candidates; otherwise the context is empty and no candidate is mapped |
| EntityMapper.SelectSpec | gsai_assist/services/preprocessing/entity_mapper.py:23-43 | a candidate gets no hit exactly when no hit qualifies, otherwise the first qualifying hit |
| EntityMapper.SelectedIsInGroups | gsai_assist/services/preprocessing/entity_mapper.py:29-37 | a selected hit is one of the hits, lies in a requested group and is within the distance bound |
| EntityMapper.FirstQualifying | gsai_assist/services/preprocessing/entity_mapper.py:27-43 | the hit loop breaks at exactly the first qualifying hit |
| EntityMapper.Selections | gsai_assist/services/preprocessing/entity_mapper.py:23-43 | one selection per candidate paired with a query result list, each the chosen hit for that candidate's text |
| EntityMapper.AssignedSpec | gsai_assist/services/preprocessing/entity_mapper.py:38-43 | a candidate is entatised exactly when one of its occurrences had a selected hit, with that hit's canonical name |
| EntityMapper.ContextDtBound | gsai_assist/services/preprocessing/entity_mapper.py:39-43 | there are no more context doctypes than selected hits |
| EntityMapper.ContextDtSpec | gsai_assist/services/preprocessing/entity_mapper.py:39-43 | the context doctypes are exactly the doctypes of the selected hits |
| EntityMapper.ContextRdtChars | gsai_assist/services/preprocessing/entity_mapper.py:42 | the related-doctype context holds single characters, because the source adds a string to a set |
| EntityMapper.Process | gsai_assist/services/preprocessing/entity_mapper.py:4-45 | mapping returns the same candidates, entatised by their selections, and the context of the selected hits |
| Vocabulary.ExpandWord | gsai_assist/services/preprocessing/business_vocabulary.py:165-190 | the expansion of a word is non-empty and starts with the word |
| Vocabulary.ExpandWordTerms | gsai_assist/services/preprocessing/business_vocabulary.py:165-190 | the expansion has no duplicates and holds exactly the word and its general and domain table terms |
| Vocabulary.ExpandWordAbsent | gsai_assist/services/preprocessing/business_vocabulary.py:165-190 | a word found in neither table expands to itself alone |
| Vocabulary.ExpandWordCaseInsensitive | gsai_assist/services/preprocessing/business_vocabulary.py:176 | words equal up to case expand to the same terms |
| Vocabulary.ExpandWordOrder | gsai_assist/services/preprocessing/business_vocabulary.py:170-188 | the word and its general terms come before domain-only terms |
| Vocabulary.DedupSpec | gsai_assist/services/preprocessing/business_vocabulary.py:190 | deduplication keeps exactly the distinct elements, each once |
| Vocabulary.DedupHead | gsai_assist/services/preprocessing/business_vocabulary.py:190 | deduplication keeps the first element first |
| Vocabulary.DedupFirstOccurrenceOrder | gsai_assist/services/preprocessing/business_vocabulary.py:190 | deduplication keeps elements in order of first occurrence |
| Vocabulary.ExpandableSpec | gsai_assist/services/preprocessing/business_vocabulary.py:192-210 | the expandable words are exactly the query words whose expansion adds a term |
| Vocabulary.ExpandQueryTerms | gsai_assist/services/preprocessing/business_vocabulary.py:192-210 | the result maps exactly the expandable words to their expansions, keyed in first-occurrence order |
| Vocabulary.GetAllBusinessTerms | gsai_assist/services/preprocessing/business_vocabulary.py:212-223 | the result is strictly sorted and holds exactly the listed terms (the values, not the keys) of both tables |
| Vocabulary.ExpandCandidatesWithBusinessTerms | gsai_assist/services/preprocessing/business_vocabulary.py:226-266 | the result is the input candidates followed by the additions of each candidate in order |
| Vocabulary.AdditionsShape | gsai_assist/services/preprocessing/business_vocabulary.py:226-266 | additions come only from single-word candidates, one per new expansion term, with the input's shape and expanded fields |
| Vocabulary.AllAdditionsFromInputs | gsai_assist/services/preprocessing/business_vocabulary.py:226-266 | every addition comes from a single-word input candidate |
| Sorting.Insert | gsai_assist/services/preprocessing/business_vocabulary.py:223 | inserting keeps the list strictly sorted and adds exactly the new element |
| Sorting.SortSet | gsai_assist/services/preprocessing/business_vocabulary.py:223 | sorting a set yields a strictly sorted list of exactly its elements |
| Sorting.SortedUnique | gsai_assist/services/preprocessing/business_vocabulary.py:223 | two strictly sorted lists with the same elements are equal |
| Dicts.Empty | gsai_assist/services/preprocessing/__init__.py:134 | the empty dictionary is valid and has no keys |
| Dicts.Put | gsai_assist/services/preprocessing/business_vocabulary.py:208 | assignment sets the value and appends a new key at the end, keeping the order of existing keys |
| EntityIndex.CleanValueSpec | gsai_assist/services/managers/entity.py:25-46 | a cleaned value is scalar, scalars are kept, and None becomes the empty string |
| EntityIndex.CleanedMetadataSpec | gsai_assist/services/managers/entity.py:25-46 | cleaned metadata keeps the keys in order, holds only scalars, and cleaning it again changes nothing |
| EntityIndex.CleanOne | gsai_assist/services/managers/entity.py:32-44 | the per-value branch computes the cleaned value |
| EntityIndex.CleanMetadata | gsai_assist/services/managers/entity.py:25-46 | the loop computes exactly the cleaned metadata |
| EntityIndex.StrReprSpec | gsai_assist/services/managers/entity.py:41 | `repr` of a string nested in a list item is a literal that reads back as the string; it is in double quotes exactly when the string holds a single quote and no double quote |
| EntityIndex.UnescapeEscaped | gsai_assist/services/managers/entity.py:41 | the escapes `repr` writes (quote, backslash, tab, newline, carriage return, other control characters as hex) read back as the original characters |
| EntityIndex.ReprOfApostrophe | gsai_assist/services/managers/entity.py:41 | `repr("it's")` is `"it's"` in double quotes |
| EntityIndex.ReprOfBackslash | gsai_assist/services/managers/entity.py:41 | `repr` shows a backslash doubled |
| EntityIndex.NestedListShown | gsai_assist/services/managers/entity.py:41 | the metadata list `[["it's"]]` is stored as the text `["it's"]` |
| EntityIndex.StrippedPartsTrimmed | gsai_assist/services/managers/entity.py:59 | every kept alias part is non-empty and has no outer whitespace |
| EntityIndex.StrippedPartsFrom | gsai_assist/services/managers/entity.py:59 | every kept alias part is a stripped part of the raw text |
| EntityIndex.AliasesHoldCanonical | gsai_assist/services/managers/entity.py:57-66 | the alias list always holds the canonical name up to case |
| EntityIndex.AliasesAppended | gsai_assist/services/managers/entity.py:57-66 | the lower-cased canonical name is appended exactly when no raw alias equals it up to case |
| EntityIndex.AliasesNonEmpty | gsai_assist/services/managers/entity.py:57-66 | for a non-empty canonical name no alias is empty |
| EntityIndex.AliasesSpec | gsai_assist/services/managers/entity.py:57-66 | the three alias facts together |
| EntityIndex.GroupNamesSpec | gsai_assist/services/managers/entity.py:68-85 | the group list is never empty, holds no empty name, and falls back to the default only when no group has a name |
| EntityIndex.GroupNamesUpToSpec | gsai_assist/services/managers/entity.py:74-82 | the collected group names are exactly the non-empty names of the groups |
| EntityIndex.PrepareEntityData | gsai_assist/services/managers/entity.py:48-87 | preparation fails exactly for an empty canonical name, otherwise it returns the name, aliases and groups |
| EntityIndex.EntriesSpec | gsai_assist/services/managers/entity.py:108-130 | there is one entry per (group, alias) pair, groups outer and aliases inner |
| EntityIndex.EntryAt | gsai_assist/services/managers/entity.py:108-130 | the entry for group g and alias a sits at position g times the alias count plus a |
| EntityIndex.EntriesOfCanonical | gsai_assist/services/managers/entity.py:108-130 | every entry's metadata names the entity's canonical name |
| EntityIndex.BuildEntries | gsai_assist/services/managers/entity.py:108-130 | the nested loop builds exactly the entries |
| EntityIndex.AddAllSpec | gsai_assist/services/managers/entity.py:139-156 | adding stores every entry under its id with the canonical name and changes no other record |
| EntityIndex.AddAllDistinct | gsai_assist/services/managers/entity.py:139-156 | a batch with distinct ids stores each entry under its id with its own document, metadata and embedding |
| EntityIndex.RepeatedAliasRepeatsId | gsai_assist/services/managers/entity.py:108-130 | an alias listed twice gives two entries with the same id, a batch the store rejects |
| EntityIndex.WithoutSpec | gsai_assist/services/managers/entity.py:99-106 | deleting stale records removes exactly the entity's records, is idempotent, and is a no-op when none exist |
| EntityIndex.EntityManager.constructor | gsai_assist/services/managers/entity.py:12-23 | the manager starts with the given collection |
| EntityIndex.EntityManager.SyncEntity | gsai_assist/services/managers/entity.py:89-161 | sync raises on a bad entity and leaves the collection; otherwise it deletes the entity's old records, then stores the new entries when embedding succeeds and the batch repeats no id; a repeated id (an alias listed twice) or a failing add raises with the old records already gone |
| EntityIndex.EntityManager.DeleteEntity | gsai_assist/services/managers/entity.py:163-184 | deleting removes exactly the named entity's records and ignores an empty name |
| EntityIndex.SyncedRecords | gsai_assist/services/managers/entity.py:89-161 | after a successful sync the entity's records are exactly the new entries, each with its own document, metadata and embedding when the ids are distinct |
| EntityIndex.SyncEntryCount | gsai_assist/services/managers/entity.py:108-130 | a prepared entity yields groups times aliases entries, at least one |
| LightweightStore.TextIndexSpec | gsai_assist/services/managers/entity_lt.py:151 | the text index maps exactly the lower-cased texts, each to its last position |
| LightweightStore.GroupIndexLookup | gsai_assist/services/managers/entity_lt.py:153-159 | a group's index entry lists every position whose groups contain it, once per occurrence |
| LightweightStore.GroupIndexKeys | gsai_assist/services/managers/entity_lt.py:153-159 | the group index has exactly the non-empty groups that occur |
| LightweightStore.OccurrencesLength | gsai_assist/services/managers/entity_lt.py:153-159 | a group's list length is its total occurrence count |
| LightweightStore.OccurrencesMembers | gsai_assist/services/managers/entity_lt.py:153-159 | a group's list holds exactly the positions carrying that group |
| LightweightStore.OccurrencesAscending | gsai_assist/services/managers/entity_lt.py:153-159 | a group's list is in ascending position order |
| LightweightStore.AddEntityGroups | gsai_assist/services/managers/entity_lt.py:154-159 | the inner loop adds one entity's groups |
| LightweightStore.BuildGroupIndex | gsai_assist/services/managers/entity_lt.py:153-159 | the loop builds exactly the group index |
| LightweightStore.ArgSortSorted | gsai_assist/services/managers/entity_lt.py:272 | the argsort is a permutation of the positions ordered by distance |
| LightweightStore.PickedSpec | gsai_assist/services/managers/entity_lt.py:272-285 | the brute-force pick holds at most top_k positions, exactly the first top_k within the distance bound, in distance order |
| LightweightStore.TopKNearest | gsai_assist/services/managers/entity_lt.py:272 | no position outside the top_k prefix is nearer than one inside it |
| LightweightStore.PickedAll | gsai_assist/services/managers/entity_lt.py:272-285 | with top_k at least the entity count, every position within the bound is picked |
| LightweightStore.FilterUpToSpec | gsai_assist/services/managers/entity_lt.py:204-212 | the filter set is the union of the requested groups' index entries |
| LightweightStore.FilterSetSpec | gsai_assist/services/managers/entity_lt.py:204-212 | the filter set holds exactly the entities in a requested group |
| LightweightStore.FilterIndices | gsai_assist/services/managers/entity_lt.py:204-212 | the loop computes the filter set |
| LightweightStore.SortByIdSorted | gsai_assist/services/managers/entity_lt.py:361 | sorting the results by query id yields id order |
| LightweightStore.SortedIsIdOrder | gsai_assist/services/managers/entity_lt.py:361 | a sorted permutation of results indexed by position is that indexed list |
| LightweightStore.PickPartition | gsai_assist/services/managers/entity_lt.py:225-255 | the exact and vector results together are a permutation of all results |
| LightweightStore.AnswersSpec | gsai_assist/services/managers/entity_lt.py:225-358 | every query gets its own id, the exact match alone when there is one, and its vector matches otherwise |
| LightweightStore.Reassemble | gsai_assist/services/managers/entity_lt.py:361 | sorting the exact and vector results by id restores the per-query answers |
| LightweightStore.ReassembleExact | gsai_assist/services/managers/entity_lt.py:254-255 | when every query matched exactly, the exact results are the answers |
| LightweightStore.ExactHitWhen | gsai_assist/services/managers/entity_lt.py:225-251 | an exact hit exists exactly when the last entity with the query's lower-cased text is in a requested group |
| LightweightStore.ExactHitShape | gsai_assist/services/managers/entity_lt.py:229-246 | an exact hit has the query's text up to case, distance zero, the entity's canonical name and its distinct groups |
| LightweightStore.BruteMatchesBounded | gsai_assist/services/managers/entity_lt.py:264-290 | brute force returns at most top_k matches, all within the distance bound |
| LightweightStore.BruteMatchesOrdered | gsai_assist/services/managers/entity_lt.py:264-290 | brute-force matches are in ascending distance and each is a filtered entity at its distance |
| LightweightStore.AnnKeptSpec | gsai_assist/services/managers/entity_lt.py:292-331 | approximate search keeps at most one match per returned row, within the bound, each a filtered entity |
| LightweightStore.SearchResultShape | gsai_assist/services/managers/entity_lt.py:181-362 | search returns one result per query, carrying that query's id or none |
| LightweightStore.SearchNoGroup | gsai_assist/services/managers/entity_lt.py:198-218 | when no entity is in a requested group every query gets an empty result |
| LightweightStore.FilteredSpec | gsai_assist/services/managers/entity_lt.py:204-218 | the filtered positions are exactly the in-group entities, in ascending order |
| LightweightStore.KeepWithin | gsai_assist/services/managers/entity_lt.py:275-285 | the loop keeps exactly the top positions within the bound as matches |
| LightweightStore.EntityStore.constructor | gsai_assist/services/managers/entity_lt.py:148-159 | a new store holds the given entities and metadata with valid indices |
| LightweightStore.EntityStore.BuildIndices | gsai_assist/services/managers/entity_lt.py:148-159 | building the indices makes them agree with entities and metadata |
| LightweightStore.EntityStore.GetStats | gsai_assist/services/managers/entity_lt.py:370-381 | stats report the entity count and, for exactly the non-empty groups, their occurrence counts |
| LightweightStore.EntityStore.ExactMatch | gsai_assist/services/managers/entity_lt.py:225-251 | the exact lookup returns the exact hit specification |
| LightweightStore.EntityStore.BruteSearch | gsai_assist/services/managers/entity_lt.py:264-290 | brute force returns the brute-force specification |
| LightweightStore.EntityStore.AnnSearch | gsai_assist/services/managers/entity_lt.py:292-331 | the approximate pass returns the kept rows of the index's answer |
| LightweightStore.EntityStore.VectorSearch | gsai_assist/services/managers/entity_lt.py:257-358 | vector search picks brute force, the index or the fallback as the source does |
| LightweightStore.EntityStore.ExactPass | gsai_assist/services/managers/entity_lt.py:225-251 | the exact pass splits the queries into exact results and the rest, in order |
| LightweightStore.EntityStore.VectorPass | gsai_assist/services/managers/entity_lt.py:257-358 | the vector pass answers every remaining query |
| LightweightStore.EntityStore.SearchFiltered | gsai_assist/services/managers/entity_lt.py:225-361 | a search over a filter returns the per-query answers in query order |
| LightweightStore.EntityStore.Search | gsai_assist/services/managers/entity_lt.py:181-362 | search returns the search specification; `DefaultTopK` and `DefaultMaxDistance` are the source's defaults of 5 and 0.25 |
| PersistentStore.Add | gsai_assist/services/preprocessing/persistent_layer.py:45-82 | adding keeps the store well formed |
| PersistentStore.AddSpec | gsai_assist/services/preprocessing/persistent_layer.py:45-82 | adding records the pattern under its id with usage one, indexes its lower-cased original, appends its embedding and changes no other pattern or key |
| PersistentStore.AddOnceEach | gsai_assist/services/preprocessing/persistent_layer.py:45-82 | adding keeps every id listed at most once |
| PersistentStore.Owner | gsai_assist/services/preprocessing/persistent_layer.py:120-137 | the owner of a row is a stored pattern whose original embeds to that row, and none means no pattern does |
| PersistentStore.OwnerFirst | gsai_assist/services/preprocessing/persistent_layer.py:120-137 | the owner is the first such pattern in insertion order |
| PersistentStore.Scan | gsai_assist/services/preprocessing/persistent_layer.py:109-138 | scanning keeps the set of stored ids |
| PersistentStore.StepSpec | gsai_assist/services/preprocessing/persistent_layer.py:109-137 | one row either reports nothing or one owner with similarity at least the threshold, and only raises usage counts |
| PersistentStore.ScanKeepsFacts | gsai_assist/services/preprocessing/persistent_layer.py:109-138 | scanning changes no pattern's text, type or confidence and never lowers a usage count |
| PersistentStore.ScanReports | gsai_assist/services/preprocessing/persistent_layer.py:109-138 | the scan reports at most one result per row, each above the threshold and from a matching pattern |
| PersistentStore.SortDescending | gsai_assist/services/preprocessing/persistent_layer.py:140 | the results are sorted by descending similarity |
| PersistentStore.FindSimilar | gsai_assist/services/preprocessing/persistent_layer.py:84-144 | a search never changes vectors, order or exact-match keys |
| PersistentStore.FindExact | gsai_assist/services/preprocessing/persistent_layer.py:92-107 | an exact hit returns that pattern alone with similarity one and raises its usage by one, changing no other pattern |
| PersistentStore.FindScanned | gsai_assist/services/preprocessing/persistent_layer.py:109-144 | without an exact hit the results are descending, above the threshold, at most one per row, from matching patterns |
| PersistentStore.FindKeepsFacts | gsai_assist/services/preprocessing/persistent_layer.py:84-144 | a search keeps every pattern's facts and never lowers a usage count |
| PersistentStore.AddThenFind | gsai_assist/services/preprocessing/persistent_layer.py:45-107 | a pattern just added is found exactly, with usage two |
| PersistentStore.StatsCount | gsai_assist/services/preprocessing/persistent_layer.py:182-192 | stats count the patterns and say "none" exactly for an empty store |
| PersistentStore.FindExactUsage | gsai_assist/services/preprocessing/persistent_layer.py:92-107 | an exact hit raises the total usage by one |
| PersistentStore.AddCount | gsai_assist/services/preprocessing/persistent_layer.py:45-82 | adding a new id adds one pattern |
| PersistentStore.AddUsage | gsai_assist/services/preprocessing/persistent_layer.py:45-82 | adding a new id raises the total usage by one |
| PersistentStore.ExactIndex | gsai_assist/services/preprocessing/persistent_layer.py:157-158 | the rebuilt index maps only lower-cased originals to their patterns and covers every stored pattern |
| PersistentStore.ExactIndexKeys | gsai_assist/services/preprocessing/persistent_layer.py:157-158 | the rebuilt index has exactly the lower-cased originals |
| PersistentStore.ExactIndexLast | gsai_assist/services/preprocessing/persistent_layer.py:157-158 | each key maps to the last pattern with that original |
| PersistentStore.VectorLearning.constructor | gsai_assist/services/preprocessing/persistent_layer.py:19-36 | a loaded store rebuilds its exact-match index from the loaded patterns |
| PersistentStore.VectorLearning.AddLearningPattern | gsai_assist/services/preprocessing/persistent_layer.py:45-82 | adding changes the state as the add specification says and reports success |
| PersistentStore.VectorLearning.FindSimilarPatterns | gsai_assist/services/preprocessing/persistent_layer.py:84-144 | searching returns and records what the search specification says |
| PersistentStore.FindOwner | gsai_assist/services/preprocessing/persistent_layer.py:120-137 | the owner loop returns the owner |
| PersistentStore.ScanRows | gsai_assist/services/preprocessing/persistent_layer.py:109-138 | the row loop computes the scan |
| PersistentStore.RebuildExactMatches | gsai_assist/services/preprocessing/persistent_layer.py:146-168 | the loop rebuilds exactly the exact-match index |
| PersistentLearning.BestSpec | gsai_assist/services/preprocessing/persistent_layer.py:228-233 | the chosen learned pattern has the highest confidence times usage count and is the first with it |
| PersistentLearning.LearnedCorrectionSpec | gsai_assist/services/preprocessing/persistent_layer.py:265-274 | a case-only correction is ignored; otherwise the lower-cased word is then found exactly with its correction |
| PersistentLearning.CorrectWordShape | gsai_assist/services/preprocessing/persistent_layer.py:207-263 | a word of at most two characters or made only of digits passes through unchanged with no correction; otherwise any correction records the word and its output |
| PersistentLearning.CorrectWordLearned | gsai_assist/services/preprocessing/persistent_layer.py:228-239 | a word with a learned exact pattern is replaced by its learned correction |
| PersistentLearning.LearnThenCorrect | gsai_assist/services/preprocessing/persistent_layer.py:228-274 | after learning a correction the word is corrected to it |
| PersistentLearning.CorrectUpTo | gsai_assist/services/preprocessing/persistent_layer.py:207-263 | correcting a prefix of the words yields one output and one step per word |
| PersistentLearning.CorrectUpToShape | gsai_assist/services/preprocessing/persistent_layer.py:207-263 | every word's step has the per-word shape |
| PersistentLearning.DefaultReplacementSpec | gsai_assist/services/preprocessing/persistent_layer.py:370-371 | the default replacement lower-cases the phrase and turns spaces into underscores, keeping its length |
| PersistentLearning.LearnedPhraseSpec | gsai_assist/services/preprocessing/persistent_layer.py:368-379 | a learned phrase is then found exactly, in any case, as a business phrase with the replacement it was given, or with the default replacement when that was missing or empty |
| PersistentLearning.WindowsUpToMembers | gsai_assist/services/preprocessing/persistent_layer.py:336-338 | the windows are exactly the two- and three-word spans inside the text |
| PersistentLearning.WindowsSpec | gsai_assist/services/preprocessing/persistent_layer.py:336-338 | the windows are exactly the two- and three-word spans, in scan order |
| PersistentLearning.DetectStepShape | gsai_assist/services/preprocessing/persistent_layer.py:340-364 | one window adds at most one detection, for that window's phrase |
| PersistentLearning.DetectOverGrows | gsai_assist/services/preprocessing/persistent_layer.py:336-364 | each window adds at most one detection, keeping the earlier ones |
| PersistentLearning.DetectOverPhrases | gsai_assist/services/preprocessing/persistent_layer.py:336-364 | every detection is the phrase of one of the windows |
| PersistentLearning.DetectAndReplaceSpec | gsai_assist/services/preprocessing/persistent_layer.py:324-366 | there are at most as many detections as windows, each a two- or three-word phrase of the text, and no detection leaves the text unchanged |
| PersistentLearning.Rewrites | gsai_assist/services/preprocessing/persistent_layer.py:473-481 | one rewrite per mapped token |
| PersistentLearning.RebuiltUnchanged | gsai_assist/services/preprocessing/persistent_layer.py:473-481 | tokens without a canonical name leave the query unchanged |
| PersistentLearning.RebuiltAbsent | gsai_assist/services/preprocessing/persistent_layer.py:473-481 | a token whose text no longer occurs changes nothing |
| PersistentLearning.LearnPairs | gsai_assist/services/preprocessing/persistent_layer.py:490-496 | learning word pairs adds one vector per differing pair and exactly the differing originals as keys |
| PersistentLearning.CaseOnlyKeeps | gsai_assist/services/preprocessing/persistent_layer.py:265-274 | a case-only correction leaves the store unchanged |
| PersistentLearning.LearnedCorrectionKeys | gsai_assist/services/preprocessing/persistent_layer.py:265-274 | learning a correction adds exactly its lower-cased original as a key, when it differs |
| PersistentLearning.LearnedCorrectionRows | gsai_assist/services/preprocessing/persistent_layer.py:265-274 | learning a correction adds one vector exactly when it differs |
| PersistentLearning.LearnedFromUserSpec | gsai_assist/services/preprocessing/persistent_layer.py:483-496 | texts equal ignoring case, or with different word counts, teach nothing; otherwise exactly the differing originals are taught |
| PersistentLearning.SpellCorrector.LearnCorrection | gsai_assist/services/preprocessing/persistent_layer.py:265-274 | the learning store becomes the learned-correction state |
| PersistentLearning.SpellCorrector.CorrectOne | gsai_assist/services/preprocessing/persistent_layer.py:216-261 | one word is corrected as the per-word specification says |
| PersistentLearning.SpellCorrector.Correct | gsai_assist/services/preprocessing/persistent_layer.py:207-263 | the text is corrected word by word, with the applied corrections |
| PersistentLearning.SpellCorrector.CorrectWords | gsai_assist/services/preprocessing/persistent_layer.py:212-261 | the word loop computes the word-by-word run |
| PersistentLearning.PhraseDetector.LearnPhrase | gsai_assist/services/preprocessing/persistent_layer.py:368-379 | the store becomes the learned-phrase state |
| PersistentLearning.PhraseDetector.DetectWindow | gsai_assist/services/preprocessing/persistent_layer.py:340-364 | one window is handled as the step specification says |
| PersistentLearning.PhraseDetector.DetectRow | gsai_assist/services/preprocessing/persistent_layer.py:336-364 | the inner loop handles the windows starting at one word |
| PersistentLearning.PhraseDetector.DetectAndReplace | gsai_assist/services/preprocessing/persistent_layer.py:324-366 | detection computes the detection specification |
| PersistentLearning.LearnWordPairs | gsai_assist/services/preprocessing/persistent_layer.py:490-496 | the pair loop teaches every pair in order |
| PersistentLearning.LearnWordPair | gsai_assist/services/preprocessing/persistent_layer.py:494-496 | one pair is taught as a learned correction |
| PersistentLearning.Pipeline.constructor | gsai_assist/services/preprocessing/persistent_layer.py:420-422 | a new pipeline holds its own spell corrector and phrase detector, well formed and sharing no store |
| PersistentLearning.Pipeline.RebuildQuery | gsai_assist/services/preprocessing/persistent_layer.py:473-481 | the rebuilt query replaces every mapped token's text by its canonical name in order |
| PersistentLearning.Pipeline.LearnFromUserInput | gsai_assist/services/preprocessing/persistent_layer.py:483-496 | learning from a user correction teaches the word pairs as specified |
| PersistentLearning.Pipeline.GetLearningStats | gsai_assist/services/preprocessing/persistent_layer.py:501-511 | the stats are the three stores' stats and the sum of the two learned pattern counts |

## Left out

- Embeddings, numeric similarity and distance, FAISS and the fuzzy ratio are foreign numerical code. They are
  parameters: `Embedder` with `encode` and `dot`, `Vectors` with `dist` and `ann`, and a ratio function. Floats
  are Dafny reals, and `np.array_equal` is sequence equality.
- `_get_embedder` in `managers/entity_lt.py` imports a placeholder module. The model assumes a working embedder
  and takes its distances as a parameter.
- The Chroma collection is a map from id to record. Query and metadata round-trips through Chroma are not
  modelled.
- File and database I/O is not modelled: pickle and npz loading and saving, the entity-store cache, loading from
  the database, and `storage_size_mb`, `embedding_dimensions` and `memory_usage_mb` in the stats. A store loaded
  from storage is a constructor argument.
- Logging, `print`, `frappe.log_error` and the `logs` list are not modelled.
- The singleton, its lock, `_ensure_initialized` with its empty-store fallback and `refresh` in
  `managers/entity_lt.py` are not modelled. `test_connection`, `get_collection_stats` and the `test_*` and
  `debug_*` helpers are not modelled either.
- The `_bootstrap_vocabulary` and `_bootstrap_phrases` seed data is not modelled. These only call the modelled
  add operation.
- `_build_schema_context` and `build_result` are left out. They query the database schema through
  `schema_mapper.py`, which is not part of this model.
- `PersistentPreprocessingPipeline.process`, the persistent `PipeLine` wrapper and `get_intelligence_report` are
  not modelled. They tokenize with regular expressions and import a `Token` class that the preprocessing package
  does not define. Only the query rebuilding, learning and stats they use are modelled.
- `phrase_mappings` in the phrase detector is never read. It is not modelled.
- Pattern ids (a hash of the text) and timestamps (`time.time()`) are parameters: `Env.idOf` and `Env.now`.
- The stop-word list comes from `stop_words.py`, which is not part of this model. It is a parameter.
- Characters are ASCII only. Lower-casing, `\w` and `\s` use ASCII classes; Unicode case folding and Unicode
  whitespace are not modelled. `EntityIndex.StrRepr` escapes ASCII control characters only; Python's `repr` also
  escapes non-printable non-ASCII characters, which the model keeps as they are.
- A Python `set` turned into a list has an unspecified order.
  - `Pipeline.PipeLine.ExtractMeaningfulWords` promises only distinct elements and the right members, not an
    order.
  - The groups of an exact hit are promised only as distinct members, not in an order.
- The search's `top_k` is a natural number, so the source's negative `top_k` slicing is not modelled.
- Argsort ties are broken by position. NumPy's default sort is not stable, so this may differ from the source on
  equal distances.
- Float metadata values are kept as their text, and `str()` of a float is not modelled.
- `EntityIndex.EntityManager.SyncEntity`: failure of the stale-record deletion step is not modelled. The store's
  rejection of a batch with a repeated id is modelled; any other failure of the final add is a parameter
  (`addFails`).
- `PersistentStore.VectorLearning.AddLearningPattern` always succeeds. The source's exception path for a failing
  encoder is not modelled.
- `PersistentStore.FindExactUsage` requires each id to be listed once. This is the store's class invariant
  (`OnceEach`), which the constructor and adding keep.
- `LightweightStore.SearchResultShape` states only the id of each result. The full content is in
  `LightweightStore.AnswersSpec` and `LightweightStore.EntityStore.Search`.
