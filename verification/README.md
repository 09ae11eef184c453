# SNOMED CT release reconciliation and denormalisation, modelled in Dafny

This project models the core of `snomedct`, a pipeline that turns SNOMED CT release
packages into tables that are easier to use. There are two packages: the Norwegian
national package (NO) and the international package (INT). The model covers five steps:

- **Loading one table** (`Loading`): `generate_dataset_field` turns a snapshot basename
  such as `LanguageSnapshot-nb-gp_NO` into the name of a dataset field
  (`language_nb_gp_no`) and into a record class (`SnomedTableLanguage`). It then does three
  things:
  - picks the one release file whose name contains the basename;
  - applies the configured code-to-label substitutions (`with_columns` over chained
    `replace` calls);
  - checks every row against the record class's field validators, when configured
    (`validate_table`). A failing row is logged in the safe mode and aborts the load
    otherwise.

  Reading the file is a parameter of the model. The constant configuration lives in
  `SnomedConfig`: the sixteen basenames and the substitution rules per record class.
  Row records and their validators live in `Rows`.
- **Reconciliation** (`Reconcile`): `SnomedDataRaw.__attrs_post_init__` is modelled as the
  class `SnomedDataRaw`. Its sixteen table attributes are held as one `RawTables` record
  field, `tables`, which the methods reassign. Reconciliation runs four steps in order:
  1. It drops every INT row whose id also occurs in the matching NO table.
  2. It keeps only active rows, walking the fields with `getattr`/`setattr`.
  3. It derives the sorted ids of the active concepts that have an active Norwegian
     description, then narrows them by the allow-list and the limit.
  4. It cuts the descriptions, definitions, language reference sets and relationships
     down to what those ids reach.

  Each step is a method proved against a specification function (`Dedup`, `ActiveOnly`,
  `ScopeIds`/`BaselineIds`, `Cascade`, and `Reconciled` for the whole).
- **Denormalisation** (`Denormalize`): this covers `denormalize_term_tables`,
  `denormalize_definition_tables` and `snomed_denormalize_dataset`.
  - A polars table is a sequence of rows. `Tables` holds the generic operations: filter,
    projection, sort-unique, slice, and left and right joins.
  - The left-hand columns of a right join are nullable (`Option`).
  - A `typeId` filter drops the rows whose `typeId` is null.

Where the code and its comments or apparent intent disagree, the model follows the code:

- The allow-list and the limit both apply, one after the other.
- A limit that is zero or absent means no limit. A negative limit slices like Python:
  it drops rows from the end.
- A basename with no matching file fails when indexing `file_matches[0]`. This is
  `NoFileMatch`. Two or more matches raise at once, which is `AmbiguousMatch`.
- A relationship is kept when its source OR its destination is an id. The comment at
  `src/snomedct/snomedct_datamodel.py:207` says "both".
- National descriptions are cut down to the ids only when an allow-list or a limit is
  set. `Reconcile.ReconciledDescriptions` states both cases.
- A language row whose component matches no description is not kept by the terms or
  definitions view. The right join pads it with a null `typeId`, and the type filter then
  drops it.

## Model

| member | source | states |
|---|---|---|
| Strings.LessIrreflexive | src/snomedct/snomedct_datamodel.py:167 | the string order used by `sort()` never puts a string before itself |
| Strings.LessTransitive | src/snomedct/snomedct_datamodel.py:167 | the string order used by `sort()` is transitive |
| Strings.LessTotal | src/snomedct/snomedct_datamodel.py:167 | any two different strings are ordered one way or the other, so sorting is determined |
| Strings.Replace | src/snomedct/snomedct.py:66 | `str.replace`: every non-overlapping occurrence, scanned from the left, is replaced; the result is no longer than the input when the replacement is no longer than the pattern; its behaviour is stated by `ReplaceNone`, `ReplaceOnce` and `ReplaceChar` |
| Strings.ReplaceOnce | src/snomedct/snomedct.py:66 | `str.replace` on a string with exactly one occurrence of the pattern substitutes that occurrence and keeps everything around it |
| Strings.ReplaceNone | src/snomedct/snomedct.py:66 | `str.replace` leaves a string with no occurrence of the pattern unchanged |
| Strings.RemoveOnce | src/snomedct/snomedct.py:66 | `replace("Snapshot", "")` on a string holding one `Snapshot` removes just that word |
| Strings.ReplaceChar | src/snomedct/snomedct.py:66 | `replace("-", "_")` is a character-by-character substitution |
| Strings.ReplaceKeepsOut | src/snomedct/snomedct.py:66 | `replace` never brings in a character absent from both the string and the replacement |
| Strings.LStrip | src/snomedct/snomedct.py:66 | `lstrip("_")` returns a suffix of the input that does not start with `_`, and everything it removed was `_` |
| Strings.Lower | src/snomedct/snomedct.py:66 | `lower()` keeps the length and lower-cases every character |
| Strings.Capitalize | src/snomedct/snomedct.py:67 | `capitalize()` upper-cases the first character and lower-cases the rest |
| Strings.FirstField | src/snomedct/snomedct.py:67 | `split('_')[0]` is the longest prefix without `_`, followed by `_` or by the end of the string |
| Strings.FirstFieldOf | src/snomedct/snomedct.py:67 | the first field of `head + "_" + tail` is `head` when `head` holds no `_` |
| Strings.Split | src/snomedct/cli.py:21 | `split(",")` gives at least one field, none holding the separator, the first being what precedes the first separator |
| Strings.SplitJoin | src/snomedct/cli.py:21 | joining the split fields with the separator gives back the string |
| Strings.JoinSplit | src/snomedct/cli.py:21 | splitting a join of separator-free fields gives back the fields |
| Rows.Concept.Cell | src/snomedct/snomedct_datamodel.py:82-93 | a concept row has exactly the text column `id` |
| Rows.Concept.WithCell | src/snomedct/snomedct_datamodel.py:82-93 | writing a concept cell sets that cell and keeps the others and the `active` flag |
| Rows.Description.Cell | src/snomedct/snomedct_datamodel.py:24-42 | a description row has exactly the text columns id, conceptId, languageCode, typeId and term |
| Rows.Description.WithCell | src/snomedct/snomedct_datamodel.py:24-42 | writing a description cell sets that cell and keeps the others and the `active` flag |
| Rows.Language.Cell | src/snomedct/snomedct_datamodel.py:66-79 | a language row has exactly the text columns id, refsetId, referencedComponentId and acceptabilityId |
| Rows.Language.WithCell | src/snomedct/snomedct_datamodel.py:66-79 | writing a language cell sets that cell and keeps the others and the `active` flag |
| Rows.Relationship.Cell | src/snomedct/snomedct_datamodel.py:45-63 | a relationship row has exactly its six text columns |
| Rows.Relationship.WithCell | src/snomedct/snomedct_datamodel.py:45-63 | writing a relationship cell sets that cell and keeps the others and the `active` flag |
| Tables.Filter | src/snomedct/snomedct_datamodel.py:133-136 | `table.filter(p)` keeps exactly the rows satisfying `p` and is never longer |
| Tables.FilterConcat | src/snomedct/snomedct_datamodel.py:133-136 | filtering a stacked table stacks the filtered parts in order |
| Tables.FilterKeepsAll | src/snomedct/snomedct_datamodel.py:156 | a filter every row passes returns the table unchanged |
| Tables.FilterIdempotent | src/snomedct/snomedct_datamodel.py:156 | filtering twice with the same predicate is filtering once |
| Tables.FilterPartition | src/snomedct/snomedct_datamodel.py:133-136 | a filter and its negation split the table: the counts add up and the multisets recombine |
| Tables.MapRows | src/snomedct/snomedct.py:153-162 | a projection keeps one output row per input row, in order |
| Tables.MapRowsHas | src/snomedct/snomedct.py:153-162 | a row is in a projection exactly when some input row projects to it |
| Tables.MapRowsConcat | src/snomedct/snomedct.py:191 | projecting a stacked table stacks the projections |
| Tables.StrictlySortedDistinct | src/snomedct/snomedct_datamodel.py:167 | a strictly sorted id list holds no duplicates |
| Tables.Insert | src/snomedct/snomedct_datamodel.py:159-167 | inserting into a strictly sorted list keeps it strictly sorted and adds exactly that value |
| Tables.SortUnique | src/snomedct/snomedct_datamodel.py:159-167 | `unique()` then `sort()` gives a strictly sorted list with exactly the input's values |
| Tables.StrictlySortedUnique | src/snomedct/snomedct_datamodel.py:167 | two strictly sorted lists with the same values are equal, so the sorted ids are determined by their set |
| Tables.FilterKeepsSorted | src/snomedct/snomedct_datamodel.py:173 | filtering a sorted id list keeps it sorted |
| Tables.Take | src/snomedct/snomedct_datamodel.py:180 | `ids[:limit]` is a prefix of `limit` rows, or all rows, and a negative limit drops that many rows from the end |
| Tables.TakeKeepsSorted | src/snomedct/snomedct_datamodel.py:180 | slicing a sorted id list keeps it sorted and adds no id |
| Tables.Matching | src/snomedct/snomedct.py:146-151 | the rows of a table whose key equals a given key |
| Tables.Partners | src/snomedct/snomedct.py:146-151 | the join partners of one key: every matching row, or a single null when none matches |
| Tables.LeftJoin | src/snomedct/snomedct.py:127 | a left join pairs every left row with each matching right row, or with null when none matches; no left row is lost |
| Tables.RightJoin | src/snomedct/snomedct.py:146-151 | a right join pairs every right row with each matching left row, or with null when none matches; no right row is lost |
| Tables.RightJoinConcat | src/snomedct/snomedct.py:142-151 | right-joining onto a stacked table stacks the joins of the parts |
| SnomedConfig.CliConfig | src/snomedct/cli.py:21-26 | the command line's settings keep its limit and validation flag, validate in the safe mode, use the configured basenames and rules, and narrow by id exactly when a non-empty id filter is given, whose comma-free parts join back to the argument |
| SnomedConfig.ReplaceChain | src/snomedct/snomedct_config.py:27-38 | computes one cell through a chain of `Expr.replace(code, label)` steps in order, each mapping a value equal to its code to its label; stated by `ReplaceChainUnmatched`, `ReplaceChainIsLookup` and `ReplaceChainMapsCode` |
| SnomedConfig.Lookup | src/snomedct/snomedct_config.py:27-30 | reading the substitutions as a dictionary, a value that is no code is kept |
| SnomedConfig.ReplaceChainUnmatched | src/snomedct/snomedct_config.py:27-30 | a chain of `replace` calls keeps a value that matches none of its codes |
| SnomedConfig.ReplaceChainIsLookup | src/snomedct/snomedct_config.py:27-30 | when no label is the code of a later step, the `replace` chain is the dictionary lookup |
| SnomedConfig.ReplaceChainMapsCode | src/snomedct/snomedct_config.py:27-30 | with distinct codes and no label reused as a later code, the chain maps each code to its own label |
| SnomedConfig.LookupFindsCode | src/snomedct/snomedct_config.py:27-30 | with distinct codes, the lookup maps each code to its label |
| SnomedConfig.Codes | src/snomedct/snomedct_config.py:27-30 | the codes of a chain, one per step, in order |
| SnomedConfig.ReplaceChainTable | src/snomedct/snomedct_config.py:27-30 | a well-formed chain maps each code to its label and different codes to different labels, and keeps every other value |
| SnomedConfig.SubstitutedAccepted | src/snomedct/snomedct_config.py:26-37 | after a chain whose labels are all accepted values, a cell is accepted exactly when it was accepted already or was one of the codes |
| SnomedConfig.DescriptionTypeSubstitution | src/snomedct/snomedct_config.py:26-31 | the description `typeId` codes become `fsn`, `synonym` and `definition`, and a substituted type passes the validator exactly when it was a valid type or one of the codes |
| SnomedConfig.RefsetSubstitution | src/snomedct/snomedct_config.py:33 | the two English reference set codes become `en-GB` and `en-US`, and any other value is kept |
| SnomedConfig.AcceptabilitySubstitution | src/snomedct/snomedct_config.py:34-36 | the acceptability codes become `tilrådd` and `akseptabel`, and a substituted value passes the validator exactly when it was valid or one of the codes |
| SnomedConfig.RelationshipTypeSubstitution | src/snomedct/snomedct_config.py:38 | the `Is a` code becomes its name and every other type is kept |
| SnomedConfig.ConfiguredRulesFitSchemas | src/snomedct/snomedct_config.py:25-39 | only concept tables have no rules; every rule writes a text column of its class, and no class has two rules for one column |
| Reconcile.FieldNamed | src/snomedct/snomedct_datamodel.py:110-127 | looking up a field by attribute name finds a field with that name |
| Reconcile.FieldNamedName | src/snomedct/snomedct_datamodel.py:110-127 | every field is found by its own name |
| Reconcile.AllFieldsListsEveryField | src/snomedct/snomedct_datamodel.py:154 | the fields walked by the active filter are every table field, once each, with distinct names |
| Reconcile.RawTables.Get | src/snomedct/snomedct_datamodel.py:155 | `getattr` on a field returns a table read with that field's record class |
| Reconcile.RawTables.Set | src/snomedct/snomedct_datamodel.py:156 | `setattr` changes the one field and leaves the other fifteen as they were |
| Reconcile.FilterTable | src/snomedct/snomedct_datamodel.py:133-136 | `filter_table` keeps exactly the rows whose column value is in `is_in`, or not in it when `exclude` is set |
| Reconcile.FilterTableSplits | src/snomedct/snomedct_datamodel.py:133-136 | `filter_table` distributes over stacked tables, and its include and exclude forms partition the table |
| Reconcile.FilterSame | src/snomedct/snomedct_datamodel.py:133-136 | two filters that agree on every row of the table give the same result |
| Reconcile.Dedup | src/snomedct/snomedct_datamodel.py:141-151 | computes the tables with every INT row whose id a matching NO table holds filtered out; stated by `DedupShadows` and `DedupIdempotent` |
| Reconcile.DedupShadows | src/snomedct/snomedct_datamodel.py:141-151 | an INT row survives exactly when no row of the matching NO table has its id; NO tables are untouched |
| Reconcile.DedupIdempotent | src/snomedct/snomedct_datamodel.py:141-151 | dropping shadowed INT rows a second time changes nothing |
| Reconcile.ActiveRows | src/snomedct/snomedct_datamodel.py:156 | filtering on `active == 1` keeps the table's record class |
| Reconcile.ActiveRowsSpec | src/snomedct/snomedct_datamodel.py:153-156 | the active filter leaves only active rows, is idempotent, and keeps an all-active table unchanged |
| Reconcile.ActiveOnly | src/snomedct/snomedct_datamodel.py:153-156 | every one of the sixteen fields holds its table's active rows |
| Reconcile.ActiveFieldStep | src/snomedct/snomedct_datamodel.py:154-156 | one pass of the field loop filters the current field and keeps the filtered and unfiltered fields as they were |
| Reconcile.ActiveOnlyAllActive | src/snomedct/snomedct_datamodel.py:153-156 | after the active filter every row of every field is active |
| Reconcile.BaselineIds | src/snomedct/snomedct_datamodel.py:158-167 | computes the sorted unique concept ids of both concept tables, kept when an active national description names them; stated by `BaselineIdsSpec` |
| Reconcile.BaselineIdsSpec | src/snomedct/snomedct_datamodel.py:158-167 | the baseline ids are strictly sorted, and an id is in them exactly when it is a concept of either table and has an active Norwegian description |
| Reconcile.ScopeIds | src/snomedct/snomedct_datamodel.py:170-180 | computes the ids after the allow-list and then the limit, each applied only when truthy; stated by `ScopeIdsNarrows` |
| Reconcile.ScopeIdsNarrows | src/snomedct/snomedct_datamodel.py:170-180 | narrowing keeps the ids sorted, inside the baseline and, with an allow-list, allowed; with only an allow-list they are exactly the allowed baseline ids; with a limit they are a prefix of the allow-listed ids, at most `limit` long when `limit` is positive; with neither they are the baseline |
| Reconcile.ComponentIds | src/snomedct/snomedct_datamodel.py:193 | the component ids are exactly the ids of the descriptions and the definitions |
| Reconcile.Cascade | src/snomedct/snomedct_datamodel.py:182-213 | computes the tables cut down to the ids: descriptions and definitions by concept, language rows by component, relationships by source or destination; stated by the `Cascade*` lemmas |
| Reconcile.CascadeDescriptions | src/snomedct/snomedct_datamodel.py:182-190 | English descriptions and every definition table keep exactly the rows of an id's concept; national descriptions do so only when narrowing was configured, and are otherwise kept |
| Reconcile.CascadeLanguages | src/snomedct/snomedct_datamodel.py:192-205 | each language reference set keeps exactly the rows that refer to a surviving description or definition of its own package and language |
| Reconcile.CascadeRelationships | src/snomedct/snomedct_datamodel.py:207-213 | a relationship survives exactly when its source or its destination is an id |
| Reconcile.CascadeShrinks | src/snomedct/snomedct_datamodel.py:182-213 | the cascade only removes rows: every field ends up a sub-table of what it was |
| Reconcile.ActiveConceptRows | src/snomedct/snomedct_datamodel.py:141-159 | after dedup and the active filter, an id belongs to a concept row exactly when it is an active concept: it has an active NO concept row, or an active INT concept row whose id no NO concept row shares, active or not |
| Reconcile.ActiveBaseline | src/snomedct/snomedct_datamodel.py:141-168 | the ids derived from the deduplicated active tables are sorted and are exactly the active concepts (an active NO concept row, or an active INT one whose id no NO concept row shares, active or not) with an active Norwegian description |
| Reconcile.Reconciled | src/snomedct/snomedct_datamodel.py:129-213 | computes the tables and ids the post-init step leaves: dedup, active filter, ids, cascade; stated by the `Reconciled*` lemmas and matched by `SnomedDataRaw.PostInit` |
| Reconcile.ReconciledIds | src/snomedct/snomedct_datamodel.py:129-180 | the final ids are sorted, are active concepts (as in `ActiveConceptRows`, INT rows shadowed by any NO row) with an active Norwegian description, and are allowed ones when an allow-list is set; without narrowing they are exactly those concepts; with only an allow-list they are exactly the allowed ones among them |
| Reconcile.SubTableActive | src/snomedct/snomedct_datamodel.py:182-213 | a sub-table of an all-active table is all active |
| Reconcile.ReconciledAllActive | src/snomedct/snomedct_datamodel.py:129-213 | after reconciliation every row of every field is active |
| Reconcile.ReconciledShadowing | src/snomedct/snomedct_datamodel.py:141-151 | after reconciliation no INT row shares its id with a row of the matching NO table as loaded |
| Reconcile.ReconciledDescriptions | src/snomedct/snomedct_datamodel.py:182-190 | after reconciliation every English description and every definition belongs to an id's concept; national descriptions are exactly the active ones of the ids when narrowing was configured, and every active one otherwise |
| Reconcile.ReconciledRelationships | src/snomedct/snomedct_datamodel.py:207-213 | a relationship survives reconciliation exactly when it is active, is not shadowed (INT), and its source or its destination is an id |
| Reconcile.SnomedDataRaw.constructor | src/snomedct/snomedct_datamodel.py:106-129 | constructing the raw dataset runs the post-init step: the fields end up as the reconciliation of the loaded tables |
| Reconcile.SnomedDataRaw.PostInit | src/snomedct/snomedct_datamodel.py:129-213 | the post-init step leaves the tables and ids that the reconciliation specification gives for the loaded tables and the configuration |
| Reconcile.SnomedDataRaw.DropShadowedIntRows | src/snomedct/snomedct_datamodel.py:141-151 | the five INT tables lose their shadowed rows, and nothing else changes |
| Reconcile.SnomedDataRaw.KeepActiveRows | src/snomedct/snomedct_datamodel.py:153-156 | the loop over the fields leaves every field holding its active rows, and nothing else changes |
| Reconcile.SnomedDataRaw.DeriveIds | src/snomedct/snomedct_datamodel.py:158-180 | the ids become the narrowed baseline ids of the current tables, and the tables are unchanged |
| Reconcile.SnomedDataRaw.CascadeToIds | src/snomedct/snomedct_datamodel.py:182-213 | the tables become the cascade of the current tables to the ids, and the ids and the configuration are unchanged |
| Loading.Dashes | src/snomedct/snomedct.py:66 | `replace("-", "_")` turns every dash into an underscore and keeps every other character |
| Loading.TableKey | src/snomedct/snomedct.py:66 | the derived key is never longer than the basename |
| Loading.TableKeyShape | src/snomedct/snomedct.py:66 | a derived key holds no dash and no upper-case letter |
| Loading.SchemaClassName | src/snomedct/snomedct.py:67 | computes `SnomedTable` plus the capitalised first `_`-field of the key; stated by `ClassOfWord` |
| Loading.SchemaByName | src/snomedct/snomedct.py:67 | the class lookup succeeds exactly for the five class names in scope, each giving the class of that name, with `SnomedTableDefinition` giving the description class; any other name is a KeyError |
| Loading.KeyWithCollapse | src/snomedct/snomedct.py:66 | the key of a basename whose dashed form has one double underscore: remove `Snapshot`, strip, dash, collapse, lower |
| Loading.KeyWithoutCollapse | src/snomedct/snomedct.py:66 | the key of a basename whose dashed form has no double underscore |
| Loading.CollapsedKey | src/snomedct/snomedct.py:66 | the key of `Word_Snapshot…` or `_Word_Snapshot…` is the lower-case word, `_`, and the lower-case locale suffix |
| Loading.PlainKey | src/snomedct/snomedct.py:66 | the key of `WordSnapshot-…` is the lower-case word followed by the suffix with dashes made underscores |
| Loading.ClassOfWord | src/snomedct/snomedct.py:67 | the class name of a key is `SnomedTable` and its capitalised first word |
| Loading.ConceptNoKey | src/snomedct/snomedct_config.py:7 | `Concept_Snapshot_NO` loads into `concept_no` |
| Loading.ConceptIntKey | src/snomedct/snomedct_config.py:8 | `Concept_Snapshot_INT` loads into `concept_int` |
| Loading.DescriptionNoNoKey | src/snomedct/snomedct_config.py:9 | `Description_Snapshot-no_NO` loads into `description_no_no` |
| Loading.DescriptionEnNoKey | src/snomedct/snomedct_config.py:10 | `Description_Snapshot-en_NO` loads into `description_en_no` |
| Loading.DescriptionEnIntKey | src/snomedct/snomedct_config.py:11 | `Description_Snapshot-en_INT` loads into `description_en_int` |
| Loading.DefinitionNoNoKey | src/snomedct/snomedct_config.py:12 | `Definition_Snapshot-no_NO` loads into `definition_no_no` |
| Loading.DefinitionEnNoKey | src/snomedct/snomedct_config.py:13 | `Definition_Snapshot-en_NO` loads into `definition_en_no` |
| Loading.DefinitionEnIntKey | src/snomedct/snomedct_config.py:14 | `Definition_Snapshot-en_INT` loads into `definition_en_int` |
| Loading.LanguageNbNoKey | src/snomedct/snomedct_config.py:15 | `LanguageSnapshot-nb_NO` loads into `language_nb_no` |
| Loading.LanguageNbGpNoKey | src/snomedct/snomedct_config.py:16 | `LanguageSnapshot-nb-gp_NO` loads into `language_nb_gp_no` |
| Loading.LanguageNnNoKey | src/snomedct/snomedct_config.py:17 | `LanguageSnapshot-nn_NO` loads into `language_nn_no` |
| Loading.LanguageNnGpNoKey | src/snomedct/snomedct_config.py:18 | `LanguageSnapshot-nn-gp_NO` loads into `language_nn_gp_no` |
| Loading.LanguageEnNoKey | src/snomedct/snomedct_config.py:19 | `LanguageSnapshot-en_NO` loads into `language_en_no` |
| Loading.LanguageEnIntKey | src/snomedct/snomedct_config.py:20 | `LanguageSnapshot-en_INT` loads into `language_en_int` |
| Loading.RelationshipNoKey | src/snomedct/snomedct_config.py:21 | `_Relationship_Snapshot_NO` loads into `relationship_no` |
| Loading.RelationshipIntKey | src/snomedct/snomedct_config.py:22 | `_Relationship_Snapshot_INT` loads into `relationship_int` |
| Loading.FieldClass | src/snomedct/snomedct.py:67 | the class looked up from every field's key is the record class that field holds |
| Loading.ConfiguredBasenamesNameEveryField | src/snomedct/snomedct_config.py:6-23 | the sixteen basenames derive the sixteen field names in declaration order, pairwise different, each selecting its field's record class |
| Loading.FileMatches | src/snomedct/snomedct.py:69 | the matches are exactly the file names that contain the basename |
| Loading.RuleFor | src/snomedct/snomedct.py:81-84 | the substitution that writes a column exists exactly when some rule names it, and is one of the rules |
| Loading.SubstituteRowCells | src/snomedct/snomedct.py:84 | after `with_columns`, each cell holds its loaded value run through the rule for its column, or its loaded value when no rule writes it; `active` is kept |
| Loading.UnknownColumn | src/snomedct/snomedct.py:84 | a rule naming a column the table lacks is reported exactly when one exists |
| Loading.RepeatedColumn | src/snomedct/snomedct.py:84 | two rules writing one column are reported exactly when they exist |
| Loading.RulesFor | src/snomedct/snomedct.py:81 | computes `table_replace_values.get(class name)`, with a missing entry read as no rules; stated through `LoadFieldReads`, which applies the rules only when there are some, and `ConfiguredRulesOf` |
| Loading.SubstituteRow | src/snomedct/snomedct.py:84 | computes one row after `with_columns(rules)`, every rule reading the loaded row; stated by `SubstituteRowCells` |
| Loading.ApplyRules | src/snomedct/snomedct.py:81-84 | the substitutions fail exactly when a rule names a missing column or two rules write the same column, with `ColumnNotFound` or `DuplicateColumn` and no other error; otherwise the table keeps its record class |
| Loading.InvalidRowCount | src/snomedct/snomedct.py:51-60 | the number of rows that fail their record class is zero exactly when the table is valid |
| Loading.FailuresWitness | src/snomedct/snomedct.py:51-60 | no row fails exactly when every row constructs |
| Loading.FirstFailure | src/snomedct/snomedct.py:51-60 | once the scan has met one failing row, the first failing row of the table is that one |
| Loading.ValidateRows | src/snomedct/snomedct.py:51-60 | the scan warns about every failing row in the safe mode; otherwise it warns about the first failing row and raises exactly when there is one |
| Loading.ValidateTable | src/snomedct/snomedct.py:51-60 | `validate_table` raises exactly when the mode is unsafe and a row is invalid; it logs every invalid row in the safe mode, and only the first otherwise |
| Loading.LoadField | src/snomedct/snomedct.py:63-90 | an unknown record class fails with `UnknownSchema`; for a known class, more than one match fails with `AmbiguousMatch` listing the matches and none fails with `NoFileMatch`, before any file is read; a success returns the derived key and needs exactly one matching file; the loaded table is stated by `LoadFieldReads` |
| Loading.GenerateDatasetField | src/snomedct/snomedct.py:63-90 | the method returns what `LoadField` specifies; on success it has counted one warned row per invalid row in safe validation and none otherwise, and on failure one warned row exactly when it raised `InvalidRow` |
| Loading.LocateTable | src/snomedct/snomedct.py:66-79 | the lookup succeeds exactly for a known record class with one matching file, returning the derived key, that class and that file; an unknown class is a KeyError (`UnknownSchema`), more than one match a ValueError (`AmbiguousMatch`), and no match the IndexError at `file_matches[0]` (`NoFileMatch`) |
| Loading.Prepared | src/snomedct/snomedct.py:81-88 | computes the read table after its class's rules, when it has any, and unsafe validation; stated by `PrepareTable` and `LoadFieldReads` |
| Loading.PrepareTable | src/snomedct/snomedct.py:79-88 | the read table is substituted only when its class has rules and refused only by unsafe validation, as `Prepared` specifies; on success it has counted one warned row per invalid row in safe validation and none otherwise, and on failure one warned row exactly when it raised `InvalidRow` |
| Loading.LoadFieldPrepared | src/snomedct/snomedct.py:63-90 | with a known class and one matching file, loading is reading that file with the class and then preparing it, under the derived key |
| Loading.LoadFieldReads | src/snomedct/snomedct.py:79-88 | with a known class and one matching file, the result is the file read with the class, passed through the class's rules only when it has some (their failure is the error), and `InvalidRow` exactly when validation is on, unsafe and the substituted table is invalid |
| Loading.FieldLoads | src/snomedct/snomedct.py:63-90 | with one matching file, a load whose key names a field can fail only with an invalid row in the unsafe mode; otherwise it fills that field with a table of its record class: the file as read for a concept field, and the file after the configured substitutions of its class otherwise |
| Loading.ConfiguredRulesOf | src/snomedct/snomedct_config.py:25-39 | under the configured rules, concepts get none and every other record class a non-empty list, its entry in the configuration |
| Loading.ConfiguredRulesApply | src/snomedct/snomedct.py:81-84 | the configured substitutions always apply to a table of any record class |
| Loading.CliFieldLoads | src/snomedct/cli.py:22-28 | under the command line's settings every configured basename with one matching file loads into its field, since validation there never raises |
| Loading.ConfiguredFieldLoads | src/snomedct/snomedct.py:106-109 | loading the i-th configured basename with one matching file fills the i-th field with the file as read (concepts) or after its class's configured substitutions (a definition table gets the description rules), or fails only with an invalid row in the unsafe mode |
| Loading.SubstitutedDescriptionValid | src/snomedct/snomedct.py:81-88 | after substitution, a description row passes its validators exactly when its flag and language are valid and its type is a valid type or one of the type codes |
| Loading.SubstitutedLanguageValid | src/snomedct/snomedct.py:81-88 | after substitution, a language row passes its validators exactly when its flag is valid and its acceptability is a valid label or one of the acceptability codes |
| Loading.ConfiguredDescriptionTableValid | src/snomedct/snomedct.py:81-88 | the configured substitutions apply to a description table, and the result is valid exactly when every loaded row is acceptable |
| Loading.ConfiguredLanguageTableValid | src/snomedct/snomedct.py:81-88 | the configured substitutions apply to a language table, and the result is valid exactly when every loaded row is acceptable |
| Denormalize.AnnotateGp | src/snomedct/snomedct.py:126-139 | the GP left join keeps at least one annotated row per language row |
| Denormalize.AnnotateGpSpec | src/snomedct/snomedct.py:126-139 | every annotated row is a language row with the locale tag; its GP acceptability is null exactly when no GP row has its component, and is otherwise a GP row's acceptability; every language row appears with each GP match, or with null |
| Denormalize.JoinedHas | src/snomedct/snomedct.py:145-163 | a row of a right-joined, filtered and projected view comes from a right row and its join partner that pass the filter, and every such pair gives a row |
| Denormalize.NoTerms | src/snomedct/snomedct.py:145-163 | computes national term rows: a right join of descriptions onto annotated language rows, the fsn/synonym filter and the seven-column projection; stated by `NoTermsHas` |
| Denormalize.TermsNo | src/snomedct/snomedct.py:123-163 | computes `terms_no` from `description_no_no` and the stacked nb and nn annotated rows; stated by `TermsNoRows`, `TermsNoKeepsLanguageRows` and `TermsNoByLocale` |
| Denormalize.NoTermsHas | src/snomedct/snomedct.py:145-163 | a national term row is exactly a national description of type fsn or synonym, joined with an annotated language row for it |
| Denormalize.TermsNoRows | src/snomedct/snomedct.py:123-163 | every national term has locale `nb` or `nn`, a non-null concept, term and type, a term type, and the columns of a national description with the term id |
| Denormalize.TermsNoKeepsLanguageRows | src/snomedct/snomedct.py:123-163 | a bokmål or nynorsk language row for a national fsn or synonym gives a term with that locale: with a null GP acceptability when no GP row matches, and with each GP row's acceptability otherwise |
| Denormalize.TermsNoByLocale | src/snomedct/snomedct.py:142-163 | the national terms are the bokmål terms followed by the nynorsk terms |
| Denormalize.TermsEn | src/snomedct/snomedct.py:165-189 | computes `terms_en` from the stacked English descriptions right-joined onto the stacked English language rows; stated by `TermsEnHas`, `TermsEnRows` and `TermsEnKeepsLanguageRows` |
| Denormalize.TermsEnHas | src/snomedct/snomedct.py:165-189 | an English term row is exactly an English description of type fsn or synonym joined with an English language row for it |
| Denormalize.TermsEnRows | src/snomedct/snomedct.py:165-189 | every English term has a null GP acceptability, a term type, the columns of an English description, and the locale and acceptability of an English language row |
| Denormalize.TermsEnKeepsLanguageRows | src/snomedct/snomedct.py:165-189 | every English language row for an English fsn or synonym gives a term whose locale is the row's `refsetId` |
| Denormalize.DenormalizeTerms | src/snomedct/snomedct.py:191 | the terms are the national terms followed by the English terms |
| Denormalize.TermsHaveTermTypes | src/snomedct/snomedct.py:152 | the terms view never holds a definition: every type is fsn or synonym |
| Denormalize.Tag | src/snomedct/snomedct.py:198-201 | tagging keeps every language row, in order, with the literal locale |
| Denormalize.NoDefinitions | src/snomedct/snomedct.py:205-215 | computes national definition rows: a right join of definitions onto tagged language rows, the `definition` filter and the four-column projection; stated by `NoDefinitionsHas` |
| Denormalize.DefinitionsNo | src/snomedct/snomedct.py:194-215 | computes `definitions_no` from `definition_no_no` and the four tagged national tables; stated by `DefinitionsNoRows` and `DefinitionsNoKeepsLanguageRows` |
| Denormalize.NoDefinitionsHas | src/snomedct/snomedct.py:205-215 | a national definition row is exactly a national definition of type `definition` joined with a tagged language row for it |
| Denormalize.NoDefinitionLanguageRows | src/snomedct/snomedct.py:196-203 | the tagged language rows are exactly the rows of the four national tables, GP registers included, with `nb` or `nn` |
| Denormalize.DefinitionsNoRows | src/snomedct/snomedct.py:194-215 | every national definition row has locale `nb` or `nn`, a non-null concept and term, and the columns of a national definition of type `definition` |
| Denormalize.DefinitionsNoKeepsLanguageRows | src/snomedct/snomedct.py:194-215 | a row of any of the four national language tables for a national definition gives a definition row with that table's locale |
| Denormalize.DefinitionsEn | src/snomedct/snomedct.py:217-230 | computes `definitions_en` from the stacked English definitions right-joined onto the stacked English language rows; stated by `DefinitionsEnHas` and `DefinitionsEnRows` |
| Denormalize.DefinitionsEnHas | src/snomedct/snomedct.py:217-230 | an English definition row is exactly an English definition joined with an English language row for it |
| Denormalize.DefinitionsEnRows | src/snomedct/snomedct.py:217-230 | every English definition row has the columns of an English definition and the locale of an English language row's `refsetId`, and every such pair gives a row |
| Denormalize.DenormalizeDefinitions | src/snomedct/snomedct.py:232 | the definitions are the national definitions followed by the English ones |
| Denormalize.DenormalizeDataset | src/snomedct/snomedct.py:235-244 | the dataset keeps the ids, holds the terms and definitions views, and stacks the NO relationships before the INT ones |
| Denormalize.ReconciledRelations | src/snomedct/snomedct.py:243 | every relation built from the reconciled tables is active and touches an id |
| Denormalize.ReconciledTermsEn | src/snomedct/snomedct.py:165-189 | every English term built from the reconciled tables belongs to a concept among the ids |
| Denormalize.ReconciledTermsNarrowed | src/snomedct/snomedct.py:123-191 | when an allow-list or a limit was set, every term built from the reconciled tables belongs to a concept among the ids |
| Denormalize.DefinitionsOfConcepts | src/snomedct/snomedct.py:194-232 | when every definition table holds only definitions of the ids, so does the definitions view |
| Denormalize.ReconciledDefinitions | src/snomedct/snomedct.py:194-232 | every definition built from the reconciled tables belongs to a concept among the ids |

## Left out

- Reading files (`read_file_to_polars`) is a parameter `read` of the loading functions.
  The loading lemmas assume only that it returns a table of the record class it is asked
  for.
- The directory checks and the glob in `snomed_load_dataset_from_files` are not modelled.
  The file names are a parameter. The `Metadata` and `Dataset` wrappers are left out too.
  Those are I/O and bookkeeping.
- Logging is not modelled. `validate_table` reports how many rows it warns about, and
  nothing else.
- `reduce_table` is declared in the post-init step but never called, so it is not
  modelled.
- The command line in `cli.py` is modelled only as the settings it builds; option parsing
  and printing the result are left out. `utils.py` and `logging_config.py` are not part of
  this model. They hold schema conversion and logging setup.
- Strings.Lower, Strings.Capitalize: case only ASCII letters, where Python's `lower()` and
  `capitalize()` also map other letters such as `Ø`. The configured basenames are ASCII.
- The row order inside a join is not modelled beyond the source's promise. The model
  lists right rows in order, each with its partners in left order. polars does not promise
  that order. Only the order of stacked tables is claimed.
- Column dtypes, the dropped `active_right` column and polars' coercion of a right-join
  key are not modelled. Rows keep only the columns the record classes declare.
- A substitution rule that names a non-text column fails with `ColumnNotFound`. No
  configured rule does that.
- When several substitution rules fail, which error polars reports first is not
  modelled.
- Denormalize.ReconciledTermsNarrowed: holds only when an allow-list or a limit is set.
  Without narrowing, national descriptions are not cut down to the ids, so a national
  term may belong to a concept outside the ids.
