/**
 * The run settings and the constant SNOMED CT configuration: the sixteen table basenames
 * to load and, per record class, the code-to-label substitutions applied to loaded
 * columns.
 */
module SnomedConfig {
  import opened Wrappers
  import opened Strings
  import opened Rows

  /* ---------------------------------------------------------------------------------
   * Settings.
   * ------------------------------------------------------------------------------ */

  /**
   * One column substitution, `pl.col(column).replace(c1, l1).replace(c2, l2)…`:
   * the pairs are applied in order, each mapping a whole cell value equal to its code
   * to its label.
   */
  datatype ColumnReplace = ColumnReplace(column: string, replacements: seq<(string, string)>)

  /** The SNOMED CT specific settings. */
  datatype Extras = Extras(
    idFilter: Option<seq<string>>,
    tables: seq<string>,
    globPattern: string,
    tableReplaceValues: map<string, seq<ColumnReplace>>)

  /** The settings of one run. An absent `limit` is Python's None. */
  datatype Config = Config(limit: Option<int>, validate: bool, safeValidation: bool, extras: Extras)
  {
    /** `if config.extras.id_filter:` — set and not empty. */
    predicate IdFilterSet()
    {
      extras.idFilter.Some? && |extras.idFilter.value| > 0
    }

    /** `if config.limit:` — set and not zero. */
    predicate LimitSet()
    {
      limit.Some? && limit.value != 0
    }
  }

  /**
   * The settings the command line builds from `--limit`, `--id-filter` (a comma separated
   * list) and `--validate`: the configured basenames and rules, validation in the safe
   * mode, and the id filter split at its commas when it is given and not empty.
   */
  function CliConfig(limit: Option<int>, idFilter: Option<string>, validate: bool): (c: Config)
    ensures c.limit == limit && c.validate == validate && c.safeValidation
    ensures c.extras.tables == TableBasenames && c.extras.tableReplaceValues == TableReplaceValues
    ensures c.IdFilterSet() <==> idFilter.Some? && |idFilter.value| > 0
    ensures c.extras.idFilter.Some? ==>
      idFilter.Some? && |c.extras.idFilter.value| > 0 && Join(c.extras.idFilter.value, ',') == idFilter.value &&
      forall i :: 0 <= i < |c.extras.idFilter.value| ==> ',' !in c.extras.idFilter.value[i]
  {
    if idFilter.Some? && |idFilter.value| > 0 then
      SplitJoin(idFilter.value, ',');
      Config(limit, validate, true, Extras(Some(Split(idFilter.value, ',')), TableBasenames, GlobPattern, TableReplaceValues))
    else
      Config(limit, validate, true, Extras(None, TableBasenames, GlobPattern, TableReplaceValues))
  }

  /* ---------------------------------------------------------------------------------
   * The configured constants.
   * ------------------------------------------------------------------------------ */

  /** The snapshot file basenames to load, one per raw table, in declaration order. */
  const TableBasenames: seq<string> := [
    "Concept_Snapshot_NO",
    "Concept_Snapshot_INT",
    "Description_Snapshot-no_NO",
    "Description_Snapshot-en_NO",
    "Description_Snapshot-en_INT",
    "Definition_Snapshot-no_NO",
    "Definition_Snapshot-en_NO",
    "Definition_Snapshot-en_INT",
    "LanguageSnapshot-nb_NO",
    "LanguageSnapshot-nb-gp_NO",
    "LanguageSnapshot-nn_NO",
    "LanguageSnapshot-nn-gp_NO",
    "LanguageSnapshot-en_NO",
    "LanguageSnapshot-en_INT",
    "_Relationship_Snapshot_NO",
    "_Relationship_Snapshot_INT"
  ]

  /** Where the release files are looked for. */
  const GlobPattern: string := "input/*/Snapshot/*/**/*.txt"

  /** Description `typeId` codes and the type names the description validator accepts. */
  const DescriptionTypeRules: seq<(string, string)> := [
    ("900000000000003001", "fsn"),
    ("900000000000013009", "synonym"),
    ("900000000000550004", "definition")
  ]

  /** Language reference set codes and the English locale tags. */
  const RefsetRules: seq<(string, string)> := [
    ("900000000000508004", "en-GB"),
    ("900000000000509007", "en-US")
  ]

  /** Acceptability codes and the labels the language validator accepts. */
  const AcceptabilityRules: seq<(string, string)> := [
    ("900000000000548007", "tilrådd"),
    ("900000000000549004", "akseptabel")
  ]

  /** Relationship `typeId` codes and their names. */
  const RelationshipTypeRules: seq<(string, string)> := [
    ("116680003", "Is a (attribute)")
  ]

  /** The substitutions per record class name. Concept tables have none. */
  const TableReplaceValues: map<string, seq<ColumnReplace>> := map[
    "SnomedTableDescription" := [ColumnReplace("typeId", DescriptionTypeRules)],
    "SnomedTableLanguage" := [
      ColumnReplace("refsetId", RefsetRules),
      ColumnReplace("acceptabilityId", AcceptabilityRules)
    ],
    "SnomedTableRelationship" := [ColumnReplace("typeId", RelationshipTypeRules)]
  ]

  /* ---------------------------------------------------------------------------------
   * Applying a chain of value substitutions.
   * ------------------------------------------------------------------------------ */

  /** The chain `.replace(c1, l1).replace(c2, l2)…` applied to one cell value. */
  function ReplaceChain(replacements: seq<(string, string)>, v: string): string
    decreases |replacements|
  {
    if |replacements| == 0 then v
    else
      var next := if v == replacements[0].0 then replacements[0].1 else v;
      ReplaceChain(replacements[1..], next)
  }

  /** A reference reading of the substitutions as a dictionary: the label of the first equal code. */
  function Lookup(replacements: seq<(string, string)>, v: string): (r: string)
    ensures (forall i :: 0 <= i < |replacements| ==> replacements[i].0 != v) ==> r == v
    decreases |replacements|
  {
    if |replacements| == 0 then v
    else if replacements[0].0 == v then replacements[0].1
    else Lookup(replacements[1..], v)
  }

  /** No label equals a code that comes later in the chain, so a replaced value is never replaced again. */
  predicate LabelsNotLaterCodes(replacements: seq<(string, string)>)
  {
    forall i, j :: 0 <= i < j < |replacements| ==> replacements[i].1 != replacements[j].0
  }

  /** No two pairs share a code. */
  predicate CodesDistinct(replacements: seq<(string, string)>)
  {
    forall i, j :: 0 <= i < j < |replacements| ==> replacements[i].0 != replacements[j].0
  }

  /** A value equal to no code passes through the chain unchanged. */
  lemma {:induction false} ReplaceChainUnmatched(replacements: seq<(string, string)>, v: string)
    requires forall i :: 0 <= i < |replacements| ==> replacements[i].0 != v
    ensures ReplaceChain(replacements, v) == v
    decreases |replacements|
  {
    if |replacements| > 0 {
      ReplaceChainUnmatched(replacements[1..], v);
    }
  }

  /** When no label is a later code, the chain behaves as the dictionary lookup. */
  lemma {:induction false} ReplaceChainIsLookup(replacements: seq<(string, string)>, v: string)
    requires LabelsNotLaterCodes(replacements)
    ensures ReplaceChain(replacements, v) == Lookup(replacements, v)
    decreases |replacements|
  {
    if |replacements| > 0 {
      var rest := replacements[1..];
      if v == replacements[0].0 {
        forall i | 0 <= i < |rest|
          ensures rest[i].0 != replacements[0].1
        {
          assert rest[i] == replacements[i + 1];
        }
        ReplaceChainUnmatched(rest, replacements[0].1);
      } else {
        ReplaceChainIsLookup(rest, v);
      }
    }
  }

  /** Each code maps to its own label when the codes are distinct and no label is a later code. */
  lemma {:induction false} ReplaceChainMapsCode(replacements: seq<(string, string)>, i: int)
    requires LabelsNotLaterCodes(replacements) && CodesDistinct(replacements)
    requires 0 <= i < |replacements|
    ensures ReplaceChain(replacements, replacements[i].0) == replacements[i].1
    decreases |replacements|
  {
    ReplaceChainIsLookup(replacements, replacements[i].0);
    LookupFindsCode(replacements, i);
  }

  lemma {:induction false} LookupFindsCode(replacements: seq<(string, string)>, i: int)
    requires CodesDistinct(replacements)
    requires 0 <= i < |replacements|
    ensures Lookup(replacements, replacements[i].0) == replacements[i].1
    decreases |replacements|
  {
    if i > 0 {
      assert replacements[0].0 != replacements[i].0;
      LookupFindsCode(replacements[1..], i - 1);
    }
  }

  /** The codes of a substitution chain, in order. */
  function Codes(replacements: seq<(string, string)>): (r: seq<string>)
    ensures |r| == |replacements|
    ensures forall i :: 0 <= i < |r| ==> r[i] == replacements[i].0
  {
    seq(|replacements|, i requires 0 <= i < |replacements| => replacements[i].0)
  }

  /** A well-formed chain maps the listed codes one-to-one onto the labels and leaves every other value alone. */
  lemma ReplaceChainTable(replacements: seq<(string, string)>)
    requires LabelsNotLaterCodes(replacements) && CodesDistinct(replacements)
    requires forall i, j :: 0 <= i < j < |replacements| ==> replacements[i].1 != replacements[j].1
    ensures forall i :: 0 <= i < |replacements| ==> ReplaceChain(replacements, replacements[i].0) == replacements[i].1
    ensures forall i, j :: 0 <= i < j < |replacements| ==>
      ReplaceChain(replacements, replacements[i].0) != ReplaceChain(replacements, replacements[j].0)
    ensures forall v :: v !in Codes(replacements) ==> ReplaceChain(replacements, v) == v
  {
    forall i | 0 <= i < |replacements|
      ensures ReplaceChain(replacements, replacements[i].0) == replacements[i].1
    {
      ReplaceChainMapsCode(replacements, i);
    }
    forall v | v !in Codes(replacements)
      ensures ReplaceChain(replacements, v) == v
    {
      var codes := Codes(replacements);
      forall i | 0 <= i < |replacements|
        ensures replacements[i].0 != v
      {
        assert codes[i] == replacements[i].0;
      }
      ReplaceChainUnmatched(replacements, v);
    }
  }

  /**
   * After substitution a cell holds a value of `accepted` exactly when it held one of the
   * codes or already held an accepted value, provided every label is accepted.
   */
  lemma SubstitutedAccepted(replacements: seq<(string, string)>, accepted: set<string>, v: string)
    requires LabelsNotLaterCodes(replacements) && CodesDistinct(replacements)
    requires forall i, j :: 0 <= i < j < |replacements| ==> replacements[i].1 != replacements[j].1
    requires forall i :: 0 <= i < |replacements| ==> replacements[i].1 in accepted
    ensures ReplaceChain(replacements, v) in accepted <==> v in accepted || v in Codes(replacements)
    ensures v in Codes(replacements) ==> ReplaceChain(replacements, v) != v || v in accepted
  {
    ReplaceChainTable(replacements);
    if v in Codes(replacements) {
      var codes := Codes(replacements);
      var i :| 0 <= i < |codes| && codes[i] == v;
      assert ReplaceChain(replacements, replacements[i].0) == replacements[i].1;
    }
  }

  /** The description type codes become exactly the type names the description validator accepts. */
  lemma DescriptionTypeSubstitution()
    ensures ReplaceChain(DescriptionTypeRules, "900000000000003001") == "fsn"
    ensures ReplaceChain(DescriptionTypeRules, "900000000000013009") == "synonym"
    ensures ReplaceChain(DescriptionTypeRules, "900000000000550004") == "definition"
    ensures forall t :: t in DescriptionTypes <==> exists i :: 0 <= i < |DescriptionTypeRules| && DescriptionTypeRules[i].1 == t
    ensures forall v :: ReplaceChain(DescriptionTypeRules, v) in DescriptionTypes <==>
      v in DescriptionTypes || v in Codes(DescriptionTypeRules)
  {
    ReplaceChainTable(DescriptionTypeRules);
    assert DescriptionTypeRules[0].1 == "fsn" && DescriptionTypeRules[1].1 == "synonym";
    assert DescriptionTypeRules[2].1 == "definition";
    forall v
      ensures ReplaceChain(DescriptionTypeRules, v) in DescriptionTypes <==>
        v in DescriptionTypes || v in Codes(DescriptionTypeRules)
    {
      SubstitutedAccepted(DescriptionTypeRules, DescriptionTypes, v);
    }
  }

  /** The two English reference set codes become the locale tags en-GB and en-US. */
  lemma RefsetSubstitution()
    ensures ReplaceChain(RefsetRules, "900000000000508004") == "en-GB"
    ensures ReplaceChain(RefsetRules, "900000000000509007") == "en-US"
    ensures forall v :: v !in Codes(RefsetRules) ==> ReplaceChain(RefsetRules, v) == v
  {
    ReplaceChainTable(RefsetRules);
  }

  /** The acceptability codes become exactly the labels the language validator accepts. */
  lemma AcceptabilitySubstitution()
    ensures ReplaceChain(AcceptabilityRules, "900000000000548007") == "tilrådd"
    ensures ReplaceChain(AcceptabilityRules, "900000000000549004") == "akseptabel"
    ensures forall t :: t in Acceptabilities <==> exists i :: 0 <= i < |AcceptabilityRules| && AcceptabilityRules[i].1 == t
    ensures forall v :: ReplaceChain(AcceptabilityRules, v) in Acceptabilities <==>
      v in Acceptabilities || v in Codes(AcceptabilityRules)
  {
    ReplaceChainTable(AcceptabilityRules);
    assert AcceptabilityRules[0].1 == "tilrådd" && AcceptabilityRules[1].1 == "akseptabel";
    forall v
      ensures ReplaceChain(AcceptabilityRules, v) in Acceptabilities <==>
        v in Acceptabilities || v in Codes(AcceptabilityRules)
    {
      SubstitutedAccepted(AcceptabilityRules, Acceptabilities, v);
    }
  }

  /** The relationship type code of "Is a" becomes its name; other relationship types are kept. */
  lemma RelationshipTypeSubstitution()
    ensures ReplaceChain(RelationshipTypeRules, "116680003") == "Is a (attribute)"
    ensures forall v :: v != "116680003" ==> ReplaceChain(RelationshipTypeRules, v) == v
  {
    ReplaceChainTable(RelationshipTypeRules);
    assert Codes(RelationshipTypeRules) == ["116680003"];
  }

  /** A list of column substitutions whose chains are well formed and whose columns are distinct. */
  predicate WellFormedRules(rules: seq<ColumnReplace>)
  {
    (forall k :: 0 <= k < |rules| ==>
      LabelsNotLaterCodes(rules[k].replacements) && CodesDistinct(rules[k].replacements)) &&
    (forall k, m :: 0 <= k < m < |rules| ==> rules[k].column != rules[m].column)
  }

  /**
   * Substitutions exist for the description, language and relationship classes only;
   * every configured column is a text column of its class, no column is configured
   * twice, and every chain is well formed.
   */
  lemma ConfiguredRulesFitSchemas()
    ensures ConceptSchema.Name() !in TableReplaceValues
    ensures forall s: Schema :: s != ConceptSchema ==> s.Name() in TableReplaceValues
    ensures forall s: Schema :: s.Name() in TableReplaceValues ==>
      WellFormedRules(TableReplaceValues[s.Name()]) &&
      forall k :: 0 <= k < |TableReplaceValues[s.Name()]| ==>
        TableReplaceValues[s.Name()][k].column in s.TextColumns()
  {
    forall s: Schema | s.Name() in TableReplaceValues
      ensures WellFormedRules(TableReplaceValues[s.Name()])
      ensures forall k :: 0 <= k < |TableReplaceValues[s.Name()]| ==>
        TableReplaceValues[s.Name()][k].column in s.TextColumns()
    {
      match s
      case DescriptionSchema =>
      case LanguageSchema =>
      case RelationshipSchema =>
    }
  }
}
