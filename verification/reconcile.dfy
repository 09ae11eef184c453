/**
 * The raw SNOMED CT dataset and its reconciliation: once the sixteen snapshot tables are
 * loaded, INT rows shadowed by NO rows are dropped, inactive rows are dropped, the
 * sorted in-scope concept ids are derived and narrowed, and the tables are cut down to
 * what those ids reach.
 */
module Reconcile {
  import opened Wrappers
  import opened Rows
  import opened Tables
  import opened SnomedConfig

  /* ---------------------------------------------------------------------------------
   * The sixteen tables.
   * ------------------------------------------------------------------------------ */

  /** The table fields of the raw dataset, in declaration order. */
  datatype TableField =
    | ConceptNo | ConceptInt
    | DescriptionNoNo | DescriptionEnNo | DescriptionEnInt
    | DefinitionNoNo | DefinitionEnNo | DefinitionEnInt
    | LanguageNbNo | LanguageNbGpNo | LanguageNnNo | LanguageNnGpNo | LanguageEnNo | LanguageEnInt
    | RelationshipNo | RelationshipInt
  {
    /** The attribute name of the field. */
    function Name(): string
    {
      match this
      case ConceptNo => "concept_no"
      case ConceptInt => "concept_int"
      case DescriptionNoNo => "description_no_no"
      case DescriptionEnNo => "description_en_no"
      case DescriptionEnInt => "description_en_int"
      case DefinitionNoNo => "definition_no_no"
      case DefinitionEnNo => "definition_en_no"
      case DefinitionEnInt => "definition_en_int"
      case LanguageNbNo => "language_nb_no"
      case LanguageNbGpNo => "language_nb_gp_no"
      case LanguageNnNo => "language_nn_no"
      case LanguageNnGpNo => "language_nn_gp_no"
      case LanguageEnNo => "language_en_no"
      case LanguageEnInt => "language_en_int"
      case RelationshipNo => "relationship_no"
      case RelationshipInt => "relationship_int"
    }

    /** The record class the field's table is read with. */
    function Schema(): Schema
    {
      match this
      case ConceptNo | ConceptInt => ConceptSchema
      case DescriptionNoNo | DescriptionEnNo | DescriptionEnInt => DescriptionSchema
      case DefinitionNoNo | DefinitionEnNo | DefinitionEnInt => DescriptionSchema
      case LanguageNbNo | LanguageNbGpNo | LanguageNnNo | LanguageNnGpNo | LanguageEnNo | LanguageEnInt =>
        LanguageSchema
      case RelationshipNo | RelationshipInt => RelationshipSchema
    }
  }

  /** Every table field, in declaration order (the fields other than `config` and `ids`). */
  const AllFields: seq<TableField> := [
    ConceptNo, ConceptInt,
    DescriptionNoNo, DescriptionEnNo, DescriptionEnInt,
    DefinitionNoNo, DefinitionEnNo, DefinitionEnInt,
    LanguageNbNo, LanguageNbGpNo, LanguageNnNo, LanguageNnGpNo, LanguageEnNo, LanguageEnInt,
    RelationshipNo, RelationshipInt
  ]

  /** The field an attribute name denotes, as keyword arguments are matched to attributes. */
  function FieldNamed(name: string): (r: Option<TableField>)
    ensures r.Some? ==> r.value.Name() == name
  {
    match name
    case "concept_no" => Some(ConceptNo)
    case "concept_int" => Some(ConceptInt)
    case "description_no_no" => Some(DescriptionNoNo)
    case "description_en_no" => Some(DescriptionEnNo)
    case "description_en_int" => Some(DescriptionEnInt)
    case "definition_no_no" => Some(DefinitionNoNo)
    case "definition_en_no" => Some(DefinitionEnNo)
    case "definition_en_int" => Some(DefinitionEnInt)
    case "language_nb_no" => Some(LanguageNbNo)
    case "language_nb_gp_no" => Some(LanguageNbGpNo)
    case "language_nn_no" => Some(LanguageNnNo)
    case "language_nn_gp_no" => Some(LanguageNnGpNo)
    case "language_en_no" => Some(LanguageEnNo)
    case "language_en_int" => Some(LanguageEnInt)
    case "relationship_no" => Some(RelationshipNo)
    case "relationship_int" => Some(RelationshipInt)
    case _ => None
  }

  /** Each field is found by its own name, so no two fields share a name. */
  lemma FieldNamedName(f: TableField)
    ensures FieldNamed(f.Name()) == Some(f)
  {
  }

  lemma AllFieldsListsEveryField()
    ensures forall f: TableField :: f in AllFields
    ensures forall i, j :: 0 <= i < j < |AllFields| ==> AllFields[i] != AllFields[j]
    ensures forall i, j :: 0 <= i < j < |AllFields| ==> AllFields[i].Name() != AllFields[j].Name()
  {
    forall f: TableField
      ensures f in AllFields
    {
      match f
      case ConceptNo => assert AllFields[0] == f;
      case ConceptInt => assert AllFields[1] == f;
      case DescriptionNoNo => assert AllFields[2] == f;
      case DescriptionEnNo => assert AllFields[3] == f;
      case DescriptionEnInt => assert AllFields[4] == f;
      case DefinitionNoNo => assert AllFields[5] == f;
      case DefinitionEnNo => assert AllFields[6] == f;
      case DefinitionEnInt => assert AllFields[7] == f;
      case LanguageNbNo => assert AllFields[8] == f;
      case LanguageNbGpNo => assert AllFields[9] == f;
      case LanguageNnNo => assert AllFields[10] == f;
      case LanguageNnGpNo => assert AllFields[11] == f;
      case LanguageEnNo => assert AllFields[12] == f;
      case LanguageEnInt => assert AllFields[13] == f;
      case RelationshipNo => assert AllFields[14] == f;
      case RelationshipInt => assert AllFields[15] == f;
    }
    forall i, j | 0 <= i < j < |AllFields|
      ensures AllFields[i].Name() != AllFields[j].Name()
    {
      FieldNamedName(AllFields[i]);
      FieldNamedName(AllFields[j]);
    }
  }

  /** The contents of the sixteen table fields. */
  datatype RawTables = RawTables(
    conceptNo: seq<Concept>, conceptInt: seq<Concept>,
    descriptionNoNo: seq<Description>, descriptionEnNo: seq<Description>, descriptionEnInt: seq<Description>,
    definitionNoNo: seq<Description>, definitionEnNo: seq<Description>, definitionEnInt: seq<Description>,
    languageNbNo: seq<Language>, languageNbGpNo: seq<Language>,
    languageNnNo: seq<Language>, languageNnGpNo: seq<Language>,
    languageEnNo: seq<Language>, languageEnInt: seq<Language>,
    relationshipNo: seq<Relationship>, relationshipInt: seq<Relationship>)
  {
    /** `getattr(self, f.name)`. */
    function Get(f: TableField): (tb: Table)
      ensures tb.Schema() == f.Schema()
    {
      match f
      case ConceptNo => Concepts(conceptNo)
      case ConceptInt => Concepts(conceptInt)
      case DescriptionNoNo => Descriptions(descriptionNoNo)
      case DescriptionEnNo => Descriptions(descriptionEnNo)
      case DescriptionEnInt => Descriptions(descriptionEnInt)
      case DefinitionNoNo => Descriptions(definitionNoNo)
      case DefinitionEnNo => Descriptions(definitionEnNo)
      case DefinitionEnInt => Descriptions(definitionEnInt)
      case LanguageNbNo => Languages(languageNbNo)
      case LanguageNbGpNo => Languages(languageNbGpNo)
      case LanguageNnNo => Languages(languageNnNo)
      case LanguageNnGpNo => Languages(languageNnGpNo)
      case LanguageEnNo => Languages(languageEnNo)
      case LanguageEnInt => Languages(languageEnInt)
      case RelationshipNo => Relationships(relationshipNo)
      case RelationshipInt => Relationships(relationshipInt)
    }

    /** `setattr(self, f.name, tb)`: field `f` now holds `tb`, every other field is kept. */
    function Set(f: TableField, tb: Table): (r: RawTables)
      requires tb.Schema() == f.Schema()
      ensures r.Get(f) == tb
      ensures forall g :: g != f ==> r.Get(g) == Get(g)
    {
      match f
      case ConceptNo => this.(conceptNo := tb.concepts)
      case ConceptInt => this.(conceptInt := tb.concepts)
      case DescriptionNoNo => this.(descriptionNoNo := tb.descriptions)
      case DescriptionEnNo => this.(descriptionEnNo := tb.descriptions)
      case DescriptionEnInt => this.(descriptionEnInt := tb.descriptions)
      case DefinitionNoNo => this.(definitionNoNo := tb.descriptions)
      case DefinitionEnNo => this.(definitionEnNo := tb.descriptions)
      case DefinitionEnInt => this.(definitionEnInt := tb.descriptions)
      case LanguageNbNo => this.(languageNbNo := tb.languages)
      case LanguageNbGpNo => this.(languageNbGpNo := tb.languages)
      case LanguageNnNo => this.(languageNnNo := tb.languages)
      case LanguageNnGpNo => this.(languageNnGpNo := tb.languages)
      case LanguageEnNo => this.(languageEnNo := tb.languages)
      case LanguageEnInt => this.(languageEnInt := tb.languages)
      case RelationshipNo => this.(relationshipNo := tb.relationships)
      case RelationshipInt => this.(relationshipInt := tb.relationships)
    }
  }

  /* ---------------------------------------------------------------------------------
   * The row filter everything is built from.
   * ------------------------------------------------------------------------------ */

  /** Whether a row's `column` value is among `isIn`, negated when `exclude` is set. */
  function KeepIf<R>(column: R -> string, isIn: seq<string>, exclude: bool): R -> bool
  {
    x => (column(x) in isIn) != exclude
  }

  /**
   * `filter_table(table, column, is_in, exclude=…)`: the rows whose `column` value is in
   * `isIn`, or with `exclude` the rows whose value is not.
   */
  function FilterTable<R(!new)>(table: seq<R>, column: R -> string, isIn: seq<string>, exclude: bool): (r: seq<R>)
    ensures forall x :: x in r <==> x in table && (column(x) in isIn <==> !exclude)
  {
    Filter(table, KeepIf(column, isIn, exclude))
  }

  /**
   * The filter keeps row order (it distributes over concatenation), and its keeping and
   * excluding forms split a table between them.
   */
  lemma FilterTableSplits<R(!new)>(a: seq<R>, b: seq<R>, column: R -> string, isIn: seq<string>)
    ensures forall exclude: bool ::
      (FilterTable(a + b, column, isIn, exclude) ==
       FilterTable(a, column, isIn, exclude) + FilterTable(b, column, isIn, exclude))
    ensures multiset(FilterTable(a, column, isIn, false)) + multiset(FilterTable(a, column, isIn, true)) ==
      multiset(a)
  {
    FilterConcat(a, b, KeepIf(column, isIn, false));
    FilterConcat(a, b, KeepIf(column, isIn, true));
    FilterPartition(a, KeepIf(column, isIn, false));
    FilterSame(a, Fails(KeepIf(column, isIn, false)), KeepIf(column, isIn, true));
  }

  /** Filters with the same verdict on every row keep the same rows. */
  lemma {:induction false} FilterSame<R(!new)>(rows: seq<R>, p: R -> bool, q: R -> bool)
    requires forall x :: x in rows ==> p(x) == q(x)
    ensures Filter(rows, p) == Filter(rows, q)
    decreases |rows|
  {
    if |rows| > 0 {
      assert rows[0] in rows;
      assert forall x :: x in rows[1..] ==> x in rows;
      FilterSame(rows[1..], p, q);
    }
  }

  /** The membership test `values.is_in(isIn)`. */
  function IsIn(isIn: seq<string>): string -> bool
  {
    v => v in isIn
  }

  /* ---------------------------------------------------------------------------------
   * Step 1: NO rows shadow INT rows with the same id.
   * ------------------------------------------------------------------------------ */

  /** Each INT table without the rows whose id occurs in the matching NO table. */
  function Dedup(t: RawTables): RawTables
  {
    t.(
      conceptInt := FilterTable(t.conceptInt, ConceptIdOf, MapRows(t.conceptNo, ConceptIdOf), true),
      descriptionEnInt :=
        FilterTable(t.descriptionEnInt, DescriptionIdOf, MapRows(t.descriptionEnNo, DescriptionIdOf), true),
      definitionEnInt :=
        FilterTable(t.definitionEnInt, DescriptionIdOf, MapRows(t.definitionEnNo, DescriptionIdOf), true),
      languageEnInt := FilterTable(t.languageEnInt, LanguageIdOf, MapRows(t.languageEnNo, LanguageIdOf), true),
      relationshipInt :=
        FilterTable(t.relationshipInt, RelationshipIdOf, MapRows(t.relationshipNo, RelationshipIdOf), true))
  }


  /**
   * After dedup no INT row shares its id with a row of the matching NO table, every
   * other INT row is kept, and the NO tables are untouched.
   */
  lemma DedupShadows(t: RawTables)
    ensures forall x :: x in Dedup(t).conceptInt <==>
      x in t.conceptInt && forall n :: n in t.conceptNo ==> n.id != x.id
    ensures forall x :: x in Dedup(t).descriptionEnInt <==>
      x in t.descriptionEnInt && forall n :: n in t.descriptionEnNo ==> n.id != x.id
    ensures forall x :: x in Dedup(t).definitionEnInt <==>
      x in t.definitionEnInt && forall n :: n in t.definitionEnNo ==> n.id != x.id
    ensures forall x :: x in Dedup(t).languageEnInt <==>
      x in t.languageEnInt && forall n :: n in t.languageEnNo ==> n.id != x.id
    ensures forall x :: x in Dedup(t).relationshipInt <==>
      x in t.relationshipInt && forall n :: n in t.relationshipNo ==> n.id != x.id
    ensures Dedup(t).conceptNo == t.conceptNo && Dedup(t).descriptionEnNo == t.descriptionEnNo
    ensures Dedup(t).definitionEnNo == t.definitionEnNo && Dedup(t).languageEnNo == t.languageEnNo
    ensures Dedup(t).relationshipNo == t.relationshipNo
  {
    forall x: Concept { MapRowsHas(t.conceptNo, ConceptIdOf, x.id); }
    forall x: Description { MapRowsHas(t.descriptionEnNo, DescriptionIdOf, x.id); }
    forall x: Description { MapRowsHas(t.definitionEnNo, DescriptionIdOf, x.id); }
    forall x: Language { MapRowsHas(t.languageEnNo, LanguageIdOf, x.id); }
    forall x: Relationship { MapRowsHas(t.relationshipNo, RelationshipIdOf, x.id); }
  }

  /** Dedup only reads the NO tables it leaves alone, so applying it again changes nothing. */
  lemma DedupIdempotent(t: RawTables)
    ensures Dedup(Dedup(t)) == Dedup(t)
  {
    var d := Dedup(t);
    FilterIdempotent(t.conceptInt, KeepIf(ConceptIdOf, MapRows(t.conceptNo, ConceptIdOf), true));
    FilterIdempotent(t.descriptionEnInt, KeepIf(DescriptionIdOf, MapRows(t.descriptionEnNo, DescriptionIdOf), true));
    FilterIdempotent(t.definitionEnInt, KeepIf(DescriptionIdOf, MapRows(t.definitionEnNo, DescriptionIdOf), true));
    FilterIdempotent(t.languageEnInt, KeepIf(LanguageIdOf, MapRows(t.languageEnNo, LanguageIdOf), true));
    FilterIdempotent(t.relationshipInt,
      KeepIf(RelationshipIdOf, MapRows(t.relationshipNo, RelationshipIdOf), true));
  }

  /* ---------------------------------------------------------------------------------
   * Step 2: only active rows are kept, in every table.
   * ------------------------------------------------------------------------------ */

  /** `table.filter(pl.col("active") == 1)`. */
  function ActiveRows(tb: Table): (r: Table)
    ensures r.Schema() == tb.Schema()
  {
    match tb
    case Concepts(rows) => Concepts(Filter(rows, ConceptActive))
    case Descriptions(rows) => Descriptions(Filter(rows, DescriptionActive))
    case Languages(rows) => Languages(Filter(rows, LanguageActive))
    case Relationships(rows) => Relationships(Filter(rows, RelationshipActive))
  }

  /** Every row of the table is active. */
  predicate AllActive(tb: Table)
  {
    match tb
    case Concepts(rows) => forall x :: x in rows ==> x.active == 1
    case Descriptions(rows) => forall x :: x in rows ==> x.active == 1
    case Languages(rows) => forall x :: x in rows ==> x.active == 1
    case Relationships(rows) => forall x :: x in rows ==> x.active == 1
  }

  /** The active filter leaves exactly the active rows, so a second pass changes nothing. */
  lemma ActiveRowsSpec(tb: Table)
    ensures AllActive(ActiveRows(tb))
    ensures ActiveRows(ActiveRows(tb)) == ActiveRows(tb)
    ensures AllActive(tb) ==> ActiveRows(tb) == tb
  {
    match tb
    case Concepts(rows) =>
      FilterIdempotent(rows, ConceptActive);
      if AllActive(tb) { FilterKeepsAll(rows, ConceptActive); }
    case Descriptions(rows) =>
      FilterIdempotent(rows, DescriptionActive);
      if AllActive(tb) { FilterKeepsAll(rows, DescriptionActive); }
    case Languages(rows) =>
      FilterIdempotent(rows, LanguageActive);
      if AllActive(tb) { FilterKeepsAll(rows, LanguageActive); }
    case Relationships(rows) =>
      FilterIdempotent(rows, RelationshipActive);
      if AllActive(tb) { FilterKeepsAll(rows, RelationshipActive); }
  }

  /** Every table with only its active rows. */
  function ActiveOnly(t: RawTables): (r: RawTables)
    ensures forall g :: r.Get(g) == ActiveRows(t.Get(g))
  {
    RawTables(
      Filter(t.conceptNo, ConceptActive), Filter(t.conceptInt, ConceptActive),
      Filter(t.descriptionNoNo, DescriptionActive), Filter(t.descriptionEnNo, DescriptionActive),
      Filter(t.descriptionEnInt, DescriptionActive),
      Filter(t.definitionNoNo, DescriptionActive), Filter(t.definitionEnNo, DescriptionActive),
      Filter(t.definitionEnInt, DescriptionActive),
      Filter(t.languageNbNo, LanguageActive), Filter(t.languageNbGpNo, LanguageActive),
      Filter(t.languageNnNo, LanguageActive), Filter(t.languageNnGpNo, LanguageActive),
      Filter(t.languageEnNo, LanguageActive), Filter(t.languageEnInt, LanguageActive),
      Filter(t.relationshipNo, RelationshipActive), Filter(t.relationshipInt, RelationshipActive))
  }

  /** Two raw datasets with the same table in every field are equal. */
  lemma GetExtensional(a: RawTables, b: RawTables)
    requires forall g :: a.Get(g) == b.Get(g)
    ensures a == b
  {
    assert a.conceptNo == b.conceptNo by { assert a.Get(ConceptNo) == b.Get(ConceptNo); }
    assert a.conceptInt == b.conceptInt by { assert a.Get(ConceptInt) == b.Get(ConceptInt); }
    assert a.descriptionNoNo == b.descriptionNoNo by { assert a.Get(DescriptionNoNo) == b.Get(DescriptionNoNo); }
    assert a.descriptionEnNo == b.descriptionEnNo by { assert a.Get(DescriptionEnNo) == b.Get(DescriptionEnNo); }
    assert a.descriptionEnInt == b.descriptionEnInt by { assert a.Get(DescriptionEnInt) == b.Get(DescriptionEnInt); }
    assert a.definitionNoNo == b.definitionNoNo by { assert a.Get(DefinitionNoNo) == b.Get(DefinitionNoNo); }
    assert a.definitionEnNo == b.definitionEnNo by { assert a.Get(DefinitionEnNo) == b.Get(DefinitionEnNo); }
    assert a.definitionEnInt == b.definitionEnInt by { assert a.Get(DefinitionEnInt) == b.Get(DefinitionEnInt); }
    assert a.languageNbNo == b.languageNbNo by { assert a.Get(LanguageNbNo) == b.Get(LanguageNbNo); }
    assert a.languageNbGpNo == b.languageNbGpNo by { assert a.Get(LanguageNbGpNo) == b.Get(LanguageNbGpNo); }
    assert a.languageNnNo == b.languageNnNo by { assert a.Get(LanguageNnNo) == b.Get(LanguageNnNo); }
    assert a.languageNnGpNo == b.languageNnGpNo by { assert a.Get(LanguageNnGpNo) == b.Get(LanguageNnGpNo); }
    assert a.languageEnNo == b.languageEnNo by { assert a.Get(LanguageEnNo) == b.Get(LanguageEnNo); }
    assert a.languageEnInt == b.languageEnInt by { assert a.Get(LanguageEnInt) == b.Get(LanguageEnInt); }
    assert a.relationshipNo == b.relationshipNo by { assert a.Get(RelationshipNo) == b.Get(RelationshipNo); }
    assert a.relationshipInt == b.relationshipInt by { assert a.Get(RelationshipInt) == b.Get(RelationshipInt); }
  }

  /**
   * One turn of the loop `setattr(self, f, getattr(self, f).filter(active == 1))`: when
   * the fields `fs` have been filtered, filtering `f` as well leaves `fs + [f]` filtered
   * (filtering a field twice is the same as once).
   */
  lemma ActiveFieldStep(start: RawTables, t: RawTables, fs: seq<TableField>, f: TableField)
    requires forall g :: t.Get(g) == if g in fs then ActiveRows(start.Get(g)) else start.Get(g)
    ensures forall g :: (t.Set(f, ActiveRows(t.Get(f))).Get(g) ==
      if g in fs + [f] then ActiveRows(start.Get(g)) else start.Get(g))
  {
    var t' := t.Set(f, ActiveRows(t.Get(f)));
    forall g
      ensures t'.Get(g) == if g in fs + [f] then ActiveRows(start.Get(g)) else start.Get(g)
    {
      assert g in fs + [f] <==> g in fs || g == f;
      if g == f {
        ActiveRowsSpec(start.Get(f));
      }
    }
  }

  /** After the active filter every row of every table is active. */
  lemma ActiveOnlyAllActive(t: RawTables)
    ensures forall g :: AllActive(ActiveOnly(t).Get(g))
  {
    forall g
      ensures AllActive(ActiveOnly(t).Get(g))
    {
      ActiveRowsSpec(t.Get(g));
    }
  }

  /* ---------------------------------------------------------------------------------
   * Step 3: the in-scope concept ids.
   * ------------------------------------------------------------------------------ */

  /** `concepts_active`: the distinct ids of the INT and NO concept rows. */
  function ConceptsActive(t: RawTables): seq<string>
  {
    SortUnique(MapRows(t.conceptInt, ConceptIdOf) + MapRows(t.conceptNo, ConceptIdOf))
  }

  /** `concepts_with_no_description`: the distinct concept ids of the active NO descriptions. */
  function ConceptsWithNoDescription(t: RawTables): seq<string>
  {
    SortUnique(MapRows(Filter(t.descriptionNoNo, DescriptionActive), DescriptionConceptOf))
  }

  /** `concept_ids`: the concepts with an NO description that are concepts of either release, sorted. */
  function BaselineIds(t: RawTables): seq<string>
  {
    SortUnique(Filter(ConceptsWithNoDescription(t), IsIn(ConceptsActive(t))))
  }

  /**
   * The baseline is sorted ascending without repeats and holds exactly the ids that are
   * the id of a concept row and the concept of an active NO description.
   */
  lemma BaselineIdsSpec(t: RawTables, x: string)
    ensures StrictlySorted(BaselineIds(t))
    ensures x in BaselineIds(t) <==>
      (exists n :: (n in t.conceptNo || n in t.conceptInt) && n.id == x) &&
      (exists d :: d in t.descriptionNoNo && d.active == 1 && d.conceptId == x)
  {
    MapRowsHas(t.conceptInt, ConceptIdOf, x);
    MapRowsHas(t.conceptNo, ConceptIdOf, x);
    MapRowsHas(Filter(t.descriptionNoNo, DescriptionActive), DescriptionConceptOf, x);
  }

  /** Whether the configuration narrows the ids: `config.limit or config.extras.id_filter`. */
  predicate Narrowed(c: Config)
  {
    c.LimitSet() || c.IdFilterSet()
  }

  /** The baseline restricted to the allow-list when one is set, in baseline order. */
  function AllowListed(baseline: seq<string>, c: Config): seq<string>
  {
    if c.IdFilterSet() then Filter(baseline, IsIn(c.extras.idFilter.value)) else baseline
  }

  /** `ids`: the allow-listed baseline, cut to `limit` when a limit is set. */
  function ScopeIds(baseline: seq<string>, c: Config): seq<string>
  {
    var listed := AllowListed(baseline, c);
    if c.LimitSet() then Take(listed, c.limit.value) else listed
  }

  /**
   * Narrowing keeps baseline order and only removes ids: with an allow-list every id is
   * on it, with a limit the ids are a prefix of the allow-listed baseline no longer than
   * the limit, and an unset, zero or empty setting narrows nothing.
   */
  lemma ScopeIdsNarrows(baseline: seq<string>, c: Config)
    requires StrictlySorted(baseline)
    ensures StrictlySorted(ScopeIds(baseline, c))
    ensures forall x :: x in ScopeIds(baseline, c) ==> x in baseline
    ensures c.IdFilterSet() ==> forall x :: x in ScopeIds(baseline, c) ==> x in c.extras.idFilter.value
    ensures c.IdFilterSet() ==> forall x :: x in AllowListed(baseline, c) <==>
      x in baseline && x in c.extras.idFilter.value
    ensures c.LimitSet() ==> ScopeIds(baseline, c) == AllowListed(baseline, c)[..|ScopeIds(baseline, c)|]
    ensures c.LimitSet() && c.limit.value > 0 ==> |ScopeIds(baseline, c)| <= c.limit.value
    ensures !c.LimitSet() ==> ScopeIds(baseline, c) == AllowListed(baseline, c)
    ensures !Narrowed(c) ==> ScopeIds(baseline, c) == baseline
  {
    var listed := AllowListed(baseline, c);
    if c.IdFilterSet() {
      FilterKeepsSorted(baseline, IsIn(c.extras.idFilter.value));
    }
    TakeKeepsSorted(listed, if c.LimitSet() then c.limit.value else 0);
  }

  /* ---------------------------------------------------------------------------------
   * Step 4: the cascade from the ids to the other tables.
   * ------------------------------------------------------------------------------ */

  /** The ids of a description table and a definition table, concatenated. */
  function ComponentIds(descriptions: seq<Description>, definitions: seq<Description>): (r: seq<string>)
    ensures forall v :: v in r <==> exists d :: (d in descriptions || d in definitions) && d.id == v
  {
    var r := MapRows(descriptions, DescriptionIdOf) + MapRows(definitions, DescriptionIdOf);
    forall v
      ensures v in r <==> exists d :: (d in descriptions || d in definitions) && d.id == v
    {
      MapRowsHas(descriptions, DescriptionIdOf, v);
      MapRowsHas(definitions, DescriptionIdOf, v);
    }
    r
  }

  /** Whether a relationship starts or ends at one of `ids`. */
  function TouchesAny(ids: seq<string>): Relationship -> bool
  {
    (x: Relationship) => x.sourceId in ids || x.destinationId in ids
  }

  /**
   * The cascade: descriptions and definitions by `conceptId` (the NO descriptions only when
   * `narrowNo`), the language tables of each locale family by the ids of that family's
   * descriptions and definitions, and the relationships touching an id.
   */
  function Cascade(t: RawTables, ids: seq<string>, narrowNo: bool): RawTables
  {
    var descriptionNoNo :=
      if narrowNo then FilterTable(t.descriptionNoNo, DescriptionConceptOf, ids, false) else t.descriptionNoNo;
    var descriptionEnNo := FilterTable(t.descriptionEnNo, DescriptionConceptOf, ids, false);
    var descriptionEnInt := FilterTable(t.descriptionEnInt, DescriptionConceptOf, ids, false);
    var definitionNoNo := FilterTable(t.definitionNoNo, DescriptionConceptOf, ids, false);
    var definitionEnNo := FilterTable(t.definitionEnNo, DescriptionConceptOf, ids, false);
    var definitionEnInt := FilterTable(t.definitionEnInt, DescriptionConceptOf, ids, false);
    var noIds := ComponentIds(descriptionNoNo, definitionNoNo);
    var enNoIds := ComponentIds(descriptionEnNo, definitionEnNo);
    var enIntIds := ComponentIds(descriptionEnInt, definitionEnInt);
    t.(
      descriptionNoNo := descriptionNoNo,
      descriptionEnNo := descriptionEnNo,
      descriptionEnInt := descriptionEnInt,
      definitionNoNo := definitionNoNo,
      definitionEnNo := definitionEnNo,
      definitionEnInt := definitionEnInt,
      languageNbNo := FilterTable(t.languageNbNo, LanguageComponentOf, noIds, false),
      languageNbGpNo := FilterTable(t.languageNbGpNo, LanguageComponentOf, noIds, false),
      languageNnNo := FilterTable(t.languageNnNo, LanguageComponentOf, noIds, false),
      languageNnGpNo := FilterTable(t.languageNnGpNo, LanguageComponentOf, noIds, false),
      languageEnNo := FilterTable(t.languageEnNo, LanguageComponentOf, enNoIds, false),
      languageEnInt := FilterTable(t.languageEnInt, LanguageComponentOf, enIntIds, false),
      relationshipNo := Filter(t.relationshipNo, TouchesAny(ids)),
      relationshipInt := Filter(t.relationshipInt, TouchesAny(ids)))
  }

  /** Whether a language row refers to a description or definition among `ds` or `fs`. */
  ghost predicate RefersTo(l: Language, ds: seq<Description>, fs: seq<Description>)
  {
    exists d :: (d in ds || d in fs) && d.id == l.referencedComponentId
  }

  /** What the cascade keeps of each description and definition table. */
  lemma CascadeDescriptions(t: RawTables, ids: seq<string>, narrowNo: bool)
    ensures var r := Cascade(t, ids, narrowNo);
      && (narrowNo ==> forall d :: d in r.descriptionNoNo <==> d in t.descriptionNoNo && d.conceptId in ids)
      && (!narrowNo ==> r.descriptionNoNo == t.descriptionNoNo)
      && (forall d :: d in r.descriptionEnNo <==> d in t.descriptionEnNo && d.conceptId in ids)
      && (forall d :: d in r.descriptionEnInt <==> d in t.descriptionEnInt && d.conceptId in ids)
      && (forall d :: d in r.definitionNoNo <==> d in t.definitionNoNo && d.conceptId in ids)
      && (forall d :: d in r.definitionEnNo <==> d in t.definitionEnNo && d.conceptId in ids)
      && (forall d :: d in r.definitionEnInt <==> d in t.definitionEnInt && d.conceptId in ids)
      && r.conceptNo == t.conceptNo && r.conceptInt == t.conceptInt
  {
  }

  /**
   * What the cascade keeps of each language table: a row survives exactly when it refers
   * to a surviving description or definition of its own locale family.
   */
  lemma CascadeLanguages(t: RawTables, ids: seq<string>, narrowNo: bool)
    ensures var r := Cascade(t, ids, narrowNo);
      && (forall l :: l in r.languageNbNo <==>
            l in t.languageNbNo && RefersTo(l, r.descriptionNoNo, r.definitionNoNo))
      && (forall l :: l in r.languageNbGpNo <==>
            l in t.languageNbGpNo && RefersTo(l, r.descriptionNoNo, r.definitionNoNo))
      && (forall l :: l in r.languageNnNo <==>
            l in t.languageNnNo && RefersTo(l, r.descriptionNoNo, r.definitionNoNo))
      && (forall l :: l in r.languageNnGpNo <==>
            l in t.languageNnGpNo && RefersTo(l, r.descriptionNoNo, r.definitionNoNo))
      && (forall l :: l in r.languageEnNo <==>
            l in t.languageEnNo && RefersTo(l, r.descriptionEnNo, r.definitionEnNo))
      && (forall l :: l in r.languageEnInt <==>
            l in t.languageEnInt && RefersTo(l, r.descriptionEnInt, r.definitionEnInt))
  {
  }

  /** A relationship survives the cascade exactly when its source or its destination is an id. */
  lemma CascadeRelationships(t: RawTables, ids: seq<string>, narrowNo: bool)
    ensures var r := Cascade(t, ids, narrowNo);
      && (forall x :: x in r.relationshipNo <==>
            x in t.relationshipNo && (x.sourceId in ids || x.destinationId in ids))
      && (forall x :: x in r.relationshipInt <==>
            x in t.relationshipInt && (x.sourceId in ids || x.destinationId in ids))
  {
  }

  /** Every row of `small` is a row of `big`, of the same family. */
  ghost predicate SubTable(small: Table, big: Table)
  {
    match small
    case Concepts(rows) => big.Concepts? && forall x :: x in rows ==> x in big.concepts
    case Descriptions(rows) => big.Descriptions? && forall x :: x in rows ==> x in big.descriptions
    case Languages(rows) => big.Languages? && forall x :: x in rows ==> x in big.languages
    case Relationships(rows) => big.Relationships? && forall x :: x in rows ==> x in big.relationships
  }

  /** The cascade only removes rows. */
  lemma CascadeShrinks(t: RawTables, ids: seq<string>, narrowNo: bool, g: TableField)
    ensures SubTable(Cascade(t, ids, narrowNo).Get(g), t.Get(g))
  {
  }

  /* ---------------------------------------------------------------------------------
   * The whole post-processing.
   * ------------------------------------------------------------------------------ */

  /** The tables and the ids after the four steps, from the loaded tables. */
  function Reconciled(t: RawTables, c: Config): (RawTables, seq<string>)
  {
    var active := ActiveOnly(Dedup(t));
    var ids := ScopeIds(BaselineIds(active), c);
    (Cascade(active, ids, Narrowed(c)), ids)
  }

  /**
   * A concept is active in the release that holds it: an active NO row, or an active
   * INT row that no NO row (active or not) shadows.
   */
  ghost predicate ActiveConcept(t: RawTables, x: string)
  {
    (exists n :: n in t.conceptNo && n.id == x && n.active == 1) ||
    (exists i :: i in t.conceptInt && i.id == x && i.active == 1 && forall n :: n in t.conceptNo ==> n.id != x)
  }

  /** The concept has an active NO description. */
  ghost predicate HasActiveNoDescription(t: RawTables, x: string)
  {
    exists d :: d in t.descriptionNoNo && d.active == 1 && d.conceptId == x
  }

  /** A concept row of the deduplicated active tables is exactly an active concept of the loaded ones. */
  lemma ActiveConceptRows(t: RawTables, x: string)
    ensures (exists n :: (n in ActiveOnly(Dedup(t)).conceptNo || n in ActiveOnly(Dedup(t)).conceptInt) && n.id == x)
      <==> ActiveConcept(t, x)
  {
    var d := Dedup(t);
    var a := ActiveOnly(d);
    assert a.conceptNo == Filter(t.conceptNo, ConceptActive);
    assert a.conceptInt == Filter(d.conceptInt, ConceptActive);
    MapRowsHas(t.conceptNo, ConceptIdOf, x);
    if exists n :: (n in a.conceptNo || n in a.conceptInt) && n.id == x {
      var n :| (n in a.conceptNo || n in a.conceptInt) && n.id == x;
      if n in a.conceptInt {
        assert n in d.conceptInt;
      }
    }
    if ActiveConcept(t, x) {
      if exists n :: n in t.conceptNo && n.id == x && n.active == 1 {
        var n :| n in t.conceptNo && n.id == x && n.active == 1;
        assert n in a.conceptNo;
      } else {
        var i :| i in t.conceptInt && i.id == x && i.active == 1 && forall n :: n in t.conceptNo ==> n.id != x;
        assert i in d.conceptInt;
        assert i in a.conceptInt;
      }
    }
  }

  /** The baseline ids of the deduplicated active tables, in terms of the loaded tables. */
  lemma ActiveBaseline(t: RawTables, x: string)
    ensures StrictlySorted(BaselineIds(ActiveOnly(Dedup(t))))
    ensures x in BaselineIds(ActiveOnly(Dedup(t))) <==> ActiveConcept(t, x) && HasActiveNoDescription(t, x)
  {
    var a := ActiveOnly(Dedup(t));
    assert a.descriptionNoNo == Filter(t.descriptionNoNo, DescriptionActive);
    BaselineIdsSpec(a, x);
    ActiveConceptRows(t, x);
  }

  /**
   * The final ids, in terms of the loaded tables: sorted without repeats, each an active
   * concept with an active NO description (and on the allow-list when one is set); with
   * no narrowing every such concept is an id, and with only an allow-list every such
   * concept on the list is.
   */
  lemma ReconciledIds(t: RawTables, c: Config, x: string)
    ensures StrictlySorted(Reconciled(t, c).1)
    ensures x in Reconciled(t, c).1 ==> ActiveConcept(t, x) && HasActiveNoDescription(t, x)
    ensures x in Reconciled(t, c).1 && c.IdFilterSet() ==> x in c.extras.idFilter.value
    ensures !Narrowed(c) ==> (x in Reconciled(t, c).1 <==> ActiveConcept(t, x) && HasActiveNoDescription(t, x))
    ensures !c.LimitSet() && c.IdFilterSet() ==>
      (x in Reconciled(t, c).1 <==>
        ActiveConcept(t, x) && HasActiveNoDescription(t, x) && x in c.extras.idFilter.value)
  {
    ActiveBaseline(t, x);
    ScopeIdsNarrows(BaselineIds(ActiveOnly(Dedup(t))), c);
  }

  /** The cascade's result holds only rows of the active, deduplicated tables. */
  lemma SubTableActive(small: Table, big: Table)
    requires SubTable(small, big) && AllActive(big)
    ensures AllActive(small)
  {
  }

  /** After reconciliation every row of every table is active. */
  lemma ReconciledAllActive(t: RawTables, c: Config)
    ensures forall g :: AllActive(Reconciled(t, c).0.Get(g))
  {
    var active := ActiveOnly(Dedup(t));
    var ids := ScopeIds(BaselineIds(active), c);
    ActiveOnlyAllActive(Dedup(t));
    forall g
      ensures AllActive(Reconciled(t, c).0.Get(g))
    {
      CascadeShrinks(active, ids, Narrowed(c), g);
      SubTableActive(Reconciled(t, c).0.Get(g), active.Get(g));
    }
  }

  /**
   * Dedup runs before the active filter, so an INT row whose id occurs in the matching
   * NO table is gone even when that NO row is inactive.
   */
  lemma ReconciledShadowing(t: RawTables, c: Config)
    ensures var r := Reconciled(t, c).0;
      && (forall x, n :: x in r.conceptInt && n in t.conceptNo ==> n.id != x.id)
      && (forall x, n :: x in r.descriptionEnInt && n in t.descriptionEnNo ==> n.id != x.id)
      && (forall x, n :: x in r.definitionEnInt && n in t.definitionEnNo ==> n.id != x.id)
      && (forall x, n :: x in r.languageEnInt && n in t.languageEnNo ==> n.id != x.id)
      && (forall x, n :: x in r.relationshipInt && n in t.relationshipNo ==> n.id != x.id)
  {
    var active := ActiveOnly(Dedup(t));
    var ids := ScopeIds(BaselineIds(active), c);
    DedupShadows(t);
    CascadeDescriptions(active, ids, Narrowed(c));
    CascadeLanguages(active, ids, Narrowed(c));
    CascadeRelationships(active, ids, Narrowed(c));
  }

  /**
   * Descriptions and definitions after reconciliation: the English ones and all
   * definitions belong to an id; the NO descriptions are cut to the ids only when the
   * ids were narrowed, and otherwise are all the active NO descriptions.
   */
  lemma ReconciledDescriptions(t: RawTables, c: Config)
    ensures var (r, ids) := Reconciled(t, c);
      && (forall d :: d in r.descriptionEnNo ==> d.conceptId in ids)
      && (forall d :: d in r.descriptionEnInt ==> d.conceptId in ids)
      && (forall d :: d in r.definitionNoNo ==> d.conceptId in ids)
      && (forall d :: d in r.definitionEnNo ==> d.conceptId in ids)
      && (forall d :: d in r.definitionEnInt ==> d.conceptId in ids)
      && (Narrowed(c) ==> forall d :: d in r.descriptionNoNo <==>
            d in t.descriptionNoNo && d.active == 1 && d.conceptId in ids)
      && (!Narrowed(c) ==> r.descriptionNoNo == Filter(t.descriptionNoNo, DescriptionActive))
  {
    var active := ActiveOnly(Dedup(t));
    var ids := ScopeIds(BaselineIds(active), c);
    CascadeDescriptions(active, ids, Narrowed(c));
  }

  /**
   * A relationship survives reconciliation exactly when it is active, is not shadowed
   * (for INT rows), and its source or its destination is an id.
   */
  lemma ReconciledRelationships(t: RawTables, c: Config)
    ensures var (r, ids) := Reconciled(t, c);
      && (forall x :: x in r.relationshipNo <==>
            x in t.relationshipNo && x.active == 1 && (x.sourceId in ids || x.destinationId in ids))
      && (forall x :: x in r.relationshipInt <==>
            x in t.relationshipInt && x.active == 1 && (forall n :: n in t.relationshipNo ==> n.id != x.id) &&
            (x.sourceId in ids || x.destinationId in ids))
  {
    var active := ActiveOnly(Dedup(t));
    var ids := ScopeIds(BaselineIds(active), c);
    DedupShadows(t);
    CascadeRelationships(active, ids, Narrowed(c));
  }

  /* ---------------------------------------------------------------------------------
   * The raw dataset object.
   * ------------------------------------------------------------------------------ */

  /**
   * The tables loaded from the release packages; construction runs the post-processing.
   * The sixteen table attributes are held as one record, read and written by field name
   * as `getattr`/`setattr` do.
   */
  class SnomedDataRaw {
    var config: Config
    var ids: seq<string>
    var tables: RawTables

    /** Builds the dataset from the loaded tables and post-processes it. */
    constructor (config: Config, tables: RawTables)
      ensures this.config == config
      ensures (this.tables, ids) == Reconciled(tables, config)
    {
      this.config := config;
      this.tables := tables;
      ids := [];
      new;
      PostInit();
    }

    /** The post-processing, step by step. */
    method PostInit()
      modifies this
      ensures config == old(config)
      ensures (tables, ids) == Reconciled(old(tables), config)
    {
      DropShadowedIntRows();
      KeepActiveRows();
      DeriveIds();
      CascadeToIds();
    }

    /** Drops each INT row whose id occurs in the matching NO table. */
    method DropShadowedIntRows()
      modifies this
      ensures tables == Dedup(old(tables))
      ensures config == old(config) && ids == old(ids)
    {
      tables := tables.(conceptInt :=
        FilterTable(tables.conceptInt, ConceptIdOf, MapRows(tables.conceptNo, ConceptIdOf), true));
      tables := tables.(descriptionEnInt :=
        FilterTable(tables.descriptionEnInt, DescriptionIdOf, MapRows(tables.descriptionEnNo, DescriptionIdOf), true));
      tables := tables.(definitionEnInt :=
        FilterTable(tables.definitionEnInt, DescriptionIdOf, MapRows(tables.definitionEnNo, DescriptionIdOf), true));
      tables := tables.(languageEnInt :=
        FilterTable(tables.languageEnInt, LanguageIdOf, MapRows(tables.languageEnNo, LanguageIdOf), true));
      tables := tables.(relationshipInt :=
        FilterTable(tables.relationshipInt, RelationshipIdOf, MapRows(tables.relationshipNo, RelationshipIdOf), true));
    }

    /** Filters every table field, one after another, to its active rows. */
    method KeepActiveRows()
      modifies this
      ensures tables == ActiveOnly(old(tables))
      ensures config == old(config) && ids == old(ids)
    {
      ghost var start := tables;
      var fields := AllFields;
      var i := 0;
      while i < |fields|
        invariant 0 <= i <= |fields|
        invariant forall g :: tables.Get(g) == if g in fields[..i] then ActiveRows(start.Get(g)) else start.Get(g)
        invariant config == old(config) && ids == old(ids)
      {
        var f := fields[i];
        ActiveFieldStep(start, tables, fields[..i], f);
        tables := tables.Set(f, ActiveRows(tables.Get(f)));
        assert fields[..i + 1] == fields[..i] + [f];
        i := i + 1;
      }
      assert fields[..i] == AllFields;
      AllFieldsListsEveryField();
      GetExtensional(tables, ActiveOnly(start));
    }

    /** Derives the sorted concept ids and narrows them by the allow-list and the limit. */
    method DeriveIds()
      modifies this
      ensures ids == ScopeIds(BaselineIds(old(tables)), config)
      ensures tables == old(tables) && config == old(config)
    {
      var conceptsActive :=
        SortUnique(MapRows(tables.conceptInt, ConceptIdOf) + MapRows(tables.conceptNo, ConceptIdOf));
      var withNoDescription :=
        SortUnique(MapRows(Filter(tables.descriptionNoNo, DescriptionActive), DescriptionConceptOf));
      var conceptIds := SortUnique(Filter(withNoDescription, IsIn(conceptsActive)));
      if config.IdFilterSet() {
        ids := Filter(conceptIds, IsIn(config.extras.idFilter.value));
      } else {
        ids := conceptIds;
      }
      if config.LimitSet() {
        ids := Take(ids, config.limit.value);
      }
    }

    /** Cuts the description, definition, language and relationship tables down to the ids. */
    method CascadeToIds()
      modifies this
      ensures tables == Cascade(old(tables), ids, Narrowed(config))
      ensures config == old(config) && ids == old(ids)
    {
      var t := tables;
      if config.LimitSet() || config.IdFilterSet() {
        t := t.(descriptionNoNo := FilterTable(t.descriptionNoNo, DescriptionConceptOf, ids, false));
      }
      t := t.(descriptionEnNo := FilterTable(t.descriptionEnNo, DescriptionConceptOf, ids, false));
      t := t.(descriptionEnInt := FilterTable(t.descriptionEnInt, DescriptionConceptOf, ids, false));
      t := t.(definitionNoNo := FilterTable(t.definitionNoNo, DescriptionConceptOf, ids, false));
      t := t.(definitionEnNo := FilterTable(t.definitionEnNo, DescriptionConceptOf, ids, false));
      t := t.(definitionEnInt := FilterTable(t.definitionEnInt, DescriptionConceptOf, ids, false));

      var noNoComponentIds := ComponentIds(t.descriptionNoNo, t.definitionNoNo);
      t := t.(languageNbNo := FilterTable(t.languageNbNo, LanguageComponentOf, noNoComponentIds, false));
      t := t.(languageNbGpNo :=
        FilterTable(t.languageNbGpNo, LanguageComponentOf, noNoComponentIds, false));
      t := t.(languageNnNo := FilterTable(t.languageNnNo, LanguageComponentOf, noNoComponentIds, false));
      t := t.(languageNnGpNo :=
        FilterTable(t.languageNnGpNo, LanguageComponentOf, noNoComponentIds, false));

      var enNoComponentIds := ComponentIds(t.descriptionEnNo, t.definitionEnNo);
      t := t.(languageEnNo := FilterTable(t.languageEnNo, LanguageComponentOf, enNoComponentIds, false));

      var enIntComponentIds := ComponentIds(t.descriptionEnInt, t.definitionEnInt);
      t := t.(languageEnInt :=
        FilterTable(t.languageEnInt, LanguageComponentOf, enIntComponentIds, false));

      t := t.(relationshipNo := Filter(t.relationshipNo, TouchesAny(ids)));
      t := t.(relationshipInt := Filter(t.relationshipInt, TouchesAny(ids)));
      tables := t;
    }
  }
}
