/**
 * The row shapes of the SNOMED CT snapshot tables that are loaded (the columns kept by
 * the typed record classes) and the validators attached to their fields.
 * A definition table has the same shape as a description table.
 */
module Rows {
  import opened Wrappers

  /** The values the `active` flag validator accepts. */
  const ActiveFlags: set<int> := {1, 0}
  /** The values the description `languageCode` validator accepts. */
  const LanguageCodes: set<string> := {"no", "en"}
  /** The values the description `typeId` validator accepts (after code substitution). */
  const DescriptionTypes: set<string> := {"synonym", "fsn", "definition"}
  /** The values the language `acceptabilityId` validator accepts (after code substitution). */
  const Acceptabilities: set<string> := {"tilrådd", "akseptabel"}

  /** A row of a concept table. */
  datatype Concept = Concept(id: string, active: int)
  {
    /** Constructing the record succeeds: every field validator accepts its value. */
    predicate Valid() { active in ActiveFlags }

    /** The value of a text column, or None when the row has no text column of that name. */
    function Cell(column: string): (r: Option<string>)
      ensures r.Some? <==> column in ConceptSchema.TextColumns()
    {
      if column == "id" then Some(id) else None
    }

    /** The row with text column `column` set to `value`; other columns are kept. */
    function WithCell(column: string, value: string): (r: Concept)
      ensures r.active == active
      ensures r.Cell(column) == if Cell(column).Some? then Some(value) else None
      ensures forall c :: c != column ==> r.Cell(c) == Cell(c)
    {
      if column == "id" then this.(id := value) else this
    }
  }

  /** A row of a description table or of a definition table. */
  datatype Description = Description(
    id: string, active: int, conceptId: string, languageCode: string, typeId: string, term: string)
  {
    predicate Valid()
    {
      active in ActiveFlags && languageCode in LanguageCodes && typeId in DescriptionTypes
    }

    function Cell(column: string): (r: Option<string>)
      ensures r.Some? <==> column in DescriptionSchema.TextColumns()
    {
      match column
      case "id" => Some(id)
      case "conceptId" => Some(conceptId)
      case "languageCode" => Some(languageCode)
      case "typeId" => Some(typeId)
      case "term" => Some(term)
      case _ => None
    }

    function WithCell(column: string, value: string): (r: Description)
      ensures r.active == active
      ensures r.Cell(column) == if Cell(column).Some? then Some(value) else None
      ensures forall c :: c != column ==> r.Cell(c) == Cell(c)
    {
      match column
      case "id" => this.(id := value)
      case "conceptId" => this.(conceptId := value)
      case "languageCode" => this.(languageCode := value)
      case "typeId" => this.(typeId := value)
      case "term" => this.(term := value)
      case _ => this
    }
  }

  /** A row of a language reference set table. */
  datatype Language = Language(
    id: string, active: int, refsetId: string, referencedComponentId: string, acceptabilityId: string)
  {
    predicate Valid()
    {
      active in ActiveFlags && acceptabilityId in Acceptabilities
    }

    function Cell(column: string): (r: Option<string>)
      ensures r.Some? <==> column in LanguageSchema.TextColumns()
    {
      match column
      case "id" => Some(id)
      case "refsetId" => Some(refsetId)
      case "referencedComponentId" => Some(referencedComponentId)
      case "acceptabilityId" => Some(acceptabilityId)
      case _ => None
    }

    function WithCell(column: string, value: string): (r: Language)
      ensures r.active == active
      ensures r.Cell(column) == if Cell(column).Some? then Some(value) else None
      ensures forall c :: c != column ==> r.Cell(c) == Cell(c)
    {
      match column
      case "id" => this.(id := value)
      case "refsetId" => this.(refsetId := value)
      case "referencedComponentId" => this.(referencedComponentId := value)
      case "acceptabilityId" => this.(acceptabilityId := value)
      case _ => this
    }
  }

  /** A row of a relationship table. Its record class declares no field validators. */
  datatype Relationship = Relationship(
    id: string, active: int, sourceId: string, destinationId: string,
    relationshipGroup: string, typeId: string, characteristicTypeId: string)
  {
    predicate Valid() { true }

    function Cell(column: string): (r: Option<string>)
      ensures r.Some? <==> column in RelationshipSchema.TextColumns()
    {
      match column
      case "id" => Some(id)
      case "sourceId" => Some(sourceId)
      case "destinationId" => Some(destinationId)
      case "relationshipGroup" => Some(relationshipGroup)
      case "typeId" => Some(typeId)
      case "characteristicTypeId" => Some(characteristicTypeId)
      case _ => None
    }

    function WithCell(column: string, value: string): (r: Relationship)
      ensures r.active == active
      ensures r.Cell(column) == if Cell(column).Some? then Some(value) else None
      ensures forall c :: c != column ==> r.Cell(c) == Cell(c)
    {
      match column
      case "id" => this.(id := value)
      case "sourceId" => this.(sourceId := value)
      case "destinationId" => this.(destinationId := value)
      case "relationshipGroup" => this.(relationshipGroup := value)
      case "typeId" => this.(typeId := value)
      case "characteristicTypeId" => this.(characteristicTypeId := value)
      case _ => this
    }
  }

  /**
   * The record classes a table can be read with. The definition class is an alias of
   * the description class, so it has no schema of its own.
   */
  datatype Schema = ConceptSchema | DescriptionSchema | LanguageSchema | RelationshipSchema
  {
    /** The class's `__name__`, the key of its substitution rules. */
    function Name(): string
    {
      match this
      case ConceptSchema => "SnomedTableConcept"
      case DescriptionSchema => "SnomedTableDescription"
      case LanguageSchema => "SnomedTableLanguage"
      case RelationshipSchema => "SnomedTableRelationship"
    }

    /** The text columns a table read with this class has (every column but `active`). */
    function TextColumns(): set<string>
    {
      match this
      case ConceptSchema => {"id"}
      case DescriptionSchema => {"id", "conceptId", "languageCode", "typeId", "term"}
      case LanguageSchema => {"id", "refsetId", "referencedComponentId", "acceptabilityId"}
      case RelationshipSchema =>
        {"id", "sourceId", "destinationId", "relationshipGroup", "typeId", "characteristicTypeId"}
    }
  }

  /** A loaded table: the rows of one family, in file order. */
  datatype Table =
    | Concepts(concepts: seq<Concept>)
    | Descriptions(descriptions: seq<Description>)
    | Languages(languages: seq<Language>)
    | Relationships(relationships: seq<Relationship>)
  {
    function Schema(): Schema
    {
      match this
      case Concepts(_) => ConceptSchema
      case Descriptions(_) => DescriptionSchema
      case Languages(_) => LanguageSchema
      case Relationships(_) => RelationshipSchema
    }
  }

  /* ---------------------------------------------------------------------------------
   * Column accessors, for filters and joins on a named column.
   * ------------------------------------------------------------------------------ */

  function ConceptIdOf(c: Concept): string { c.id }
  predicate ConceptActive(c: Concept) { c.active == 1 }

  function DescriptionIdOf(d: Description): string { d.id }
  function DescriptionConceptOf(d: Description): string { d.conceptId }
  predicate DescriptionActive(d: Description) { d.active == 1 }

  function LanguageIdOf(l: Language): string { l.id }
  function LanguageComponentOf(l: Language): string { l.referencedComponentId }
  predicate LanguageActive(l: Language) { l.active == 1 }

  function RelationshipIdOf(r: Relationship): string { r.id }
  predicate RelationshipActive(r: Relationship) { r.active == 1 }
}
