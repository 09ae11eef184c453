/**
 * The denormalisation of the reconciled tables into the analysis views: terms (a
 * description with its language acceptability, one row per language annotation),
 * definitions (a definition with its locale), and relations (the two relationship tables
 * stacked).
 *
 * Each view has a national branch and an English branch. The national branch tags its
 * rows with the literal locale `nb` or `nn`; the English branch takes the locale from the
 * language row's `refsetId`. Columns that a right join pads with nulls are `Option`s.
 */
module Denormalize {
  import opened Wrappers
  import opened Rows
  import opened Tables
  import opened SnomedConfig
  import opened Reconcile

  /** The description types the terms view keeps. */
  const TermTypes: set<string> := {"fsn", "synonym"}
  /** The description type the definitions view keeps. */
  const DefinitionType: string := "definition"
  /** The literal locales of the national branch. */
  const NoLocales: set<string> := {"nb", "nn"}

  /**
   * A row of `gp_annotated_nb` or `gp_annotated_nn`: a language row, the acceptability of
   * a GP-register row for the same component (null when there is none) and the locale tag.
   */
  datatype GpAnnotated = GpAnnotated(language: Language, acceptabilityIdGp: Option<string>, lc: string)

  /** A row of the stacked national language tables of the definitions view. */
  datatype Tagged = Tagged(language: Language, lc: string)

  /** A row of the terms view, in the order of its seven columns. */
  datatype TermRow = TermRow(
    conceptId: Option<string>, termId: string, term: Option<string>, lc: string,
    typeId: Option<string>, acceptabilityId: string, acceptabilityIdGp: Option<string>)

  /** A row of the definitions view, in the order of its four columns. */
  datatype DefinitionRow = DefinitionRow(conceptId: Option<string>, definitionId: string, term: Option<string>, lc: string)

  /** The denormalised dataset. */
  datatype SnomedData = SnomedData(
    ids: seq<string>, terms: seq<TermRow>, definitions: seq<DefinitionRow>, relations: seq<Relationship>)

  /* ---------------------------------------------------------------------------------
   * Column access on null-padded rows.
   * ------------------------------------------------------------------------------ */

  /** A column of a row the right join may have padded with nulls. */
  function Field(d: Option<Description>, column: Description -> string): Option<string>
  {
    match d
    case Some(x) => Some(column(x))
    case None => None
  }

  function TermOf(d: Description): string { d.term }
  function TypeOf(d: Description): string { d.typeId }

  /** `pl.col("typeId").is_in(["fsn", "synonym"])` as a filter: a null type is dropped. */
  predicate IsTermType(d: Option<Description>)
  {
    d.Some? && d.value.typeId in TermTypes
  }

  /** `pl.col("typeId") == "definition"` as a filter: a null type is dropped. */
  predicate IsDefinitionType(d: Option<Description>)
  {
    d.Some? && d.value.typeId == DefinitionType
  }

  /* ---------------------------------------------------------------------------------
   * Terms.
   * ------------------------------------------------------------------------------ */

  function GpAcceptability(gp: Option<Language>): Option<string>
  {
    match gp
    case Some(g) => Some(g.acceptabilityId)
    case None => None
  }

  /**
   * `language.join(gp, on="referencedComponentId", how="left")`, dropping `active_right`,
   * renaming `acceptabilityId_right` to `acceptabilityId_gp` and adding the literal `lc`.
   */
  function AnnotateGp(language: seq<Language>, gp: seq<Language>, lc: string): (r: seq<GpAnnotated>)
    ensures |r| >= |language|
  {
    MapRows(LeftJoin(language, gp, LanguageComponentOf, LanguageComponentOf),
      (p: (Language, Option<Language>)) => GpAnnotated(p.0, GpAcceptability(p.1), lc))
  }

  function AnnotatedComponentOf(a: GpAnnotated): string { a.language.referencedComponentId }

  /** The national term row made from a joined description and an annotated language row. */
  function NoTermRow(p: (Option<Description>, GpAnnotated)): TermRow
  {
    TermRow(Field(p.0, DescriptionConceptOf), p.1.language.referencedComponentId, Field(p.0, TermOf), p.1.lc,
      Field(p.0, TypeOf), p.1.language.acceptabilityId, p.1.acceptabilityIdGp)
  }

  function KeepNoTerm(p: (Option<Description>, GpAnnotated)): bool { IsTermType(p.0) }

  /**
   * The national terms of `descriptions` against the annotated language rows: right join
   * on `id` = `referencedComponentId`, type filter, rename and projection.
   */
  function NoTerms(descriptions: seq<Description>, language: seq<GpAnnotated>): seq<TermRow>
  {
    MapRows(Filter(RightJoin(descriptions, language, DescriptionIdOf, AnnotatedComponentOf), KeepNoTerm), NoTermRow)
  }

  /** `pl.concat([gp_annotated_nb, gp_annotated_nn])`. */
  function NoTermLanguage(t: RawTables): seq<GpAnnotated>
  {
    AnnotateGp(t.languageNbNo, t.languageNbGpNo, "nb") + AnnotateGp(t.languageNnNo, t.languageNnGpNo, "nn")
  }

  /** `terms_no`. */
  function TermsNo(t: RawTables): seq<TermRow>
  {
    NoTerms(t.descriptionNoNo, NoTermLanguage(t))
  }

  /** The English term row: `refsetId` becomes `lc` and the GP acceptability is null. */
  function EnTermRow(p: (Option<Description>, Language)): TermRow
  {
    TermRow(Field(p.0, DescriptionConceptOf), p.1.referencedComponentId, Field(p.0, TermOf), p.1.refsetId,
      Field(p.0, TypeOf), p.1.acceptabilityId, None)
  }

  function KeepEnTerm(p: (Option<Description>, Language)): bool { IsTermType(p.0) }

  /** `terms_en`: the stacked English descriptions right-joined onto the stacked English language rows. */
  function TermsEn(t: RawTables): seq<TermRow>
  {
    var joined := RightJoin(t.descriptionEnNo + t.descriptionEnInt, t.languageEnNo + t.languageEnInt,
      DescriptionIdOf, LanguageComponentOf);
    MapRows(Filter(joined, KeepEnTerm), EnTermRow)
  }

  /** `denormalize_term_tables`: the national terms followed by the English terms. */
  function DenormalizeTerms(t: RawTables): (r: seq<TermRow>)
    ensures |r| == |TermsNo(t)| + |TermsEn(t)|
    ensures r[..|TermsNo(t)|] == TermsNo(t) && r[|TermsNo(t)|..] == TermsEn(t)
  {
    TermsNo(t) + TermsEn(t)
  }

  /* ---------------------------------------------------------------------------------
   * Definitions.
   * ------------------------------------------------------------------------------ */

  /** `language.with_columns(pl.lit(lc).alias("lc"))`. */
  function Tag(language: seq<Language>, lc: string): (r: seq<Tagged>)
    ensures |r| == |language|
    ensures forall i :: 0 <= i < |r| ==> r[i].language == language[i] && r[i].lc == lc
  {
    MapRows(language, (l: Language) => Tagged(l, lc))
  }

  function TaggedComponentOf(a: Tagged): string { a.language.referencedComponentId }

  /** The four national language tables, GP registers included, stacked with their locale tags. */
  function NoDefinitionLanguage(t: RawTables): seq<Tagged>
  {
    Tag(t.languageNbNo, "nb") + Tag(t.languageNbGpNo, "nb") + Tag(t.languageNnNo, "nn") + Tag(t.languageNnGpNo, "nn")
  }

  function NoDefinitionRow(p: (Option<Description>, Tagged)): DefinitionRow
  {
    DefinitionRow(Field(p.0, DescriptionConceptOf), p.1.language.referencedComponentId, Field(p.0, TermOf), p.1.lc)
  }

  function KeepNoDefinition(p: (Option<Description>, Tagged)): bool { IsDefinitionType(p.0) }

  /**
   * The national definitions of `definitions` against the tagged language rows: right join
   * on `id` = `referencedComponentId`, type filter, rename and projection.
   */
  function NoDefinitions(definitions: seq<Description>, language: seq<Tagged>): seq<DefinitionRow>
  {
    MapRows(Filter(RightJoin(definitions, language, DescriptionIdOf, TaggedComponentOf), KeepNoDefinition),
      NoDefinitionRow)
  }

  /** `definitions_no`. */
  function DefinitionsNo(t: RawTables): seq<DefinitionRow>
  {
    NoDefinitions(t.definitionNoNo, NoDefinitionLanguage(t))
  }

  function EnDefinitionRow(p: (Option<Description>, Language)): DefinitionRow
  {
    DefinitionRow(Field(p.0, DescriptionConceptOf), p.1.referencedComponentId, Field(p.0, TermOf), p.1.refsetId)
  }

  function KeepEnDefinition(p: (Option<Description>, Language)): bool { IsDefinitionType(p.0) }

  /** `definitions_en`. */
  function DefinitionsEn(t: RawTables): seq<DefinitionRow>
  {
    var joined := RightJoin(t.definitionEnNo + t.definitionEnInt, t.languageEnNo + t.languageEnInt,
      DescriptionIdOf, LanguageComponentOf);
    MapRows(Filter(joined, KeepEnDefinition), EnDefinitionRow)
  }

  /** `denormalize_definition_tables`: the national definitions followed by the English ones. */
  function DenormalizeDefinitions(t: RawTables): (r: seq<DefinitionRow>)
    ensures |r| == |DefinitionsNo(t)| + |DefinitionsEn(t)|
    ensures r[..|DefinitionsNo(t)|] == DefinitionsNo(t) && r[|DefinitionsNo(t)|..] == DefinitionsEn(t)
  {
    DefinitionsNo(t) + DefinitionsEn(t)
  }

  /* ---------------------------------------------------------------------------------
   * The dataset.
   * ------------------------------------------------------------------------------ */

  /** `snomed_denormalize_dataset`: the ids, the two views and the stacked relationships. */
  function DenormalizeDataset(raw: SnomedDataRaw): (r: SnomedData)
    reads raw
    ensures r.ids == raw.ids
    ensures r.terms == DenormalizeTerms(raw.tables) && r.definitions == DenormalizeDefinitions(raw.tables)
    ensures |r.relations| == |raw.tables.relationshipNo| + |raw.tables.relationshipInt|
    ensures r.relations[..|raw.tables.relationshipNo|] == raw.tables.relationshipNo
    ensures r.relations[|raw.tables.relationshipNo|..] == raw.tables.relationshipInt
  {
    SnomedData(raw.ids, DenormalizeTerms(raw.tables), DenormalizeDefinitions(raw.tables),
      raw.tables.relationshipNo + raw.tables.relationshipInt)
  }

  /* ---------------------------------------------------------------------------------
   * What the views hold.
   * ------------------------------------------------------------------------------ */

  /**
   * A row of a joined, filtered and projected view comes from a right row and its join
   * partner that pass the filter, and every such pair gives a row.
   */
  lemma JoinedHas<L(!new), R(!new), S>(left: seq<L>, right: seq<R>, lk: L -> string, rk: R -> string,
                                       keep: ((Option<L>, R)) -> bool, f: ((Option<L>, R)) -> S, y: S)
    ensures y in MapRows(Filter(RightJoin(left, right, lk, rk), keep), f) <==>
      exists p: (Option<L>, R) :: p.1 in right && JoinPartner(left, lk, rk(p.1), p.0) && keep(p) && f(p) == y
  {
    MapRowsHas(Filter(RightJoin(left, right, lk, rk), keep), f, y);
  }

  /**
   * The GP left join keeps every language row: a row with no GP row for its component
   * gets a null GP acceptability, and a row with one gets that row's acceptability.
   * Every annotated row is a language row with the given locale, and its GP acceptability
   * is null exactly when no GP row has its component.
   */
  lemma AnnotateGpSpec(language: seq<Language>, gp: seq<Language>, lc: string)
    ensures forall a :: a in AnnotateGp(language, gp, lc) ==> a.language in language && a.lc == lc
    ensures forall a :: a in AnnotateGp(language, gp, lc) ==>
      (a.acceptabilityIdGp.None? <==> forall g :: g in gp ==> g.referencedComponentId != a.language.referencedComponentId)
    ensures forall a :: a in AnnotateGp(language, gp, lc) && a.acceptabilityIdGp.Some? ==>
      exists g :: g in gp && g.referencedComponentId == a.language.referencedComponentId &&
        g.acceptabilityId == a.acceptabilityIdGp.value
    ensures forall l :: l in language && (forall g :: g in gp ==> g.referencedComponentId != l.referencedComponentId) ==>
      GpAnnotated(l, None, lc) in AnnotateGp(language, gp, lc)
    ensures forall l, g :: l in language && g in gp && g.referencedComponentId == l.referencedComponentId ==>
      GpAnnotated(l, Some(g.acceptabilityId), lc) in AnnotateGp(language, gp, lc)
  {
    var j := LeftJoin(language, gp, LanguageComponentOf, LanguageComponentOf);
    var f := (p: (Language, Option<Language>)) => GpAnnotated(p.0, GpAcceptability(p.1), lc);
    var r := AnnotateGp(language, gp, lc);
    assert r == MapRows(j, f);
    forall a | a in r
      ensures a.language in language && a.lc == lc
      ensures a.acceptabilityIdGp.None? <==> forall g :: g in gp ==> g.referencedComponentId != a.language.referencedComponentId
      ensures a.acceptabilityIdGp.Some? ==>
        exists g :: g in gp && g.referencedComponentId == a.language.referencedComponentId &&
          g.acceptabilityId == a.acceptabilityIdGp.value
    {
      MapRowsHas(j, f, a);
      var p :| p in j && f(p) == a;
      assert JoinPartner(gp, LanguageComponentOf, p.0.referencedComponentId, p.1);
      if p.1.Some? {
        assert p.1.value in gp;
      }
    }
    forall l | l in language && (forall g :: g in gp ==> g.referencedComponentId != l.referencedComponentId)
      ensures GpAnnotated(l, None, lc) in r
    {
      var p: (Language, Option<Language>) := (l, None);
      assert p in j;
      MapRowsHas(j, f, f(p));
    }
    forall l, g | l in language && g in gp && g.referencedComponentId == l.referencedComponentId
      ensures GpAnnotated(l, Some(g.acceptabilityId), lc) in r
    {
      var p: (Language, Option<Language>) := (l, Some(g));
      assert p in j;
      MapRowsHas(j, f, f(p));
    }
  }

  /** A national term row is a description of a term type joined with an annotated language row for it. */
  lemma NoTermsHas(descriptions: seq<Description>, language: seq<GpAnnotated>, row: TermRow)
    ensures row in NoTerms(descriptions, language) <==>
      exists x, a :: x in descriptions && a in language && x.id == a.language.referencedComponentId &&
        x.typeId in TermTypes && row == NoTermRow((Some(x), a))
  {
    JoinedHas(descriptions, language, DescriptionIdOf, AnnotatedComponentOf, KeepNoTerm, NoTermRow, row);
    if row in NoTerms(descriptions, language) {
      var p: (Option<Description>, GpAnnotated) :| p.1 in language &&
        JoinPartner(descriptions, DescriptionIdOf, AnnotatedComponentOf(p.1), p.0) && KeepNoTerm(p) && NoTermRow(p) == row;
      assert p.0.value in descriptions && p == (Some(p.0.value), p.1);
    }
    if exists x, a :: x in descriptions && a in language && x.id == a.language.referencedComponentId &&
        x.typeId in TermTypes && row == NoTermRow((Some(x), a)) {
      var x, a :| x in descriptions && a in language && x.id == a.language.referencedComponentId &&
        x.typeId in TermTypes && row == NoTermRow((Some(x), a));
      var p: (Option<Description>, GpAnnotated) := (Some(x), a);
      assert JoinPartner(descriptions, DescriptionIdOf, AnnotatedComponentOf(p.1), p.0);
    }
  }

  /**
   * Every national term row has a locale `nb` or `nn`, a non-null concept, term and type,
   * a type `fsn` or `synonym`, and the columns of a national description with the term id.
   */
  lemma TermsNoRows(t: RawTables)
    ensures forall row :: row in TermsNo(t) ==>
      row.lc in NoLocales && row.conceptId.Some? && row.term.Some? && row.typeId.Some? && row.typeId.value in TermTypes
    ensures forall row :: row in TermsNo(t) ==>
      exists x :: x in t.descriptionNoNo && x.id == row.termId &&
        row.conceptId == Some(x.conceptId) && row.term == Some(x.term) && row.typeId == Some(x.typeId)
  {
    AnnotateGpSpec(t.languageNbNo, t.languageNbGpNo, "nb");
    AnnotateGpSpec(t.languageNnNo, t.languageNnGpNo, "nn");
    forall row | row in TermsNo(t)
      ensures row.lc in NoLocales && row.conceptId.Some? && row.term.Some? && row.typeId.Some? && row.typeId.value in TermTypes
      ensures exists x :: x in t.descriptionNoNo && x.id == row.termId &&
                          row.conceptId == Some(x.conceptId) && row.term == Some(x.term) && row.typeId == Some(x.typeId)
    {
      NoTermsHas(t.descriptionNoNo, NoTermLanguage(t), row);
      var x, a :| x in t.descriptionNoNo && a in NoTermLanguage(t) && x.id == a.language.referencedComponentId &&
        x.typeId in TermTypes && row == NoTermRow((Some(x), a));
      assert a.lc == "nb" || a.lc == "nn";
    }
  }

  /**
   * A national language row (`nb` with its GP register, or `nn` with its own) that
   * annotates a national description of a term type gives a term row: with a null GP
   * acceptability when no GP row annotates the same component, and with the GP row's
   * acceptability for each GP row that does.
   */
  lemma TermsNoKeepsLanguageRows(t: RawTables, l: Language, x: Description, gp: seq<Language>, lc: string)
    requires (l in t.languageNbNo && gp == t.languageNbGpNo && lc == "nb") ||
             (l in t.languageNnNo && gp == t.languageNnGpNo && lc == "nn")
    requires x in t.descriptionNoNo && x.id == l.referencedComponentId && x.typeId in TermTypes
    ensures (forall g :: g in gp ==> g.referencedComponentId != l.referencedComponentId) ==>
      TermRow(Some(x.conceptId), x.id, Some(x.term), lc, Some(x.typeId), l.acceptabilityId, None) in TermsNo(t)
    ensures forall g :: g in gp && g.referencedComponentId == l.referencedComponentId ==>
      TermRow(Some(x.conceptId), x.id, Some(x.term), lc, Some(x.typeId), l.acceptabilityId, Some(g.acceptabilityId))
        in TermsNo(t)
  {
    var own := if lc == "nb" then AnnotateGp(t.languageNbNo, gp, lc) else AnnotateGp(t.languageNnNo, gp, lc);
    AnnotateGpSpec(if lc == "nb" then t.languageNbNo else t.languageNnNo, gp, lc);
    if forall g :: g in gp ==> g.referencedComponentId != l.referencedComponentId {
      var a := GpAnnotated(l, None, lc);
      assert a in own;
      assert a in NoTermLanguage(t);
      NoTermsHas(t.descriptionNoNo, NoTermLanguage(t), NoTermRow((Some(x), a)));
    }
    forall g | g in gp && g.referencedComponentId == l.referencedComponentId
      ensures TermRow(Some(x.conceptId), x.id, Some(x.term), lc, Some(x.typeId), l.acceptabilityId, Some(g.acceptabilityId))
        in TermsNo(t)
    {
      var a := GpAnnotated(l, Some(g.acceptabilityId), lc);
      assert a in own;
      assert a in NoTermLanguage(t);
      NoTermsHas(t.descriptionNoNo, NoTermLanguage(t), NoTermRow((Some(x), a)));
    }
  }

  /** The national terms are the `nb` terms followed by the `nn` terms. */
  lemma TermsNoByLocale(t: RawTables)
    ensures TermsNo(t) ==
      NoTerms(t.descriptionNoNo, AnnotateGp(t.languageNbNo, t.languageNbGpNo, "nb")) +
      NoTerms(t.descriptionNoNo, AnnotateGp(t.languageNnNo, t.languageNnGpNo, "nn"))
  {
    var nb := AnnotateGp(t.languageNbNo, t.languageNbGpNo, "nb");
    var nn := AnnotateGp(t.languageNnNo, t.languageNnGpNo, "nn");
    var ja := RightJoin(t.descriptionNoNo, nb, DescriptionIdOf, AnnotatedComponentOf);
    var jb := RightJoin(t.descriptionNoNo, nn, DescriptionIdOf, AnnotatedComponentOf);
    RightJoinConcat(t.descriptionNoNo, nb, nn, DescriptionIdOf, AnnotatedComponentOf);
    FilterConcat(ja, jb, KeepNoTerm);
    MapRowsConcat(Filter(ja, KeepNoTerm), Filter(jb, KeepNoTerm), NoTermRow);
  }

  /** An English term row is an English description of a term type joined with an English language row for it. */
  lemma TermsEnHas(t: RawTables, row: TermRow)
    ensures row in TermsEn(t) <==>
      exists x, l :: x in t.descriptionEnNo + t.descriptionEnInt && l in t.languageEnNo + t.languageEnInt &&
        x.id == l.referencedComponentId && x.typeId in TermTypes && row == EnTermRow((Some(x), l))
  {
    var descriptions := t.descriptionEnNo + t.descriptionEnInt;
    var language := t.languageEnNo + t.languageEnInt;
    JoinedHas(descriptions, language, DescriptionIdOf, LanguageComponentOf, KeepEnTerm, EnTermRow, row);
    if row in TermsEn(t) {
      var p: (Option<Description>, Language) :| p.1 in language &&
        JoinPartner(descriptions, DescriptionIdOf, LanguageComponentOf(p.1), p.0) && KeepEnTerm(p) && EnTermRow(p) == row;
      assert p.0.value in descriptions && p == (Some(p.0.value), p.1);
    }
    if exists x, l :: x in descriptions && l in language && x.id == l.referencedComponentId &&
        x.typeId in TermTypes && row == EnTermRow((Some(x), l)) {
      var x, l :| x in descriptions && l in language && x.id == l.referencedComponentId &&
        x.typeId in TermTypes && row == EnTermRow((Some(x), l));
      var p: (Option<Description>, Language) := (Some(x), l);
      assert JoinPartner(descriptions, DescriptionIdOf, LanguageComponentOf(p.1), p.0);
    }
  }

  /**
   * Every English term row has a null GP acceptability, a type `fsn` or `synonym`, the
   * columns of an English description with the term id, and the locale and acceptability
   * of an English language row for it.
   */
  lemma TermsEnRows(t: RawTables)
    ensures forall row :: row in TermsEn(t) ==>
      row.acceptabilityIdGp.None? && row.conceptId.Some? && row.term.Some? && row.typeId.Some? &&
      row.typeId.value in TermTypes
    ensures forall row :: row in TermsEn(t) ==>
      exists x :: x in t.descriptionEnNo + t.descriptionEnInt && x.id == row.termId &&
        row.conceptId == Some(x.conceptId) && row.term == Some(x.term) && row.typeId == Some(x.typeId)
    ensures forall row :: row in TermsEn(t) ==>
      exists l :: l in t.languageEnNo + t.languageEnInt && l.referencedComponentId == row.termId &&
        l.refsetId == row.lc && l.acceptabilityId == row.acceptabilityId
  {
    forall row | row in TermsEn(t)
      ensures row.acceptabilityIdGp.None? && row.conceptId.Some? && row.term.Some? && row.typeId.Some? &&
        row.typeId.value in TermTypes
      ensures exists x :: x in t.descriptionEnNo + t.descriptionEnInt && x.id == row.termId &&
                          row.conceptId == Some(x.conceptId) && row.term == Some(x.term) && row.typeId == Some(x.typeId)
      ensures exists l :: l in t.languageEnNo + t.languageEnInt && l.referencedComponentId == row.termId &&
                          l.refsetId == row.lc && l.acceptabilityId == row.acceptabilityId
    {
      TermsEnHas(t, row);
    }
  }

  /** Every English language row annotating an English description of a term type gives a term row. */
  lemma TermsEnKeepsLanguageRows(t: RawTables, l: Language, x: Description)
    requires l in t.languageEnNo + t.languageEnInt
    requires x in t.descriptionEnNo + t.descriptionEnInt && x.id == l.referencedComponentId && x.typeId in TermTypes
    ensures TermRow(Some(x.conceptId), x.id, Some(x.term), l.refsetId, Some(x.typeId), l.acceptabilityId, None) in TermsEn(t)
  {
    TermsEnHas(t, EnTermRow((Some(x), l)));
  }

  /** The terms view never holds a definition: every row's type is `fsn` or `synonym`. */
  lemma TermsHaveTermTypes(t: RawTables)
    ensures forall row :: row in DenormalizeTerms(t) ==>
      row.typeId.Some? && row.typeId.value in TermTypes && row.typeId.value != DefinitionType
  {
    TermsNoRows(t);
    TermsEnRows(t);
  }

  /** A national definition row is a national definition joined with a tagged language row for it. */
  lemma NoDefinitionsHas(definitions: seq<Description>, language: seq<Tagged>, row: DefinitionRow)
    ensures row in NoDefinitions(definitions, language) <==>
      exists x, a :: x in definitions && a in language &&
        x.id == a.language.referencedComponentId && x.typeId == DefinitionType && row == NoDefinitionRow((Some(x), a))
  {
    JoinedHas(definitions, language, DescriptionIdOf, TaggedComponentOf, KeepNoDefinition, NoDefinitionRow, row);
    if row in NoDefinitions(definitions, language) {
      var p: (Option<Description>, Tagged) :| p.1 in language &&
        JoinPartner(definitions, DescriptionIdOf, TaggedComponentOf(p.1), p.0) && KeepNoDefinition(p) &&
        NoDefinitionRow(p) == row;
      assert p.0.value in definitions && p == (Some(p.0.value), p.1);
    }
    if exists x, a :: x in definitions && a in language &&
        x.id == a.language.referencedComponentId && x.typeId == DefinitionType && row == NoDefinitionRow((Some(x), a)) {
      var x, a :| x in definitions && a in language &&
        x.id == a.language.referencedComponentId && x.typeId == DefinitionType && row == NoDefinitionRow((Some(x), a));
      var p: (Option<Description>, Tagged) := (Some(x), a);
      assert JoinPartner(definitions, DescriptionIdOf, TaggedComponentOf(p.1), p.0);
    }
  }

  /** Every tagged national language row is a row of one of the four tables, with that table's locale. */
  lemma NoDefinitionLanguageRows(t: RawTables)
    ensures forall a :: a in NoDefinitionLanguage(t) ==>
      (a.lc == "nb" && (a.language in t.languageNbNo || a.language in t.languageNbGpNo)) ||
      (a.lc == "nn" && (a.language in t.languageNnNo || a.language in t.languageNnGpNo))
    ensures forall l :: l in t.languageNbNo || l in t.languageNbGpNo ==> Tagged(l, "nb") in NoDefinitionLanguage(t)
    ensures forall l :: l in t.languageNnNo || l in t.languageNnGpNo ==> Tagged(l, "nn") in NoDefinitionLanguage(t)
  {
    var nb := Tag(t.languageNbNo, "nb");
    var nbGp := Tag(t.languageNbGpNo, "nb");
    var nn := Tag(t.languageNnNo, "nn");
    var nnGp := Tag(t.languageNnGpNo, "nn");
    forall l | l in t.languageNbNo || l in t.languageNbGpNo
      ensures Tagged(l, "nb") in NoDefinitionLanguage(t)
    {
      if l in t.languageNbNo {
        var i :| 0 <= i < |t.languageNbNo| && t.languageNbNo[i] == l;
        assert nb[i] == Tagged(l, "nb");
      } else {
        var i :| 0 <= i < |t.languageNbGpNo| && t.languageNbGpNo[i] == l;
        assert nbGp[i] == Tagged(l, "nb");
      }
    }
    forall l | l in t.languageNnNo || l in t.languageNnGpNo
      ensures Tagged(l, "nn") in NoDefinitionLanguage(t)
    {
      if l in t.languageNnNo {
        var i :| 0 <= i < |t.languageNnNo| && t.languageNnNo[i] == l;
        assert nn[i] == Tagged(l, "nn");
      } else {
        var i :| 0 <= i < |t.languageNnGpNo| && t.languageNnGpNo[i] == l;
        assert nnGp[i] == Tagged(l, "nn");
      }
    }
  }

  /**
   * Every national definition row has locale `nb` or `nn`, a non-null concept and term,
   * and the columns of a national definition of type `definition` with that id.
   */
  lemma DefinitionsNoRows(t: RawTables)
    ensures forall row :: row in DefinitionsNo(t) ==> row.lc in NoLocales && row.conceptId.Some? && row.term.Some?
    ensures forall row :: row in DefinitionsNo(t) ==>
      exists x :: x in t.definitionNoNo && x.typeId == DefinitionType && x.id == row.definitionId &&
        row.conceptId == Some(x.conceptId) && row.term == Some(x.term)
  {
    NoDefinitionLanguageRows(t);
    forall row | row in DefinitionsNo(t)
      ensures row.lc in NoLocales && row.conceptId.Some? && row.term.Some?
      ensures exists x :: x in t.definitionNoNo && x.typeId == DefinitionType && x.id == row.definitionId &&
                          row.conceptId == Some(x.conceptId) && row.term == Some(x.term)
    {
      NoDefinitionsHas(t.definitionNoNo, NoDefinitionLanguage(t), row);
    }
  }

  /**
   * A national definition annotated by a row of any of the four national language tables,
   * the GP registers included, gives a definition row with that table's locale.
   */
  lemma DefinitionsNoKeepsLanguageRows(t: RawTables, l: Language, x: Description, lc: string)
    requires ((l in t.languageNbNo || l in t.languageNbGpNo) && lc == "nb") ||
             ((l in t.languageNnNo || l in t.languageNnGpNo) && lc == "nn")
    requires x in t.definitionNoNo && x.id == l.referencedComponentId && x.typeId == DefinitionType
    ensures DefinitionRow(Some(x.conceptId), x.id, Some(x.term), lc) in DefinitionsNo(t)
  {
    NoDefinitionLanguageRows(t);
    NoDefinitionsHas(t.definitionNoNo, NoDefinitionLanguage(t), NoDefinitionRow((Some(x), Tagged(l, lc))));
  }

  /** An English definition row is an English definition joined with an English language row for it. */
  lemma DefinitionsEnHas(t: RawTables, row: DefinitionRow)
    ensures row in DefinitionsEn(t) <==>
      exists x, l :: x in t.definitionEnNo + t.definitionEnInt && l in t.languageEnNo + t.languageEnInt &&
        x.id == l.referencedComponentId && x.typeId == DefinitionType && row == EnDefinitionRow((Some(x), l))
  {
    var definitions := t.definitionEnNo + t.definitionEnInt;
    var language := t.languageEnNo + t.languageEnInt;
    JoinedHas(definitions, language, DescriptionIdOf, LanguageComponentOf, KeepEnDefinition, EnDefinitionRow, row);
    if row in DefinitionsEn(t) {
      var p: (Option<Description>, Language) :| p.1 in language &&
        JoinPartner(definitions, DescriptionIdOf, LanguageComponentOf(p.1), p.0) && KeepEnDefinition(p) &&
        EnDefinitionRow(p) == row;
      assert p.0.value in definitions && p == (Some(p.0.value), p.1);
    }
    if exists x, l :: x in definitions && l in language &&
        x.id == l.referencedComponentId && x.typeId == DefinitionType && row == EnDefinitionRow((Some(x), l)) {
      var x, l :| x in definitions && l in language &&
        x.id == l.referencedComponentId && x.typeId == DefinitionType && row == EnDefinitionRow((Some(x), l));
      var p: (Option<Description>, Language) := (Some(x), l);
      assert JoinPartner(definitions, DescriptionIdOf, LanguageComponentOf(p.1), p.0);
    }
  }

  /**
   * Every English definition row has the columns of an English definition of type
   * `definition` with that id, and takes its locale from an English language row's
   * `refsetId`; every such pair gives a row.
   */
  lemma DefinitionsEnRows(t: RawTables)
    ensures forall row :: row in DefinitionsEn(t) ==>
      exists x :: x in t.definitionEnNo + t.definitionEnInt && x.typeId == DefinitionType && x.id == row.definitionId &&
        row.conceptId == Some(x.conceptId) && row.term == Some(x.term)
    ensures forall row :: row in DefinitionsEn(t) ==>
      exists l :: l in t.languageEnNo + t.languageEnInt && l.referencedComponentId == row.definitionId && l.refsetId == row.lc
    ensures forall x, l ::
      (x in t.definitionEnNo + t.definitionEnInt && l in t.languageEnNo + t.languageEnInt &&
       x.id == l.referencedComponentId && x.typeId == DefinitionType) ==>
      DefinitionRow(Some(x.conceptId), x.id, Some(x.term), l.refsetId) in DefinitionsEn(t)
  {
    forall row | row in DefinitionsEn(t)
      ensures exists x :: x in t.definitionEnNo + t.definitionEnInt && x.typeId == DefinitionType &&
                          x.id == row.definitionId && row.conceptId == Some(x.conceptId) && row.term == Some(x.term)
      ensures exists l :: l in t.languageEnNo + t.languageEnInt && l.referencedComponentId == row.definitionId &&
                          l.refsetId == row.lc
    {
      DefinitionsEnHas(t, row);
    }
    forall x, l | x in t.definitionEnNo + t.definitionEnInt && l in t.languageEnNo + t.languageEnInt &&
      x.id == l.referencedComponentId && x.typeId == DefinitionType
      ensures DefinitionRow(Some(x.conceptId), x.id, Some(x.term), l.refsetId) in DefinitionsEn(t)
    {
      DefinitionsEnHas(t, EnDefinitionRow((Some(x), l)));
    }
  }

  /* ---------------------------------------------------------------------------------
   * The dataset built from the reconciled tables.
   * ------------------------------------------------------------------------------ */

  /** Every relation of the dataset built from the reconciled tables is active and touches an id. */
  lemma ReconciledRelations(raw: SnomedDataRaw, loaded: RawTables, c: Config)
    requires (raw.tables, raw.ids) == Reconciled(loaded, c)
    ensures forall x :: x in DenormalizeDataset(raw).relations ==>
      x.active == 1 && (x.sourceId in raw.ids || x.destinationId in raw.ids)
  {
    ReconciledRelationships(loaded, c);
    var t := raw.tables;
    assert forall x :: x in t.relationshipNo + t.relationshipInt ==> x in t.relationshipNo || x in t.relationshipInt;
  }

  /** Every English term of the reconciled tables belongs to a concept among the ids. */
  lemma ReconciledTermsEn(raw: SnomedDataRaw, loaded: RawTables, c: Config)
    requires (raw.tables, raw.ids) == Reconciled(loaded, c)
    ensures forall row :: row in TermsEn(raw.tables) ==> row.conceptId.Some? && row.conceptId.value in raw.ids
  {
    ReconciledDescriptions(loaded, c);
    TermsEnRows(raw.tables);
  }

  /**
   * When the ids were narrowed by an allow-list or a limit, every term of the reconciled
   * tables belongs to a concept among the ids.
   */
  lemma ReconciledTermsNarrowed(raw: SnomedDataRaw, loaded: RawTables, c: Config)
    requires (raw.tables, raw.ids) == Reconciled(loaded, c) && Narrowed(c)
    ensures forall row :: row in DenormalizeDataset(raw).terms ==> row.conceptId.Some? && row.conceptId.value in raw.ids
  {
    ReconciledDescriptions(loaded, c);
    ReconciledTermsEn(raw, loaded, c);
    TermsNoRows(raw.tables);
  }

  /** Every definition of the reconciled tables belongs to a concept among the ids. */
  lemma ReconciledDefinitions(raw: SnomedDataRaw, loaded: RawTables, c: Config)
    requires (raw.tables, raw.ids) == Reconciled(loaded, c)
    ensures forall row :: row in DenormalizeDataset(raw).definitions ==>
      row.conceptId.Some? && row.conceptId.value in raw.ids
  {
    ReconciledDescriptions(loaded, c);
    DefinitionsOfConcepts(raw.tables, raw.ids);
  }

  /** When every definition table holds only definitions of `ids`, so does the definitions view. */
  lemma DefinitionsOfConcepts(t: RawTables, ids: seq<string>)
    requires forall x :: x in t.definitionNoNo ==> x.conceptId in ids
    requires forall x :: x in t.definitionEnNo ==> x.conceptId in ids
    requires forall x :: x in t.definitionEnInt ==> x.conceptId in ids
    ensures forall row :: row in DenormalizeDefinitions(t) ==> row.conceptId.Some? && row.conceptId.value in ids
  {
    DefinitionsNoRows(t);
    DefinitionsEnRows(t);
    forall row | row in DenormalizeDefinitions(t)
      ensures row.conceptId.Some? && row.conceptId.value in ids
    {
      assert row in DefinitionsNo(t) + DefinitionsEn(t);
    }
  }
}
