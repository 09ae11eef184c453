/**
 * Loading one raw table: the field key and the record class derived from a snapshot
 * basename, the choice of the one release file that holds the table, the configured
 * code-to-label substitutions and the row validation that may log or abort.
 * Reading the file is a parameter of the model.
 */
module Loading {
  import opened Wrappers
  import opened Strings
  import opened Rows
  import opened Tables
  import opened SnomedConfig
  import opened Reconcile

  /** Why loading a table fails, named after the exception the program raises. */
  datatype LoadError =
    | UnknownSchema(className: string)                     // KeyError from the class lookup
    | NoFileMatch(basename: string)                        // IndexError at `file_matches[0]`
    | AmbiguousMatch(basename: string, matches: seq<string>) // ValueError: several files match
    | ColumnNotFound(column: string)                       // a substitution names a missing column
    | DuplicateColumn(column: string)                      // two substitutions write the same column
    | InvalidRow(className: string)                        // ValueError from `validate_table`

  /* ---------------------------------------------------------------------------------
   * The field key and the record class of a basename.
   * ------------------------------------------------------------------------------ */

  /** `s.replace("-", "_")`, written character by character. */
  function Dashes(s: string): (r: string)
    ensures |r| == |s| && '-' !in r
    ensures forall i :: 0 <= i < |s| ==> r[i] == if s[i] == '-' then '_' else s[i]
  {
    seq(|s|, i requires 0 <= i < |s| => if s[i] == '-' then '_' else s[i])
  }

  /**
   * The field key of a basename: `Snapshot` removed, leading underscores stripped,
   * dashes turned into underscores, a double underscore collapsed, lower-cased.
   */
  function TableKey(basename: string): (key: string)
    ensures |key| <= |basename|
  {
    Lower(Replace(Replace(LStrip(Replace(basename, "Snapshot", ""), '_'), "-", "_"), "__", "_"))
  }

  /** A key holds no dash and no upper-case letter. */
  lemma TableKeyShape(basename: string)
    ensures '-' !in TableKey(basename)
    ensures forall i :: 0 <= i < |TableKey(basename)| ==> !('A' <= TableKey(basename)[i] <= 'Z')
  {
    var stripped := LStrip(Replace(basename, "Snapshot", ""), '_');
    var dashed := Replace(stripped, "-", "_");
    ReplaceChar(stripped, '-', '_');
    assert dashed == Dashes(stripped);
    ReplaceKeepsOut(dashed, "__", "_", '-');
  }

  /** The record class name the key selects: `SnomedTable` and the capitalised first field. */
  function SchemaClassName(key: string): string
  {
    "SnomedTable" + Capitalize(FirstField(key, '_'))
  }

  /**
   * The record class of a name among the classes in scope, or None (a KeyError). The
   * definition class is the description class under a second name.
   */
  function SchemaByName(name: string): (r: Option<Schema>)
    ensures r.Some? ==> r.value.Name() == name || name == "SnomedTableDefinition"
    ensures (exists s: Schema :: s.Name() == name) ==> r.Some?
    ensures r.Some? <==> name in {"SnomedTableConcept", "SnomedTableDescription", "SnomedTableDefinition",
                                  "SnomedTableLanguage", "SnomedTableRelationship"}
    ensures name == "SnomedTableDefinition" ==> r == Some(DescriptionSchema)
  {
    match name
    case "SnomedTableConcept" => Some(ConceptSchema)
    case "SnomedTableDescription" => Some(DescriptionSchema)
    case "SnomedTableDefinition" => Some(DescriptionSchema)
    case "SnomedTableLanguage" => Some(LanguageSchema)
    case "SnomedTableRelationship" => Some(RelationshipSchema)
    case _ => None
  }

  /**
   * One step of the key derivation, for a basename whose dashed form holds one double
   * underscore: `basename` is `a + "Snapshot" + b`, stripping gives `stripped`, and the
   * dashed form is `head + "__" + tail`.
   */
  lemma KeyWithCollapse(basename: string, a: string, b: string, stripped: string, head: string, tail: string,
                        key: string)
    requires basename == a + "Snapshot" + b
    requires forall i :: 0 <= i < |a| ==> a[i] != 'S'
    requires forall i :: 0 <= i < |b| ==> b[i] != 'S'
    requires LStrip(a + b, '_') == stripped
    requires Dashes(stripped) == head + "__" + tail
    requires forall i :: 0 <= i < |head| ==> head[i] != '_'
    requires forall i :: 0 <= i < |tail| ==> NoMatchAt(tail, "__", i)
    requires Lower(head + "_" + tail) == key
    ensures TableKey(basename) == key
  {
    var dashed := Unsnap(basename, a, b, stripped);
    var collapsed := Replace(dashed, "__", "_");
    assert forall i :: 0 <= i < |head| ==> NoMatchAt(head + "__" + tail, "__", i);
    NoMatchesBelow(head + "__" + tail, "__", |head|);
    NoMatchesBelow(tail, "__", |tail|);
    ReplaceOnce(head, tail, "__", "_");
    assert collapsed == head + "_" + tail;
  }

  /** The same for a basename whose dashed form holds no double underscore. */
  lemma KeyWithoutCollapse(basename: string, a: string, b: string, stripped: string, key: string)
    requires basename == a + "Snapshot" + b
    requires forall i :: 0 <= i < |a| ==> a[i] != 'S'
    requires forall i :: 0 <= i < |b| ==> b[i] != 'S'
    requires LStrip(a + b, '_') == stripped
    requires forall i :: 0 <= i < |stripped| ==> NoMatchAt(Dashes(stripped), "__", i)
    requires Lower(Dashes(stripped)) == key
    ensures TableKey(basename) == key
  {
    var dashed := Unsnap(basename, a, b, stripped);
    NoMatchesBelow(Dashes(stripped), "__", |stripped|);
    ReplaceNone(dashed, "__", "_");
  }

  /** Removing the one `Snapshot` of `a + "Snapshot" + b`. */
  lemma SnapshotRemoved(a: string, b: string)
    requires forall i :: 0 <= i < |a| ==> a[i] != 'S'
    requires forall i :: 0 <= i < |b| ==> b[i] != 'S'
    ensures Replace(a + "Snapshot" + b, "Snapshot", "") == a + b
  {
    assert forall i :: 0 <= i < |a| ==> NoMatchAt(a + "Snapshot" + b, "Snapshot", i);
    assert forall i :: 0 <= i < |b| ==> NoMatchAt(b, "Snapshot", i);
    NoMatchesBelow(a + "Snapshot" + b, "Snapshot", |a|);
    NoMatchesBelow(b, "Snapshot", |b|);
    RemoveOnce(a, b, "Snapshot");
  }

  /** The first three steps of the key derivation on `a + "Snapshot" + b`. */
  lemma Unsnap(basename: string, a: string, b: string, stripped: string) returns (dashed: string)
    requires basename == a + "Snapshot" + b
    requires forall i :: 0 <= i < |a| ==> a[i] != 'S'
    requires forall i :: 0 <= i < |b| ==> b[i] != 'S'
    requires LStrip(a + b, '_') == stripped
    ensures dashed == Dashes(stripped)
    ensures dashed == Replace(LStrip(Replace(basename, "Snapshot", ""), '_'), "-", "_")
  {
    SnapshotRemoved(a, b);
    ReplaceChar(stripped, '-', '_');
    dashed := Dashes(stripped);
  }

  /** A word of a basename: no `S` (so no `Snapshot`), no underscore and no dash. */
  predicate PlainWord(word: string)
  {
    |word| > 0 && forall i :: 0 <= i < |word| ==> word[i] != 'S' && word[i] != '_' && word[i] != '-'
  }

  /**
   * A locale suffix that follows `word_Snapshot`: it starts with `_` or `-`, holds no `S`,
   * and once dashes are underscores the rest holds no double underscore and lower-cases to `key`.
   */
  predicate CollapsingSuffix(suffix: string, key: string)
  {
    |suffix| > 0 && (suffix[0] == '_' || suffix[0] == '-') &&
    (forall i :: 0 <= i < |suffix| ==> suffix[i] != 'S') &&
    (forall i :: 0 <= i < |suffix| - 1 ==> NoMatchAt(Dashes(suffix[1..]), "__", i)) &&
    Lower(Dashes(suffix[1..])) == key
  }

  /**
   * A locale suffix that follows `wordSnapshot`: no `S`, and once dashes are underscores it
   * holds no double underscore and lower-cases to `key`.
   */
  predicate PlainSuffix(suffix: string, key: string)
  {
    (forall i :: 0 <= i < |suffix| ==> suffix[i] != 'S') &&
    (forall i :: 0 <= i < |suffix| ==> NoMatchAt(Dashes(suffix), "__", i)) &&
    Lower(Dashes(suffix)) == key
  }

  /** `Lower` works character by character, so it distributes over concatenation. */
  lemma LowerAppend(x: string, y: string)
    ensures Lower(x + y) == Lower(x) + Lower(y)
  {
  }

  /** So does `Dashes`. */
  lemma DashesAppend(x: string, y: string)
    ensures Dashes(x + y) == Dashes(x) + Dashes(y)
  {
  }

  /**
   * The key of `lead + word + "_Snapshot" + suffix` (an optional leading underscore): the
   * underscore before `Snapshot` and the suffix's first character meet as a double
   * underscore, which collapses.
   */
  lemma CollapsedKey(basename: string, lead: string, word: string, suffix: string, wordKey: string, suffixKey: string,
                     key: string)
    requires basename == lead + word + "_Snapshot" + suffix
    requires lead == "" || lead == "_"
    requires PlainWord(word) && Lower(word) == wordKey
    requires CollapsingSuffix(suffix, suffixKey)
    requires wordKey + "_" + suffixKey == key
    ensures TableKey(basename) == key
  {
    var a := lead + word + "_";
    assert basename == a + "Snapshot" + suffix;
    assert forall i :: 0 <= i < |a| ==> a[i] != 'S' by {
      forall i | 0 <= i < |a|
        ensures a[i] != 'S'
      {
        if |lead| <= i < |lead| + |word| {
          assert a[i] == word[i - |lead|];
        }
      }
    }
    var stripped := word + "_" + suffix;
    assert LStrip(a + suffix, '_') == stripped by {
      assert a + suffix == lead + stripped;
      StripLead(lead, stripped);
    }
    var tail := Dashes(suffix[1..]);
    assert Dashes(stripped) == word + "__" + tail by {
      DashedJoin(word, suffix);
    }
    assert forall i :: 0 <= i < |tail| ==> NoMatchAt(tail, "__", i);
    assert Lower(word + "_" + tail) == key by {
      LowerJoin(word, tail);
    }
    KeyWithCollapse(basename, a, suffix, stripped, word, tail, key);
  }

  /** `lstrip("_")` removes an optional leading underscore from a string that starts otherwise. */
  lemma StripLead(lead: string, s: string)
    requires lead == "" || lead == "_"
    requires |s| > 0 && s[0] != '_'
    ensures LStrip(lead + s, '_') == s
  {
    if lead == "_" {
      assert (lead + s)[1..] == s;
    } else {
      assert lead + s == s;
    }
  }

  /** Dashes in `word + "_" + suffix`: the suffix's leading `_` or `-` makes a double underscore. */
  lemma DashedJoin(word: string, suffix: string)
    requires PlainWord(word)
    requires |suffix| > 0 && (suffix[0] == '_' || suffix[0] == '-')
    ensures Dashes(word + "_" + suffix) == word + "__" + Dashes(suffix[1..])
  {
    var s := word + "_" + suffix;
    var r := Dashes(s);
    var t := word + "__" + Dashes(suffix[1..]);
    forall i | 0 <= i < |r|
      ensures r[i] == t[i]
    {
      if i < |word| {
        assert s[i] == word[i];
      } else if i > |word| + 1 {
        assert s[i] == suffix[1..][i - |word| - 2];
      }
    }
  }

  /** Lower-casing `word + "_" + tail` lower-cases each side of the underscore. */
  lemma LowerJoin(word: string, tail: string)
    ensures Lower(word + "_" + tail) == Lower(word) + "_" + Lower(tail)
  {
    LowerAppend(word + "_", tail);
    LowerAppend(word, "_");
  }

  /** The key of `word + "Snapshot" + suffix`: there is no double underscore to collapse. */
  lemma PlainKey(basename: string, word: string, suffix: string, wordKey: string, suffixKey: string, key: string)
    requires basename == word + "Snapshot" + suffix
    requires PlainWord(word) && Lower(word) == wordKey
    requires PlainSuffix(suffix, suffixKey)
    requires wordKey + suffixKey == key
    ensures TableKey(basename) == key
  {
    var stripped := word + suffix;
    var dashed := Dashes(stripped);
    assert dashed == word + Dashes(suffix) by {
      DashesAppend(word, suffix);
      assert Dashes(word) == word;
    }
    forall i | 0 <= i < |stripped|
      ensures NoMatchAt(dashed, "__", i)
    {
      if i >= |word| {
        assert NoMatchAt(Dashes(suffix), "__", i - |word|);
      }
    }
    LowerAppend(word, Dashes(suffix));
    KeyWithoutCollapse(basename, word, suffix, stripped, key);
  }

  /**
   * The record class named by a key whose first field is the lower-case word `w`:
   * `cap` is `w` capitalised and `name` the class name.
   */
  lemma ClassOfWord(w: string, rest: string, cap: string, name: string)
    requires '_' !in w && |w| > 0 && |cap| == |w|
    requires cap[0] == UpperChar(w[0])
    requires forall i :: 1 <= i < |w| ==> cap[i] == w[i] && !('A' <= w[i] <= 'Z')
    requires "SnomedTable" + cap == name
    ensures SchemaClassName(w + "_" + rest) == name
  {
    FirstFieldOf(w, '_', rest);
    assert Capitalize(w) == cap;
  }

  /* The words and locale suffixes of the configured basenames, one fact each. */

  lemma ConceptWord()
    ensures PlainWord("Concept") && Lower("Concept") == "concept"
  {
  }

  lemma DescriptionWord()
    ensures PlainWord("Description") && Lower("Description") == "description"
  {
  }

  lemma DefinitionWord()
    ensures PlainWord("Definition") && Lower("Definition") == "definition"
  {
  }

  lemma LanguageWord()
    ensures PlainWord("Language") && Lower("Language") == "language"
  {
  }

  lemma RelationshipWord()
    ensures PlainWord("Relationship") && Lower("Relationship") == "relationship"
  {
  }

  lemma CollapsingNo()
    ensures CollapsingSuffix("_NO", "no")
  {
  }

  lemma CollapsingInt()
    ensures CollapsingSuffix("_INT", "int")
  {
  }

  lemma CollapsingNoNo()
    ensures CollapsingSuffix("-no_NO", "no_no")
  {
  }

  lemma CollapsingEnNo()
    ensures CollapsingSuffix("-en_NO", "en_no")
  {
  }

  lemma CollapsingEnInt()
    ensures CollapsingSuffix("-en_INT", "en_int")
  {
  }

  lemma PlainNbNo()
    ensures PlainSuffix("-nb_NO", "_nb_no")
  {
  }

  lemma PlainNbGpNo()
    ensures PlainSuffix("-nb-gp_NO", "_nb_gp_no")
  {
  }

  lemma PlainNnNo()
    ensures PlainSuffix("-nn_NO", "_nn_no")
  {
  }

  lemma PlainNnGpNo()
    ensures PlainSuffix("-nn-gp_NO", "_nn_gp_no")
  {
  }

  lemma PlainEnNo()
    ensures PlainSuffix("-en_NO", "_en_no")
  {
  }

  lemma PlainEnInt()
    ensures PlainSuffix("-en_INT", "_en_int")
  {
  }

  /* The key each configured basename derives, one lemma per raw field. */

  lemma ConceptNoKey()
    ensures TableKey(TableBasenames[0]) == AllFields[0].Name()
  {
    ConceptWord();
    CollapsingNo();
    CollapsedKey(TableBasenames[0], "", "Concept", "_NO", "concept", "no", "concept_no");
  }

  lemma ConceptIntKey()
    ensures TableKey(TableBasenames[1]) == AllFields[1].Name()
  {
    ConceptWord();
    CollapsingInt();
    CollapsedKey(TableBasenames[1], "", "Concept", "_INT", "concept", "int", "concept_int");
  }

  lemma DescriptionNoNoKey()
    ensures TableKey(TableBasenames[2]) == AllFields[2].Name()
  {
    DescriptionWord();
    CollapsingNoNo();
    CollapsedKey(TableBasenames[2], "", "Description", "-no_NO", "description", "no_no", "description_no_no");
  }

  lemma DescriptionEnNoKey()
    ensures TableKey(TableBasenames[3]) == AllFields[3].Name()
  {
    DescriptionWord();
    CollapsingEnNo();
    CollapsedKey(TableBasenames[3], "", "Description", "-en_NO", "description", "en_no", "description_en_no");
  }

  lemma DescriptionEnIntKey()
    ensures TableKey(TableBasenames[4]) == AllFields[4].Name()
  {
    DescriptionWord();
    CollapsingEnInt();
    CollapsedKey(TableBasenames[4], "", "Description", "-en_INT", "description", "en_int", "description_en_int");
  }

  lemma DefinitionNoNoKey()
    ensures TableKey(TableBasenames[5]) == AllFields[5].Name()
  {
    DefinitionWord();
    CollapsingNoNo();
    CollapsedKey(TableBasenames[5], "", "Definition", "-no_NO", "definition", "no_no", "definition_no_no");
  }

  lemma DefinitionEnNoKey()
    ensures TableKey(TableBasenames[6]) == AllFields[6].Name()
  {
    DefinitionWord();
    CollapsingEnNo();
    CollapsedKey(TableBasenames[6], "", "Definition", "-en_NO", "definition", "en_no", "definition_en_no");
  }

  lemma DefinitionEnIntKey()
    ensures TableKey(TableBasenames[7]) == AllFields[7].Name()
  {
    DefinitionWord();
    CollapsingEnInt();
    CollapsedKey(TableBasenames[7], "", "Definition", "-en_INT", "definition", "en_int", "definition_en_int");
  }

  lemma LanguageNbNoKey()
    ensures TableKey(TableBasenames[8]) == AllFields[8].Name()
  {
    LanguageWord();
    PlainNbNo();
    PlainKey(TableBasenames[8], "Language", "-nb_NO", "language", "_nb_no", "language_nb_no");
  }

  lemma LanguageNbGpNoKey()
    ensures TableKey(TableBasenames[9]) == AllFields[9].Name()
  {
    LanguageWord();
    PlainNbGpNo();
    PlainKey(TableBasenames[9], "Language", "-nb-gp_NO", "language", "_nb_gp_no", "language_nb_gp_no");
  }

  lemma LanguageNnNoKey()
    ensures TableKey(TableBasenames[10]) == AllFields[10].Name()
  {
    LanguageWord();
    PlainNnNo();
    PlainKey(TableBasenames[10], "Language", "-nn_NO", "language", "_nn_no", "language_nn_no");
  }

  lemma LanguageNnGpNoKey()
    ensures TableKey(TableBasenames[11]) == AllFields[11].Name()
  {
    LanguageWord();
    PlainNnGpNo();
    PlainKey(TableBasenames[11], "Language", "-nn-gp_NO", "language", "_nn_gp_no", "language_nn_gp_no");
  }

  lemma LanguageEnNoKey()
    ensures TableKey(TableBasenames[12]) == AllFields[12].Name()
  {
    LanguageWord();
    PlainEnNo();
    PlainKey(TableBasenames[12], "Language", "-en_NO", "language", "_en_no", "language_en_no");
  }

  lemma LanguageEnIntKey()
    ensures TableKey(TableBasenames[13]) == AllFields[13].Name()
  {
    LanguageWord();
    PlainEnInt();
    PlainKey(TableBasenames[13], "Language", "-en_INT", "language", "_en_int", "language_en_int");
  }

  lemma RelationshipNoKey()
    ensures TableKey(TableBasenames[14]) == AllFields[14].Name()
  {
    RelationshipWord();
    CollapsingNo();
    CollapsedKey(TableBasenames[14], "_", "Relationship", "_NO", "relationship", "no", "relationship_no");
  }

  lemma RelationshipIntKey()
    ensures TableKey(TableBasenames[15]) == AllFields[15].Name()
  {
    RelationshipWord();
    CollapsingInt();
    CollapsedKey(TableBasenames[15], "_", "Relationship", "_INT", "relationship", "int", "relationship_int");
  }

  /** A key whose first word is `concept` selects the concept class. */
  lemma ConceptClass(key: string, rest: string)
    requires key == "concept" + "_" + rest
    ensures SchemaByName(SchemaClassName(key)) == Some(ConceptSchema)
  {
    ClassOfWord("concept", rest, "Concept", "SnomedTableConcept");
  }

  /** A key whose first word is `description` selects the description class. */
  lemma DescriptionClass(key: string, rest: string)
    requires key == "description" + "_" + rest
    ensures SchemaByName(SchemaClassName(key)) == Some(DescriptionSchema)
  {
    ClassOfWord("description", rest, "Description", "SnomedTableDescription");
  }

  /** A key whose first word is `definition` selects `SnomedTableDefinition`, the description class under a second name. */
  lemma DefinitionClass(key: string, rest: string)
    requires key == "definition" + "_" + rest
    ensures SchemaByName(SchemaClassName(key)) == Some(DescriptionSchema)
  {
    ClassOfWord("definition", rest, "Definition", "SnomedTableDefinition");
  }

  /** A key whose first word is `language` selects the language reference set class. */
  lemma LanguageClass(key: string, rest: string)
    requires key == "language" + "_" + rest
    ensures SchemaByName(SchemaClassName(key)) == Some(LanguageSchema)
  {
    ClassOfWord("language", rest, "Language", "SnomedTableLanguage");
  }

  /** A key whose first word is `relationship` selects the relationship class. */
  lemma RelationshipClass(key: string, rest: string)
    requires key == "relationship" + "_" + rest
    ensures SchemaByName(SchemaClassName(key)) == Some(RelationshipSchema)
  {
    ClassOfWord("relationship", rest, "Relationship", "SnomedTableRelationship");
  }

  /** The record class of every raw field, found from its key's first word. */
  lemma FieldClass(f: TableField)
    ensures SchemaByName(SchemaClassName(f.Name())) == Some(f.Schema())
  {
    match f
    case ConceptNo | ConceptInt => ConceptFieldClass(f);
    case DescriptionNoNo | DescriptionEnNo | DescriptionEnInt => DescriptionFieldClass(f);
    case DefinitionNoNo | DefinitionEnNo | DefinitionEnInt => DefinitionFieldClass(f);
    case LanguageNbNo | LanguageNbGpNo | LanguageNnNo | LanguageNnGpNo | LanguageEnNo | LanguageEnInt =>
      LanguageFieldClass(f);
    case RelationshipNo | RelationshipInt => RelationshipFieldClass(f);
  }

  lemma ConceptFieldClass(f: TableField)
    requires f == ConceptNo || f == ConceptInt
    ensures SchemaByName(SchemaClassName(f.Name())) == Some(ConceptSchema)
  {
    if f == ConceptNo { ConceptClass(f.Name(), "no"); } else { ConceptClass(f.Name(), "int"); }
  }

  lemma DescriptionFieldClass(f: TableField)
    requires f == DescriptionNoNo || f == DescriptionEnNo || f == DescriptionEnInt
    ensures SchemaByName(SchemaClassName(f.Name())) == Some(DescriptionSchema)
  {
    if f == DescriptionNoNo { DescriptionClass(f.Name(), "no_no"); }
    else if f == DescriptionEnNo { DescriptionClass(f.Name(), "en_no"); }
    else { DescriptionClass(f.Name(), "en_int"); }
  }

  lemma DefinitionFieldClass(f: TableField)
    requires f == DefinitionNoNo || f == DefinitionEnNo || f == DefinitionEnInt
    ensures SchemaByName(SchemaClassName(f.Name())) == Some(DescriptionSchema)
  {
    if f == DefinitionNoNo { DefinitionClass(f.Name(), "no_no"); }
    else if f == DefinitionEnNo { DefinitionClass(f.Name(), "en_no"); }
    else { DefinitionClass(f.Name(), "en_int"); }
  }

  lemma LanguageFieldClass(f: TableField)
    requires f in {LanguageNbNo, LanguageNbGpNo, LanguageNnNo, LanguageNnGpNo, LanguageEnNo, LanguageEnInt}
    ensures SchemaByName(SchemaClassName(f.Name())) == Some(LanguageSchema)
  {
    if f == LanguageNbNo { LanguageClass(f.Name(), "nb_no"); }
    else if f == LanguageNbGpNo { LanguageClass(f.Name(), "nb_gp_no"); }
    else if f == LanguageNnNo { LanguageClass(f.Name(), "nn_no"); }
    else if f == LanguageNnGpNo { LanguageClass(f.Name(), "nn_gp_no"); }
    else if f == LanguageEnNo { LanguageClass(f.Name(), "en_no"); }
    else { LanguageClass(f.Name(), "en_int"); }
  }

  lemma RelationshipFieldClass(f: TableField)
    requires f == RelationshipNo || f == RelationshipInt
    ensures SchemaByName(SchemaClassName(f.Name())) == Some(RelationshipSchema)
  {
    if f == RelationshipNo { RelationshipClass(f.Name(), "no"); } else { RelationshipClass(f.Name(), "int"); }
  }

  /**
   * Each of the sixteen configured basenames derives the name of the raw dataset field
   * at the same position, so the loaded tables fill every field exactly once, and selects
   * the record class of that field.
   */
  lemma ConfiguredBasenamesNameEveryField()
    ensures |TableBasenames| == |AllFields|
    ensures forall i :: 0 <= i < |TableBasenames| ==> TableKey(TableBasenames[i]) == AllFields[i].Name()
    ensures forall i :: 0 <= i < |TableBasenames| ==>
      SchemaByName(SchemaClassName(AllFields[i].Name())) == Some(AllFields[i].Schema())
    ensures forall i, j :: 0 <= i < j < |TableBasenames| ==> TableKey(TableBasenames[i]) != TableKey(TableBasenames[j])
  {
    forall i | 0 <= i < |TableBasenames|
      ensures TableKey(TableBasenames[i]) == AllFields[i].Name()
    {
      if i == 0 { ConceptNoKey(); }
      else if i == 1 { ConceptIntKey(); }
      else if i == 2 { DescriptionNoNoKey(); }
      else if i == 3 { DescriptionEnNoKey(); }
      else if i == 4 { DescriptionEnIntKey(); }
      else if i == 5 { DefinitionNoNoKey(); }
      else if i == 6 { DefinitionEnNoKey(); }
      else if i == 7 { DefinitionEnIntKey(); }
      else if i == 8 { LanguageNbNoKey(); }
      else if i == 9 { LanguageNbGpNoKey(); }
      else if i == 10 { LanguageNnNoKey(); }
      else if i == 11 { LanguageNnGpNoKey(); }
      else if i == 12 { LanguageEnNoKey(); }
      else if i == 13 { LanguageEnIntKey(); }
      else if i == 14 { RelationshipNoKey(); }
      else { RelationshipIntKey(); }
    }
    forall i | 0 <= i < |AllFields| {
      FieldClass(AllFields[i]);
    }
    AllFieldsListsEveryField();
  }

  /* ---------------------------------------------------------------------------------
   * Choosing the release file.
   * ------------------------------------------------------------------------------ */

  /** `file_matches`: the file names that contain the basename, in listing order. */
  function FileMatches(basename: string, filenames: seq<string>): (r: seq<string>)
    ensures forall f :: f in r <==> f in filenames && Contains(f, basename)
    ensures |r| <= |filenames|
  {
    Filter(filenames, (f: string) => Contains(f, basename))
  }

  /* ---------------------------------------------------------------------------------
   * The configured substitutions, `table_df.with_columns(replace_values)`.
   * ------------------------------------------------------------------------------ */

  /** The substitution that writes `column`, the first one when several do. */
  function RuleFor(rules: seq<ColumnReplace>, column: string): (r: Option<ColumnReplace>)
    ensures r.Some? <==> exists k :: 0 <= k < |rules| && rules[k].column == column
    ensures r.Some? ==> r.value in rules && r.value.column == column
  {
    if |rules| == 0 then None
    else if rules[0].column == column then Some(rules[0])
    else
      var r := RuleFor(rules[1..], column);
      assert forall k :: 1 <= k < |rules| ==> rules[k] == rules[1..][k - 1];
      r
  }

  /**
   * What substitution leaves in one cell: the substituted loaded value where a rule writes
   * the column, the loaded value elsewhere.
   */
  function ExpectedCell(loaded: Option<string>, rule: Option<ColumnReplace>): Option<string>
  {
    match (loaded, rule)
    case (Some(v), Some(rl)) => Some(ReplaceChain(rl.replacements, v))
    case _ => loaded
  }

  /**
   * Every substitution at once on one row. `with_columns` evaluates each expression on the
   * frame as loaded, so each rule reads the loaded row.
   */
  function SubstituteRow<R>(loaded: R, rules: seq<ColumnReplace>,
                            cell: (R, string) -> Option<string>, withCell: (R, string, string) -> R): R
    decreases |rules|
  {
    if |rules| == 0 then loaded
    else
      var rest := SubstituteRow(loaded, rules[..|rules| - 1], cell, withCell);
      var last := rules[|rules| - 1];
      match cell(loaded, last.column)
      case None => rest
      case Some(v) => withCell(rest, last.column, ReplaceChain(last.replacements, v))
  }

  /** The laws of a row family's cells: writing a cell sets it and keeps the others and the flag. */
  ghost predicate CellLaws<R(!new)>(cell: (R, string) -> Option<string>, withCell: (R, string, string) -> R,
                                    active: R -> int)
  {
    forall x, c, v :: active(withCell(x, c, v)) == active(x) &&
      cell(withCell(x, c, v), c) == (if cell(x, c).Some? then Some(v) else None) &&
      forall c' :: c' != c ==> cell(withCell(x, c, v), c') == cell(x, c')
  }

  /** Substituting sets each cell as `ExpectedCell` says and keeps the `active` flag. */
  lemma {:induction false} SubstituteRowCells<R(!new)>(loaded: R, rules: seq<ColumnReplace>,
      cell: (R, string) -> Option<string>, withCell: (R, string, string) -> R, active: R -> int, c: string)
    requires CellLaws(cell, withCell, active)
    requires forall k, m :: 0 <= k < m < |rules| ==> rules[k].column != rules[m].column
    ensures cell(SubstituteRow(loaded, rules, cell, withCell), c) == ExpectedCell(cell(loaded, c), RuleFor(rules, c))
    ensures active(SubstituteRow(loaded, rules, cell, withCell)) == active(loaded)
    decreases |rules|
  {
    if |rules| > 0 {
      var init := rules[..|rules| - 1];
      var last := rules[|rules| - 1];
      SubstituteRowCells(loaded, init, cell, withCell, active, c);
      RuleForLast(rules, c);
    }
  }

  /** The rule for a column among distinct columns: the last rule when it writes that column. */
  lemma RuleForLast(rules: seq<ColumnReplace>, c: string)
    requires |rules| > 0
    requires forall k, m :: 0 <= k < m < |rules| ==> rules[k].column != rules[m].column
    ensures RuleFor(rules, c) == if rules[|rules| - 1].column == c then Some(rules[|rules| - 1])
      else RuleFor(rules[..|rules| - 1], c)
    decreases |rules|
  {
    if |rules| > 1 && rules[0].column != c {
      assert rules[1..][..|rules| - 2] == rules[..|rules| - 1][1..];
      RuleForLast(rules[1..], c);
    }
  }

  /** The first substitution whose column the table lacks, if any. */
  function UnknownColumn(rules: seq<ColumnReplace>, columns: set<string>): (r: Option<string>)
    ensures r.None? <==> forall k :: 0 <= k < |rules| ==> rules[k].column in columns
    ensures r.Some? ==> r.value !in columns && exists k :: 0 <= k < |rules| && rules[k].column == r.value
  {
    if |rules| == 0 then None
    else if rules[0].column !in columns then Some(rules[0].column)
    else
      assert forall k :: 1 <= k < |rules| ==> rules[k] == rules[1..][k - 1];
      UnknownColumn(rules[1..], columns)
  }

  /** A column two substitutions write, if any. */
  function RepeatedColumn(rules: seq<ColumnReplace>): (r: Option<string>)
    ensures r.None? <==> forall k, m :: 0 <= k < m < |rules| ==> rules[k].column != rules[m].column
    ensures r.Some? ==> exists k, m :: 0 <= k < m < |rules| && rules[k].column == r.value && rules[m].column == r.value
  {
    if |rules| == 0 then None
    else if exists m :: 1 <= m < |rules| && rules[m].column == rules[0].column then Some(rules[0].column)
    else
      var r := RepeatedColumn(rules[1..]);
      assert forall k :: 1 <= k < |rules| ==> rules[k] == rules[1..][k - 1];
      r
  }

  /* The cells of each row family, as function values for `SubstituteRow`. */

  function ConceptCell(y: Concept, c: string): Option<string> { y.Cell(c) }
  function ConceptWithCell(y: Concept, c: string, v: string): Concept { y.WithCell(c, v) }
  function DescriptionCell(y: Description, c: string): Option<string> { y.Cell(c) }
  function DescriptionWithCell(y: Description, c: string, v: string): Description { y.WithCell(c, v) }
  function DescriptionActiveFlag(y: Description): int { y.active }
  function LanguageCell(y: Language, c: string): Option<string> { y.Cell(c) }
  function LanguageWithCell(y: Language, c: string, v: string): Language { y.WithCell(c, v) }
  function LanguageActiveFlag(y: Language): int { y.active }
  function RelationshipCell(y: Relationship, c: string): Option<string> { y.Cell(c) }
  function RelationshipWithCell(y: Relationship, c: string, v: string): Relationship { y.WithCell(c, v) }

  /**
   * `table_df.with_columns(rules)`: fails when a rule names a column the table lacks or
   * two rules write the same column; otherwise substitutes in every row.
   */
  function ApplyRules(tb: Table, rules: seq<ColumnReplace>): (r: Result<Table, LoadError>)
    ensures r.Failure? <==>
      (exists k :: 0 <= k < |rules| && rules[k].column !in tb.Schema().TextColumns()) ||
      (exists k, m :: 0 <= k < m < |rules| && rules[k].column == rules[m].column)
    ensures r.Failure? ==> r.error.ColumnNotFound? || r.error.DuplicateColumn?
    ensures r.Success? ==> r.value.Schema() == tb.Schema()
  {
    match UnknownColumn(rules, tb.Schema().TextColumns())
    case Some(c) => Failure(ColumnNotFound(c))
    case None =>
      match RepeatedColumn(rules)
      case Some(c) => Failure(DuplicateColumn(c))
      case None =>
        match tb
        case Concepts(rows) =>
          Success(Concepts(MapRows(rows, (x: Concept) => SubstituteRow(x, rules, ConceptCell, ConceptWithCell))))
        case Descriptions(rows) =>
          Success(Descriptions(MapRows(rows, (x: Description) =>
            SubstituteRow(x, rules, DescriptionCell, DescriptionWithCell))))
        case Languages(rows) =>
          Success(Languages(MapRows(rows, (x: Language) => SubstituteRow(x, rules, LanguageCell, LanguageWithCell))))
        case Relationships(rows) =>
          Success(Relationships(MapRows(rows, (x: Relationship) =>
            SubstituteRow(x, rules, RelationshipCell, RelationshipWithCell))))
  }

  /** The rules configured for a record class; a missing or empty entry applies none. */
  function RulesFor(config: Config, schema: Schema): seq<ColumnReplace>
  {
    if schema.Name() in config.extras.tableReplaceValues then config.extras.tableReplaceValues[schema.Name()] else []
  }

  /* ---------------------------------------------------------------------------------
   * Validation, `validate_table`.
   * ------------------------------------------------------------------------------ */

  /** `SnomedTableConcept(**row)` succeeds when the table is read as concepts. */
  function ConceptConstructs(schema: Schema): Concept -> bool
  {
    (x: Concept) => schema == ConceptSchema && x.Valid()
  }

  /** `SnomedTableDescription(**row)` succeeds when the table is read as descriptions. */
  function DescriptionConstructs(schema: Schema): Description -> bool
  {
    (x: Description) => schema == DescriptionSchema && x.Valid()
  }

  /** `SnomedTableLanguage(**row)` succeeds when the table is read as language rows. */
  function LanguageConstructs(schema: Schema): Language -> bool
  {
    (x: Language) => schema == LanguageSchema && x.Valid()
  }

  /** `SnomedTableRelationship(**row)` succeeds when the table is read as relationships. */
  function RelationshipConstructs(schema: Schema): Relationship -> bool
  {
    (x: Relationship) => schema == RelationshipSchema && x.Valid()
  }

  /** Every row of the table can be constructed as `schema` (a row of another family cannot). */
  predicate TableValid(schema: Schema, tb: Table)
  {
    match tb
    case Concepts(rows) => forall x :: x in rows ==> ConceptConstructs(schema)(x)
    case Descriptions(rows) => forall x :: x in rows ==> DescriptionConstructs(schema)(x)
    case Languages(rows) => forall x :: x in rows ==> LanguageConstructs(schema)(x)
    case Relationships(rows) => forall x :: x in rows ==> RelationshipConstructs(schema)(x)
  }

  /** A row fails exactly when it is among the filtered failures; none fails exactly when there are none. */
  lemma FailuresWitness<R(!new)>(rows: seq<R>, constructs: R -> bool)
    ensures |Filter(rows, Fails(constructs))| == 0 <==> forall x :: x in rows ==> constructs(x)
  {
    var failed := Filter(rows, Fails(constructs));
    if |failed| > 0 {
      assert failed[0] in failed;
    }
  }

  /** How many rows fail construction as `schema`. */
  function InvalidRowCount(schema: Schema, tb: Table): (n: nat)
    ensures n == 0 <==> TableValid(schema, tb)
  {
    match tb
    case Concepts(rows) =>
      FailuresWitness(rows, ConceptConstructs(schema));
      |Filter(rows, Fails(ConceptConstructs(schema)))|
    case Descriptions(rows) =>
      FailuresWitness(rows, DescriptionConstructs(schema));
      |Filter(rows, Fails(DescriptionConstructs(schema)))|
    case Languages(rows) =>
      FailuresWitness(rows, LanguageConstructs(schema));
      |Filter(rows, Fails(LanguageConstructs(schema)))|
    case Relationships(rows) =>
      FailuresWitness(rows, RelationshipConstructs(schema));
      |Filter(rows, Fails(RelationshipConstructs(schema)))|
  }

  /**
   * When the first `i` rows hold exactly one failure, it is the first failure of all the
   * rows.
   */
  lemma FirstFailure<R(!new)>(rows: seq<R>, i: nat, constructs: R -> bool)
    requires i <= |rows|
    requires |Filter(rows[..i], Fails(constructs))| == 1
    ensures Take(Filter(rows, Fails(constructs)), 1) == Filter(rows[..i], Fails(constructs))
  {
    assert rows[..i] + rows[i..] == rows;
    FilterConcat(rows[..i], rows[i..], Fails(constructs));
  }

  /**
   * The loop of `validate_table` over one table's rows: each row that fails construction
   * is logged; in the safe mode the loop goes on, otherwise it raises at the first such
   * row. `warned` lists the logged rows.
   */
  method ValidateRows<R(!new)>(rows: seq<R>, constructs: R -> bool, safe: bool) returns (warned: seq<R>, raised: bool)
    ensures safe ==> !raised && warned == Filter(rows, Fails(constructs))
    ensures !safe ==> warned == Take(Filter(rows, Fails(constructs)), 1)
    ensures raised <==> !safe && |Filter(rows, Fails(constructs))| > 0
  {
    warned := [];
    raised := false;
    var i := 0;
    while i < |rows| && !raised
      invariant 0 <= i <= |rows|
      invariant warned == Filter(rows[..i], Fails(constructs))
      invariant raised <==> !safe && |warned| > 0
      invariant !safe ==> |warned| <= 1
    {
      FilterConcat(rows[..i], [rows[i]], Fails(constructs));
      assert rows[..i + 1] == rows[..i] + [rows[i]];
      if !constructs(rows[i]) {
        warned := warned + [rows[i]];
        if !safe {
          raised := true;
        }
      }
      i := i + 1;
    }
    if raised {
      FirstFailure(rows, i, constructs);
    } else {
      assert rows[..i] == rows;
    }
  }

  /**
   * `validate_table(config, schema, table)`: the number of warnings it logs and whether it
   * raises. It never changes the table.
   */
  method ValidateTable(config: Config, schema: Schema, tb: Table) returns (warnings: nat, raised: bool)
    ensures raised <==> !config.safeValidation && !TableValid(schema, tb)
    ensures config.safeValidation ==> warnings == InvalidRowCount(schema, tb)
    ensures !config.safeValidation ==> warnings == if TableValid(schema, tb) then 0 else 1
  {
    var safe := config.safeValidation;
    match tb
    case Concepts(rows) =>
      var warned;
      warned, raised := ValidateRows(rows, ConceptConstructs(schema), safe);
      warnings := |warned|;
      FailuresWitness(rows, ConceptConstructs(schema));
    case Descriptions(rows) =>
      var warned;
      warned, raised := ValidateRows(rows, DescriptionConstructs(schema), safe);
      warnings := |warned|;
      FailuresWitness(rows, DescriptionConstructs(schema));
    case Languages(rows) =>
      var warned;
      warned, raised := ValidateRows(rows, LanguageConstructs(schema), safe);
      warnings := |warned|;
      FailuresWitness(rows, LanguageConstructs(schema));
    case Relationships(rows) =>
      var warned;
      warned, raised := ValidateRows(rows, RelationshipConstructs(schema), safe);
      warnings := |warned|;
      FailuresWitness(rows, RelationshipConstructs(schema));
  }

  /* ---------------------------------------------------------------------------------
   * Loading one field, `generate_dataset_field`.
   * ------------------------------------------------------------------------------ */

  /**
   * The loaded table after the substitutions of its record class, when it has any, and
   * validation in the unsafe mode.
   */
  function Prepared(config: Config, schema: Schema, loaded: Table): Result<Table, LoadError>
  {
    var rules := RulesFor(config, schema);
    var substituted := if |rules| > 0 then ApplyRules(loaded, rules) else Success(loaded);
    match substituted
    case Failure(e) => Failure(e)
    case Success(tb) =>
      if config.validate && !config.safeValidation && !TableValid(schema, tb) then Failure(InvalidRow(schema.Name()))
      else Success(tb)
  }

  /**
   * What `generate_dataset_field(config, basename, filenames)` returns or raises. `read`
   * stands for reading a release file with a record class.
   */
  function LoadField(config: Config, basename: string, filenames: seq<string>,
                     read: (string, Schema) -> Table): (r: Result<(string, Table), LoadError>)
    ensures r.Success? ==> r.value.0 == TableKey(basename) && |FileMatches(basename, filenames)| == 1
    ensures SchemaByName(SchemaClassName(TableKey(basename))).None? ==>
      r == Failure(UnknownSchema(SchemaClassName(TableKey(basename))))
    ensures SchemaByName(SchemaClassName(TableKey(basename))).Some? && |FileMatches(basename, filenames)| > 1 ==>
      r == Failure(AmbiguousMatch(basename, FileMatches(basename, filenames)))
    ensures SchemaByName(SchemaClassName(TableKey(basename))).Some? && |FileMatches(basename, filenames)| == 0 ==>
      r == Failure(NoFileMatch(basename))
  {
    var key := TableKey(basename);
    var className := SchemaClassName(key);
    match SchemaByName(className)
    case None => Failure(UnknownSchema(className))
    case Some(schema) =>
      var matches := FileMatches(basename, filenames);
      if |matches| > 1 then Failure(AmbiguousMatch(basename, matches))
      else if |matches| == 0 then Failure(NoFileMatch(basename))
      else
        match Prepared(config, schema, read(matches[0], schema))
        case Failure(e) => Failure(e)
        case Success(tb) => Success((key, tb))
  }

  /**
   * With a known record class and one matching file, the file is read with that class,
   * substituted only when the class has rules (a failing substitution is the error), and
   * refused only by validation in the unsafe mode.
   */
  lemma LoadFieldReads(config: Config, basename: string, filenames: seq<string>, read: (string, Schema) -> Table)
    requires SchemaByName(SchemaClassName(TableKey(basename))).Some?
    requires |FileMatches(basename, filenames)| == 1
    ensures var r := LoadField(config, basename, filenames, read);
      var s := SchemaByName(SchemaClassName(TableKey(basename))).value;
      var loaded := read(FileMatches(basename, filenames)[0], s);
      var rules := RulesFor(config, s);
      var substituted := if |rules| > 0 then ApplyRules(loaded, rules) else Success(loaded);
      && (substituted.Failure? ==> r == Failure(substituted.error))
      && (r.Success? ==> substituted.Success? && r.value.1 == substituted.value)
      && (|rules| == 0 && r.Success? ==> r.value.1 == loaded)
      && (r == Failure(InvalidRow(s.Name())) <==>
            substituted.Success? && config.validate && !config.safeValidation && !TableValid(s, substituted.value))
      && (substituted.Success? ==>
            (r.Success? <==> !(config.validate && !config.safeValidation && !TableValid(s, substituted.value))))
  {
  }

  /** With a known class and one matching file, loading is reading and then `Prepared`. */
  lemma LoadFieldPrepared(config: Config, basename: string, filenames: seq<string>,
                          read: (string, Schema) -> Table, schema: Schema)
    requires SchemaByName(SchemaClassName(TableKey(basename))) == Some(schema)
    requires |FileMatches(basename, filenames)| == 1
    ensures var p := Prepared(config, schema, read(FileMatches(basename, filenames)[0], schema));
      LoadField(config, basename, filenames, read) ==
        if p.Success? then Success((TableKey(basename), p.value)) else Failure(p.error)
  {
  }

  /**
   * `generate_dataset_field`: derives the key and the record class, picks the one matching
   * file, reads it, substitutes codes when rules exist for the class and validates when
   * configured. `warnings` counts the rows validation logs.
   */
  method GenerateDatasetField(config: Config, basename: string, filenames: seq<string>,
                              read: (string, Schema) -> Table)
    returns (r: Result<(string, Table), LoadError>, warnings: nat)
    ensures r == LoadField(config, basename, filenames, read)
    ensures warnings > 0 ==> config.validate && r.Success? == config.safeValidation
    ensures r.Success? && config.validate && config.safeValidation ==>
      SchemaByName(SchemaClassName(TableKey(basename))).Some? &&
      warnings == InvalidRowCount(SchemaByName(SchemaClassName(TableKey(basename))).value, r.value.1)
    ensures r.Success? && !(config.validate && config.safeValidation) ==> warnings == 0
    ensures r.Failure? ==> warnings == if r.error.InvalidRow? then 1 else 0
  {
    var located := LocateTable(basename, filenames);
    if located.Failure? {
      return Failure(located.error), 0;
    }
    var (key, schema, file) := located.value;
    var tableDf := read(file, schema);
    LoadFieldPrepared(config, basename, filenames, read, schema);
    var prepared;
    prepared, warnings := PrepareTable(config, schema, tableDf);
    if prepared.Failure? {
      return Failure(prepared.error), warnings;
    }
    r := Success((key, prepared.value));
    assert Some(schema) == SchemaByName(SchemaClassName(TableKey(basename)));
  }

  /**
   * Lines 66-79 of `generate_dataset_field` before the read: the key, the record class
   * and the one matching file, or the error raised on the way.
   */
  method LocateTable(basename: string, filenames: seq<string>) returns (r: Result<(string, Schema, string), LoadError>)
    ensures r.Success? <==>
      SchemaByName(SchemaClassName(TableKey(basename))).Some? && |FileMatches(basename, filenames)| == 1
    ensures r.Success? ==>
      r.value.0 == TableKey(basename) && Some(r.value.1) == SchemaByName(SchemaClassName(TableKey(basename))) &&
      r.value.2 == FileMatches(basename, filenames)[0]
    ensures SchemaByName(SchemaClassName(TableKey(basename))).None? ==>
      r == Failure(UnknownSchema(SchemaClassName(TableKey(basename))))
    ensures SchemaByName(SchemaClassName(TableKey(basename))).Some? && |FileMatches(basename, filenames)| > 1 ==>
      r == Failure(AmbiguousMatch(basename, FileMatches(basename, filenames)))
    ensures SchemaByName(SchemaClassName(TableKey(basename))).Some? && |FileMatches(basename, filenames)| == 0 ==>
      r == Failure(NoFileMatch(basename))
  {
    var key := TableKey(basename);
    var className := SchemaClassName(key);
    var found := SchemaByName(className);
    if found.None? {
      return Failure(UnknownSchema(className));
    }
    var fileMatches := FileMatches(basename, filenames);
    if |fileMatches| > 1 {
      return Failure(AmbiguousMatch(basename, fileMatches));
    }
    if |fileMatches| == 0 {
      return Failure(NoFileMatch(basename));
    }
    r := Success((key, found.value, fileMatches[0]));
  }

  /**
   * Lines 79-88 of `generate_dataset_field` after the read: substitutes when the class has
   * rules, then validates when configured. `warnings` counts the rows validation logs.
   */
  method PrepareTable(config: Config, schema: Schema, loaded: Table)
    returns (r: Result<Table, LoadError>, warnings: nat)
    ensures r == Prepared(config, schema, loaded)
    ensures r.Success? ==> warnings == if config.validate && config.safeValidation then InvalidRowCount(schema, r.value) else 0
    ensures r.Failure? ==> warnings == if r.error.InvalidRow? then 1 else 0
  {
    warnings := 0;
    var tableDf := loaded;
    var replaceValues := RulesFor(config, schema);
    if |replaceValues| > 0 {
      var substituted := ApplyRules(tableDf, replaceValues);
      if substituted.Failure? {
        return Failure(substituted.error), 0;
      }
      tableDf := substituted.value;
    }
    if config.validate {
      var raised;
      warnings, raised := ValidateTable(config, schema, tableDf);
      if raised {
        return Failure(InvalidRow(schema.Name())), warnings;
      }
    }
    r := Success(tableDf);
  }

  /**
   * Loading a basename whose key is the name of field `f` and selects `f`'s record class:
   * with exactly one matching file and a reader that returns the family it is asked for,
   * the configured substitutions always apply, so the only possible failure is a row
   * that fails validation in the unsafe mode.
   */
  lemma FieldLoads(f: TableField, basename: string, config: Config, filenames: seq<string>,
                   read: (string, Schema) -> Table)
    requires TableKey(basename) == f.Name()
    requires SchemaByName(SchemaClassName(f.Name())) == Some(f.Schema())
    requires config.extras.tableReplaceValues == TableReplaceValues
    requires |FileMatches(basename, filenames)| == 1
    requires forall fn, s :: read(fn, s).Schema() == s
    ensures var r := LoadField(config, basename, filenames, read);
      r.Failure? ==> r.error == InvalidRow(f.Schema().Name()) && config.validate && !config.safeValidation
    ensures var r := LoadField(config, basename, filenames, read);
      r.Success? ==> r.value.0 == f.Name() && r.value.1.Schema() == f.Schema()
    ensures var r := LoadField(config, basename, filenames, read);
      var loaded := read(FileMatches(basename, filenames)[0], f.Schema());
      r.Success? ==>
        if f.Schema() == ConceptSchema then r.value.1 == loaded
        else f.Schema().Name() in TableReplaceValues && ApplyRules(loaded, TableReplaceValues[f.Schema().Name()]) == Success(r.value.1)
  {
    var schema := f.Schema();
    var loaded := read(FileMatches(basename, filenames)[0], schema);
    assert loaded.Schema() == schema;
    ConfiguredRulesApply(config, loaded);
    ConfiguredRulesOf(config, schema);
    LoadFieldPrepared(config, basename, filenames, read, schema);
    var rules := RulesFor(config, schema);
    var substituted := if |rules| > 0 then ApplyRules(loaded, rules) else Success(loaded);
    assert substituted.Success? && substituted.value.Schema() == schema;
  }

  /** Under the configured rules, concepts get none and every other class a non-empty list. */
  lemma ConfiguredRulesOf(config: Config, schema: Schema)
    requires config.extras.tableReplaceValues == TableReplaceValues
    ensures schema == ConceptSchema ==> RulesFor(config, schema) == []
    ensures schema != ConceptSchema ==>
      schema.Name() in TableReplaceValues && RulesFor(config, schema) == TableReplaceValues[schema.Name()] &&
      |RulesFor(config, schema)| > 0
  {
    ConfiguredRulesFitSchemas();
  }

  /** The configured rules of a table's record class apply to it without error. */
  lemma ConfiguredRulesApply(config: Config, tb: Table)
    requires config.extras.tableReplaceValues == TableReplaceValues
    ensures ApplyRules(tb, RulesFor(config, tb.Schema())).Success?
  {
    ConfiguredRulesFitSchemas();
    var rules := RulesFor(config, tb.Schema());
    if |rules| > 0 {
      assert WellFormedRules(rules);
    }
  }

  /**
   * Each configured table loads into the raw field at the same position, read with that
   * field's record class (a definition table with the description class), unless a row
   * fails validation in the unsafe mode.
   */
  lemma ConfiguredFieldLoads(i: nat, config: Config, filenames: seq<string>, read: (string, Schema) -> Table)
    requires i < |TableBasenames|
    requires config.extras.tableReplaceValues == TableReplaceValues
    requires |FileMatches(TableBasenames[i], filenames)| == 1
    requires forall fn, s :: read(fn, s).Schema() == s
    ensures |TableBasenames| == |AllFields|
    ensures var r := LoadField(config, TableBasenames[i], filenames, read);
      r.Failure? ==> r.error == InvalidRow(AllFields[i].Schema().Name()) && config.validate && !config.safeValidation
    ensures var r := LoadField(config, TableBasenames[i], filenames, read);
      r.Success? ==> r.value.0 == AllFields[i].Name() && r.value.1.Schema() == AllFields[i].Schema()
    ensures var r := LoadField(config, TableBasenames[i], filenames, read);
      var s := AllFields[i].Schema();
      var loaded := read(FileMatches(TableBasenames[i], filenames)[0], s);
      r.Success? ==>
        if s == ConceptSchema then r.value.1 == loaded
        else s.Name() in TableReplaceValues && ApplyRules(loaded, TableReplaceValues[s.Name()]) == Success(r.value.1)
  {
    ConfiguredBasenamesNameEveryField();
    FieldLoads(AllFields[i], TableBasenames[i], config, filenames, read);
  }

  /**
   * Under the settings the command line builds, validation is safe, so with its one matching
   * file each configured basename loads into its field, whatever the limit, id filter and
   * validation flag.
   */
  lemma CliFieldLoads(i: nat, limit: Option<int>, idFilter: Option<string>, validate: bool,
                      filenames: seq<string>, read: (string, Schema) -> Table)
    requires i < |TableBasenames|
    requires |FileMatches(TableBasenames[i], filenames)| == 1
    requires forall fn, s :: read(fn, s).Schema() == s
    ensures |TableBasenames| == |AllFields|
    ensures var r := LoadField(CliConfig(limit, idFilter, validate), TableBasenames[i], filenames, read);
      r.Success? && r.value.0 == AllFields[i].Name() && r.value.1.Schema() == AllFields[i].Schema()
  {
    ConfiguredFieldLoads(i, CliConfig(limit, idFilter, validate), filenames, read);
  }

  /* ---------------------------------------------------------------------------------
   * The configured substitutions meet the validators.
   * ------------------------------------------------------------------------------ */

  lemma DescriptionCellLaws()
    ensures CellLaws(DescriptionCell, DescriptionWithCell, DescriptionActiveFlag)
  {
  }

  lemma LanguageCellLaws()
    ensures CellLaws(LanguageCell, LanguageWithCell, LanguageActiveFlag)
  {
  }

  /**
   * A description row passes validation after the configured substitution exactly when
   * its flag and language are valid and its `typeId` is one of the three type codes or
   * already a type name.
   */
  lemma SubstitutedDescriptionValid(x: Description)
    ensures SubstituteRow(x, TableReplaceValues["SnomedTableDescription"], DescriptionCell, DescriptionWithCell).Valid()
      <==> DescriptionAccepted(x)
  {
    var rules := TableReplaceValues["SnomedTableDescription"];
    var y := SubstituteRow(x, rules, DescriptionCell, DescriptionWithCell);
    DescriptionCellLaws();
    SubstituteRowCells(x, rules, DescriptionCell, DescriptionWithCell, DescriptionActiveFlag, "typeId");
    SubstituteRowCells(x, rules, DescriptionCell, DescriptionWithCell, DescriptionActiveFlag, "languageCode");
    assert y.Cell("typeId") == Some(ReplaceChain(DescriptionTypeRules, x.typeId));
    assert y.Cell("languageCode") == Some(x.languageCode);
    DescriptionTypeSubstitution();
  }

  /**
   * A language row passes validation after the configured substitutions exactly when its
   * flag is valid and its `acceptabilityId` is one of the two acceptability codes or
   * already a label.
   */
  lemma SubstitutedLanguageValid(x: Language)
    ensures SubstituteRow(x, TableReplaceValues["SnomedTableLanguage"], LanguageCell, LanguageWithCell).Valid()
      <==> LanguageAccepted(x)
  {
    var rules := TableReplaceValues["SnomedTableLanguage"];
    var y := SubstituteRow(x, rules, LanguageCell, LanguageWithCell);
    LanguageCellLaws();
    SubstituteRowCells(x, rules, LanguageCell, LanguageWithCell, LanguageActiveFlag, "acceptabilityId");
    assert y.Cell("acceptabilityId") == Some(ReplaceChain(AcceptabilityRules, x.acceptabilityId));
    AcceptabilitySubstitution();
  }

  /** The row conditions the configured description rules make valid. */
  predicate DescriptionAccepted(x: Description)
  {
    x.active in ActiveFlags && x.languageCode in LanguageCodes &&
    (x.typeId in DescriptionTypes || x.typeId in Codes(DescriptionTypeRules))
  }

  /** The row conditions the configured language rules make valid. */
  predicate LanguageAccepted(x: Language)
  {
    x.active in ActiveFlags && (x.acceptabilityId in Acceptabilities || x.acceptabilityId in Codes(AcceptabilityRules))
  }

  /**
   * A description (or definition) table read with the configured rules passes validation
   * exactly when every row has a valid flag and language and a type code or type name.
   */
  lemma ConfiguredDescriptionTableValid(rows: seq<Description>)
    ensures var r := ApplyRules(Descriptions(rows), TableReplaceValues["SnomedTableDescription"]);
      r.Success? && (TableValid(DescriptionSchema, r.value) <==> forall x :: x in rows ==> DescriptionAccepted(x))
  {
    var rules := TableReplaceValues["SnomedTableDescription"];
    ConfiguredRulesFitSchemas();
    assert DescriptionSchema.Name() == "SnomedTableDescription";
    var r := ApplyRules(Descriptions(rows), rules);
    assert r.Success?;
    var out := r.value.descriptions;
    assert |out| == |rows|;
    forall k | 0 <= k < |rows|
      ensures out[k].Valid() <==> DescriptionAccepted(rows[k])
    {
      assert out[k] == SubstituteRow(rows[k], rules, DescriptionCell, DescriptionWithCell);
      SubstitutedDescriptionValid(rows[k]);
    }
    if TableValid(DescriptionSchema, r.value) {
      forall x | x in rows
        ensures DescriptionAccepted(x)
      {
        var k :| 0 <= k < |rows| && rows[k] == x;
        assert DescriptionConstructs(DescriptionSchema)(out[k]);
      }
    } else {
      var y :| y in out && !DescriptionConstructs(DescriptionSchema)(y);
      var k :| 0 <= k < |out| && out[k] == y;
      assert !DescriptionAccepted(rows[k]);
    }
  }

  /**
   * A language table read with the configured rules passes validation exactly when every
   * row has a valid flag and an acceptability code or label.
   */
  lemma ConfiguredLanguageTableValid(rows: seq<Language>)
    ensures var r := ApplyRules(Languages(rows), TableReplaceValues["SnomedTableLanguage"]);
      r.Success? && (TableValid(LanguageSchema, r.value) <==> forall x :: x in rows ==> LanguageAccepted(x))
  {
    var rules := TableReplaceValues["SnomedTableLanguage"];
    ConfiguredRulesFitSchemas();
    assert LanguageSchema.Name() == "SnomedTableLanguage";
    var r := ApplyRules(Languages(rows), rules);
    assert r.Success?;
    var out := r.value.languages;
    assert |out| == |rows|;
    forall k | 0 <= k < |rows|
      ensures out[k].Valid() <==> LanguageAccepted(rows[k])
    {
      assert out[k] == SubstituteRow(rows[k], rules, LanguageCell, LanguageWithCell);
      SubstitutedLanguageValid(rows[k]);
    }
    if TableValid(LanguageSchema, r.value) {
      forall x | x in rows
        ensures LanguageAccepted(x)
      {
        var k :| 0 <= k < |rows| && rows[k] == x;
        assert LanguageConstructs(LanguageSchema)(out[k]);
      }
    } else {
      var y :| y in out && !LanguageConstructs(LanguageSchema)(y);
      var k :| 0 <= k < |out| && out[k] == y;
      assert !LanguageAccepted(rows[k]);
    }
  }
}
