/**
 * The manager's documented cases, replayed on fresh managers: each method
 * returns what the corresponding case inspects, and its contract states the
 * expected values, derived from the contracts of the manager's operations.
 */
module NerExamples {
  import opened Wrappers
  import opened NamedEntities
  import opened Ner
  import opened Sequences

  /** The default threshold, and a given one. */
  method ThresholdExample() returns (byDefault: real, given: real)
    ensures byDefault == 0.5 && given == 0.6
  {
    var m1 := new NerManager(None);
    var m2 := new NerManager(Some(0.6));
    byDefault, given := m1.threshold, m2.threshold;
  }

  /** Adding an entity twice gives one entity with no options; a second name gives a second entity. */
  method AddEntityExample() returns (first: NamedEntity, again: NamedEntity, other: NamedEntity, count: nat)
    ensures first == NamedEntity("entity1", []) && again == first
    ensures other == NamedEntity("entity2", []) && count == 2
  {
    var m := new NerManager(None);
    first := m.AddNamedEntity("entity1");
    again := m.AddNamedEntity("entity1");
    other := m.AddNamedEntity("entity2");
    count := |m.namedEntities|;
  }

  /** A missing entity is absent from a plain get and created by a forced one. */
  method GetEntityExample() returns (existing: Option<NamedEntity>, missing: Option<NamedEntity>, forced: Option<NamedEntity>)
    ensures existing == Some(NamedEntity("entity1", []))
    ensures missing == None && forced == Some(NamedEntity("entity2", []))
  {
    var m := new NerManager(None);
    var e := m.AddNamedEntity("entity1");
    existing := m.GetNamedEntity("entity1", false);
    missing := m.GetNamedEntity("entity2", false);
    forced := m.GetNamedEntity("entity2", true);
  }

  /**
   * The removal case as written looks up the misspelt name `entiy1`: that
   * lookup is absent whether or not the entity was removed, so it does not
   * observe the removal.
   */
  method MisspeltRemovalExample() returns (withoutRemoval: Option<NamedEntity>, withRemoval: Option<NamedEntity>)
    ensures withoutRemoval == None && withRemoval == None
  {
    var m := new NerManager(None);
    var e := m.AddNamedEntity("entity1");
    withoutRemoval := m.GetNamedEntity("entiy1", false);
    m.RemoveNamedEntity("entity1");
    withRemoval := m.GetNamedEntity("entiy1", false);
  }

  /**
   * A removed entity is gone, looked up under its own name, while it was
   * present before; removing a missing one leaves the others.
   */
  method RemoveEntityExample() returns (present: Option<NamedEntity>, removed: Option<NamedEntity>, kept: Option<NamedEntity>)
    ensures present == Some(NamedEntity("entity1", []))
    ensures removed == None && kept == Some(NamedEntity("entity1", []))
  {
    var m := new NerManager(None);
    var e := m.AddNamedEntity("entity1");
    present := m.GetNamedEntity("entity1", false);
    m.RemoveNamedEntity("entity1");
    removed := m.GetNamedEntity("entity1", false);
    var m2 := new NerManager(None);
    e := m2.AddNamedEntity("entity1");
    m2.RemoveNamedEntity("entity2");
    kept := m2.GetNamedEntity("entity1", false);
  }

  /** Options are found at the position they were pushed to, and a missing one at -1. */
  lemma OptionPositionsExample(o1: EntityOption, o2: EntityOption, o3: EntityOption)
    requires o1.name == "option1" && o2.name == "option2" && o3.name == "option3"
    ensures var e := NamedEntity("entity1", [o1, o2, o3]);
      && OptionsPositionFromEntity(e, "option1") == 0
      && OptionsPositionFromEntity(e, "option2") == 1
      && OptionsPositionFromEntity(e, "option3") == 2
      && OptionsPositionFromEntity(e, "option4") == -1
    ensures var e := NamedEntity("entity1", [o1, o2, o3]);
      && OptionFromEntity(e, "option1") == Some(o1)
      && OptionFromEntity(e, "option2") == Some(o2)
      && OptionFromEntity(e, "option3") == Some(o3)
      && OptionFromEntity(e, "option4") == None
  {
    var e := NamedEntity("entity1", [o1, o2, o3]);
    assert OptionNames(e) == ["option1", "option2", "option3"];
    assert Distinct(OptionNames(e));
    OptionFromEntityAt(e, 0);
    OptionFromEntityAt(e, 1);
    OptionFromEntityAt(e, 2);
  }

  /** Adding an option, to an existing or a new entity, appends one option without texts. */
  method AddOptionExample() returns (o: EntityOption, countExisting: nat, countNew: nat)
    ensures o == EntityOption("option1_1", map[])
    ensures countExisting == 1 && countNew == 1
  {
    var m := new NerManager(None);
    var e := m.AddNamedEntity("entity1");
    o := m.AddNamedEntityOption("entity1", "option1_1");
    countExisting := |m.Lookup("entity1").value.options|;
    var m2 := new NerManager(None);
    var o2 := m2.AddNamedEntityOption("entity1", "option1_1");
    countNew := |m2.Lookup("entity1").value.options|;
  }

  /** A removed option is no longer found, while its sibling still is. */
  method RemoveOptionExample() returns (before: Option<EntityOption>, after: Option<EntityOption>, sibling: Option<EntityOption>)
    ensures before == Some(EntityOption("option1_2", map[]))
    ensures after == None && sibling == Some(EntityOption("option1_1", map[]))
  {
    var m := new NerManager(None);
    var e := m.AddNamedEntity("entity1");
    var o1 := m.AddNamedEntityOption("entity1", "option1_1");
    var o2 := m.AddNamedEntityOption("entity1", "option1_2");
    before := m.GetNamedEntityOption("entity1", "option1_2", false);
    m.RemoveNamedEntityOption("entity1", "option1_2");
    after := m.GetNamedEntityOption("entity1", "option1_2", false);
    sibling := m.GetNamedEntityOption("entity1", "option1_1", false);
  }

  /** Plain gets of a missing option or entity are absent; forced gets create them. */
  method GetOptionExample() returns (existing: Option<EntityOption>, noOption: Option<EntityOption>,
                                     noEntity: Option<EntityOption>, forcedOption: Option<EntityOption>,
                                     forcedEntity: Option<EntityOption>)
    ensures existing == Some(EntityOption("option1_1", map[]))
    ensures noOption == None && noEntity == None
    ensures forcedOption == Some(EntityOption("option1_2", map[]))
    ensures forcedEntity == Some(EntityOption("option2_1", map[]))
  {
    var m := new NerManager(None);
    var o := m.AddNamedEntityOption("entity1", "option1_1");
    existing := m.GetNamedEntityOption("entity1", "option1_1", false);
    noOption := m.GetNamedEntityOption("entity1", "option1_2", false);
    noEntity := m.GetNamedEntityOption("entity2", "option1_2", false);
    forcedOption := m.GetNamedEntityOption("entity1", "option1_2", true);
    forcedEntity := m.GetNamedEntityOption("entity2", "option2_1", true);
  }

  /** One text for one locale is stored as that locale's list. */
  method AddTextExample() returns (en: seq<string>)
    ensures en == ["Something"]
  {
    var m := new NerManager(None);
    m.AddNamedEntityText("entity1", "option1", One("en"), One("Something"));
    en := m.LookupOption("entity1", "option1").value.texts["en"];
  }

  /** Several texts for one locale are appended in order. */
  method AddTextsExample() returns (en: seq<string>)
    ensures en == ["Something", "Anything"]
  {
    var m := new NerManager(None);
    m.AddNamedEntityText("entity1", "option1", One("en"), Many(["Something", "Anything"]));
    en := m.LookupOption("entity1", "option1").value.texts["en"];
  }

  /** Texts given for several locales are appended, in order, to each locale's list. */
  method AddTextsLocalesExample() returns (en: seq<string>, es: seq<string>)
    ensures en == ["Something", "Anything"] && es == ["Something", "Anything"]
  {
    var m := new NerManager(None);
    m.AddNamedEntityText("entity1", "option1", Many(["en", "es"]), Many(["Something", "Anything"]));
    var texts := m.LookupOption("entity1", "option1").value.texts;
    en, es := texts["en"], texts["es"];
  }

  /** Removing one text from one locale leaves the other locale whole. */
  method RemoveTextExample() returns (en: seq<string>, es: seq<string>)
    ensures en == ["Something", "Anything"] && es == ["Anything"]
  {
    var m := new NerManager(None);
    m.AddNamedEntityText("entity1", "option1", Many(["en", "es"]), Many(["Something", "Anything"]));
    m.RemoveNamedEntityText("entity1", "option1", One("es"), One("Something"));
    var texts := m.LookupOption("entity1", "option1").value.texts;
    en, es := texts["en"], texts["es"];
  }

  /** Removing every text of a locale leaves it with an empty list, not without one. */
  method RemoveTextsExample() returns (en: seq<string>, es: seq<string>)
    ensures en == ["Something", "Anything"] && es == []
  {
    var m := new NerManager(None);
    m.AddNamedEntityText("entity1", "option1", Many(["en", "es"]), Many(["Something", "Anything"]));
    m.RemoveNamedEntityText("entity1", "option1", One("es"), Many(["Something", "Anything"]));
    var texts := m.LookupOption("entity1", "option1").value.texts;
    en, es := texts["en"], texts["es"];
  }

  /** Removing a text from several locales removes it from each. */
  method RemoveTextLocalesExample() returns (en: seq<string>, es: seq<string>)
    ensures en == ["Anything"] && es == ["Anything"]
  {
    var m := new NerManager(None);
    m.AddNamedEntityText("entity1", "option1", Many(["en", "es"]), Many(["Something", "Anything"]));
    m.RemoveNamedEntityText("entity1", "option1", Many(["en", "es"]), One("Something"));
    var texts := m.LookupOption("entity1", "option1").value.texts;
    en, es := texts["en"], texts["es"];
  }

  /**
   * The test utterance "This is %entity1% with %entity4% from %entity3% yeah",
   * as a template: scanning it recovers the three placeholders in order.
   */
  lemma UtterancePlaceholders(pieces: seq<string>, placeholders: seq<string>)
    requires pieces == ["This is ", " with ", " from ", " yeah"]
    requires placeholders == ["entity1", "entity4", "entity3"]
    ensures TemplateNames(Template(pieces, placeholders)) == placeholders
  {
    assert forall k :: 0 <= k < |pieces| ==> Marker !in pieces[k] by {
      assert Marker !in pieces[0] && Marker !in pieces[1] && Marker !in pieces[2] && Marker !in pieces[3];
    }
    assert forall k :: 0 <= k < |placeholders| ==> Marker !in placeholders[k] by {
      assert Marker !in placeholders[0] && Marker !in placeholders[1] && Marker !in placeholders[2];
    }
    TemplateNamesOfTemplate(pieces, placeholders);
  }

  /** Of the three placeholders, the unregistered middle one is dropped. */
  lemma RegisteredPlaceholders(registered: seq<string>)
    requires registered == ["entity1", "entity2", "entity3"]
    ensures Registered(["entity1", "entity4", "entity3"], registered) == ["entity1", "entity3"]
  {
    var placeholders := ["entity1", "entity4", "entity3"];
    assert "entity4" !in registered;
    assert Registered(placeholders[3..], registered) == [];
    assert Registered(placeholders[2..], registered) == ["entity3"];
    assert Registered(placeholders[1..], registered) == ["entity3"];
    assert Registered(placeholders, registered) == [placeholders[0]] + Registered(placeholders[1..], registered);
  }

  /** A name that none of the registered names equals is not found. */
  lemma AbsentNames(entities: seq<NamedEntity>, names: seq<string>, name: string)
    requires |names| == |entities| && forall k :: 0 <= k < |entities| ==> entities[k].name == names[k]
    requires name !in names
    ensures FindEntity(entities, name) == None
  {
    assert EntityNames(entities) == names;
  }

  lemma EntityNamesOfThree(e1: NamedEntity, e2: NamedEntity, e3: NamedEntity)
    ensures EntityNames([e1, e2, e3]) == [e1.name, e2.name, e3.name]
  {
  }

  /** A manager holding three entities with distinct names, added in that order. */
  method ThreeEntities(n1: string, n2: string, n3: string) returns (m: NerManager)
    requires n1 != n2 && n1 != n3 && n2 != n3
    ensures fresh(m) && m.Valid()
    ensures EntityNames(m.namedEntities) == [n1, n2, n3]
  {
    m := new NerManager(None);
    var e1 := m.AddNamedEntity(n1);
    AbsentNames(m.namedEntities, [n1], n2);
    var e2 := m.AddNamedEntity(n2);
    AbsentNames(m.namedEntities, [n1, n2], n3);
    var e3 := m.AddNamedEntity(n3);
    assert m.namedEntities == [e1, e2, e3];
    EntityNamesOfThree(e1, e2, e3);
  }

  /** Only the placeholders naming registered entities are returned, left to right. */
  method TemplateExample() returns (names: seq<string>)
    ensures names == ["entity1", "entity3"]
  {
    var m := ThreeEntities("entity1", "entity2", "entity3");
    var pieces := ["This is ", " with ", " from ", " yeah"];
    var placeholders := ["entity1", "entity4", "entity3"];
    var utterance := Template(pieces, placeholders);
    names := m.GetEntitiesFromUtterance(utterance);
    UtterancePlaceholders(pieces, placeholders);
    RegisteredPlaceholders(EntityNames(m.namedEntities));
  }
}
