/**
 * The NER manager: a registry of named entities updated in place, the
 * template scanner over it and the fuzzy entity finder.
 */
module Ner {
  import opened Wrappers
  import opened Sequences
  import opened NamedEntities
  import opened EntityExtraction

  /** The accuracy a match must exceed when the manager is built without a threshold. */
  const DefaultThreshold: real := 0.5

  /** Appends every text, in order, to the list of every locale, creating missing lists. */
  method AppendTexts(texts: map<string, seq<string>>, locales: seq<string>, newTexts: seq<string>)
    returns (t: map<string, seq<string>>)
    ensures t == AddTexts(texts, locales, newTexts)
  {
    t := texts;
    var i := 0;
    assert locales[i..] == locales;
    while i < |locales|
      invariant 0 <= i <= |locales|
      invariant AddTexts(t, locales[i..], newTexts) == AddTexts(texts, locales, newTexts)
    {
      var locale := locales[i];
      ghost var before := t;
      // a locale without a list starts from an empty one
      var current := if locale in t then t[locale] else [];
      var bucket := AppendToBucket(current, newTexts);
      t := t[locale := bucket];
      assert t == AddTextsToLocale(before, locale, newTexts);
      assert locales[i..][1..] == locales[i + 1..];
      i := i + 1;
    }
  }

  /** Appends the new texts, in order, to one locale's list. */
  method AppendToBucket(bucket: seq<string>, newTexts: seq<string>) returns (b: seq<string>)
    ensures b == bucket + newTexts
  {
    b := bucket;
    var j := 0;
    while j < |newTexts|
      invariant 0 <= j <= |newTexts|
      invariant b == bucket + newTexts[..j]
    {
      assert newTexts[..j + 1] == newTexts[..j] + [newTexts[j]];
      b := b + [newTexts[j]];
      j := j + 1;
    }
    assert newTexts[..j] == newTexts;
  }

  /** Removes the first occurrence of every text from the list of every locale that has one. */
  method DeleteTexts(texts: map<string, seq<string>>, locales: seq<string>, oldTexts: seq<string>)
    returns (t: map<string, seq<string>>)
    ensures t == RemoveTexts(texts, locales, oldTexts)
  {
    t := texts;
    var i := 0;
    assert locales[i..] == locales;
    while i < |locales|
      invariant 0 <= i <= |locales|
      invariant RemoveTexts(t, locales[i..], oldTexts) == RemoveTexts(texts, locales, oldTexts)
    {
      var locale := locales[i];
      ghost var before := t;
      if locale in t {
        var bucket := DeleteFromBucket(t[locale], oldTexts);
        t := t[locale := bucket];
      }
      assert t == RemoveTextsFromLocale(before, locale, oldTexts);
      assert locales[i..][1..] == locales[i + 1..];
      i := i + 1;
    }
  }

  /** Removes from one locale's list the first occurrence of each old text, in turn. */
  method DeleteFromBucket(bucket: seq<string>, oldTexts: seq<string>) returns (b: seq<string>)
    ensures b == RemoveEach(bucket, oldTexts)
  {
    b := bucket;
    var j := 0;
    assert oldTexts[j..] == oldTexts;
    while j < |oldTexts|
      invariant 0 <= j <= |oldTexts|
      invariant RemoveEach(b, oldTexts[j..]) == RemoveEach(bucket, oldTexts)
    {
      var x := oldTexts[j];
      ghost var before := b;
      var index := IndexOf(b, x);
      if index != -1 {
        b := b[..index] + b[index + 1..];
      }
      assert b == RemoveFirst(before, x);
      assert oldTexts[j..][1..] == oldTexts[j + 1..];
      j := j + 1;
    }
  }

  /** In a well-formed registry, a surface text of some entity and option is one found under their names. */
  lemma SurfaceTextRegistered(entities: seq<NamedEntity>, entity: string, option: string, locale: string, text: string)
    requires WellFormed(entities) && IsSurfaceText(entities, entity, option, locale, text)
    ensures FindOption(entities, entity, option).Some?
    ensures text in Bucket(FindOption(entities, entity, option).value.texts, locale)
  {
    var i, j :| 0 <= i < |entities| && 0 <= j < |entities[i].options| &&
      entities[i].name == entity && entities[i].options[j].name == option &&
      text in Bucket(entities[i].options[j].texts, locale);
    FindEntityAt(entities, i);
    OptionFromEntityAt(entities[i], j);
  }

  /** A qualifying match of a text found under an entity and option is reported or overlaps a reported one. */
  lemma RegisteredTextCovered(entities: seq<NamedEntity>, threshold: real, utterance: string, locale: string,
                              entity: string, option: string, text: string)
    requires FindOption(entities, entity, option).Some?
    requires text in Bucket(FindOption(entities, entity, option).value.texts, locale)
    requires MatchText(utterance, Words(utterance), entity, option, text, threshold).Some?
    ensures var m := MatchText(utterance, Words(utterance), entity, option, text, threshold).value;
      var r := EntityExtraction.FindEntities(entities, threshold, utterance, locale);
      m in r || exists o :: o in r && Overlap(m, o) && !Precedes(m, o)
  {
    var i := EntityPosition(entities, entity);
    var j := OptionsPositionFromEntity(entities[i], option);
    assert entities[i].options[j] == FindOption(entities, entity, option).value;
  }

  /** Every occurrence found comes from a text registered under its entity, option and locale. */
  lemma FoundOccurrencesRegistered(entities: seq<NamedEntity>, threshold: real, utterance: string, locale: string)
    requires WellFormed(entities)
    ensures forall o :: o in EntityExtraction.FindEntities(entities, threshold, utterance, locale) ==>
      FindOption(entities, o.entity, o.option).Some? &&
      o.sourceText in Bucket(FindOption(entities, o.entity, o.option).value.texts, locale)
  {
    forall o | o in EntityExtraction.FindEntities(entities, threshold, utterance, locale)
      ensures FindOption(entities, o.entity, o.option).Some? &&
              o.sourceText in Bucket(FindOption(entities, o.entity, o.option).value.texts, locale)
    {
      SurfaceTextRegistered(entities, o.entity, o.option, locale, o.sourceText);
    }
  }

  /** Every qualifying match of a registered text is found or overlaps an occurrence found. */
  lemma RegisteredMatchesCovered(entities: seq<NamedEntity>, threshold: real, utterance: string, locale: string)
    ensures forall en, on, t :: (FindOption(entities, en, on).Some? &&
      t in Bucket(FindOption(entities, en, on).value.texts, locale) &&
      MatchText(utterance, Words(utterance), en, on, t, threshold).Some?) ==>
      var m := MatchText(utterance, Words(utterance), en, on, t, threshold).value;
      var r := EntityExtraction.FindEntities(entities, threshold, utterance, locale);
      m in r || exists o :: o in r && Overlap(m, o) && !Precedes(m, o)
  {
    forall en, on, t | FindOption(entities, en, on).Some? &&
      t in Bucket(FindOption(entities, en, on).value.texts, locale) &&
      MatchText(utterance, Words(utterance), en, on, t, threshold).Some?
      ensures var m := MatchText(utterance, Words(utterance), en, on, t, threshold).value;
        var r := EntityExtraction.FindEntities(entities, threshold, utterance, locale);
        m in r || exists o :: o in r && Overlap(m, o) && !Precedes(m, o)
    {
      RegisteredTextCovered(entities, threshold, utterance, locale, en, on, t);
    }
  }

  class NerManager {
    /** A match is reported only when its accuracy is above this. */
    var threshold: real
    /** The registered entities, in the order they were first added. */
    var namedEntities: seq<NamedEntity>

    /** Entity names are unique, and option names are unique within an entity. */
    ghost predicate Valid()
      reads this
    {
      WellFormed(namedEntities)
    }

    /** The entity registered under `name`. */
    function Lookup(name: string): Option<NamedEntity>
      reads this
    {
      FindEntity(namedEntities, name)
    }

    /** The option `optionName` of the entity registered under `entityName`. */
    function LookupOption(entityName: string, optionName: string): Option<EntityOption>
      reads this
    {
      FindOption(namedEntities, entityName, optionName)
    }

    /** A manager with no entities; the threshold is the given one or the default. */
    constructor (threshold: Option<real>)
      ensures Valid()
      ensures this.threshold == threshold.GetOr(DefaultThreshold)
      ensures namedEntities == []
    {
      this.threshold := threshold.GetOr(DefaultThreshold);
      namedEntities := [];
    }

    /**
     * Returns the entity called `name`, first registering it with no options
     * if it is new. Registering twice gives the same entity and changes nothing.
     */
    method AddNamedEntity(name: string) returns (e: NamedEntity)
      requires Valid()
      modifies this
      ensures Valid() && threshold == old(threshold)
      ensures e == EntityOrEmpty(old(namedEntities), name)
      ensures namedEntities == SetEntity(old(namedEntities), e)
      ensures old(Lookup(name)).Some? ==> namedEntities == old(namedEntities)
      ensures old(Lookup(name)).None? ==> e == NamedEntity(name, []) && namedEntities == old(namedEntities) + [e]
      ensures Lookup(name) == Some(e)
      ensures forall n :: n != name ==> Lookup(n) == old(Lookup(n))
    {
      ghost var before := namedEntities;
      var found := FindEntity(namedEntities, name);
      if found.Some? {
        e := found.value;
        SetEntitySame(namedEntities, name);
      } else {
        e := NamedEntity(name, []);
        SetEntityWellFormed(namedEntities, e);
        namedEntities := SetEntity(namedEntities, e);
      }
      SetEntityFind(before, e, name);
      forall n | n != name ensures FindEntity(namedEntities, n) == FindEntity(before, n) {
        SetEntityFind(before, e, n);
      }
    }

    /**
     * The entity called `name`; absent when there is none, unless `force`,
     * in which case it is registered as `AddNamedEntity` does.
     */
    method GetNamedEntity(name: string, force: bool) returns (r: Option<NamedEntity>)
      requires Valid()
      modifies this
      ensures Valid() && threshold == old(threshold)
      ensures !force ==> r == old(Lookup(name)) && namedEntities == old(namedEntities)
      ensures force ==> r == Some(EntityOrEmpty(old(namedEntities), name)) &&
                        namedEntities == SetEntity(old(namedEntities), r.value)
      ensures force ==> Lookup(name) == r
      ensures forall n :: n != name ==> Lookup(n) == old(Lookup(n))
    {
      if force {
        var e := AddNamedEntity(name);
        r := Some(e);
      } else {
        r := Lookup(name);
      }
    }

    /** Unregisters the entity called `name`; the others keep their order. */
    method RemoveNamedEntity(name: string)
      requires Valid()
      modifies this
      ensures Valid() && threshold == old(threshold)
      ensures namedEntities == WithoutEntity(old(namedEntities), name)
      ensures EntityNames(namedEntities) == RemoveFirst(old(EntityNames(namedEntities)), name)
      ensures Lookup(name).None?
      ensures forall n :: n != name ==> Lookup(n) == old(Lookup(n))
    {
      ghost var before := namedEntities;
      WithoutEntityWellFormed(namedEntities, name);
      WithoutEntityFind(namedEntities, name, name);
      namedEntities := WithoutEntity(namedEntities, name);
      forall n | n != name ensures FindEntity(namedEntities, n) == FindEntity(before, n) {
        WithoutEntityFind(before, name, n);
      }
    }

    /**
     * Returns the option `optionName` of entity `entityName`, first creating
     * the entity if needed and appending the option, with no texts, if it is new.
     */
    method AddNamedEntityOption(entityName: string, optionName: string) returns (o: EntityOption)
      requires Valid()
      modifies this
      ensures Valid() && threshold == old(threshold)
      ensures o == OptionOrEmpty(EntityOrEmpty(old(namedEntities), entityName), optionName)
      ensures old(LookupOption(entityName, optionName)).None? ==> o == EntityOption(optionName, map[])
      ensures namedEntities == UpsertOption(old(namedEntities), entityName, o)
      ensures LookupOption(entityName, optionName) == Some(o)
      ensures forall n :: n != entityName ==> Lookup(n) == old(Lookup(n))
      ensures forall n :: n != optionName ==> LookupOption(entityName, n) == old(LookupOption(entityName, n))
    {
      ghost var before := namedEntities;
      var entity := GetNamedEntity(entityName, true);
      var found := OptionFromEntity(entity.value, optionName);
      if found.Some? {
        o := found.value;
        SetOptionSame(entity.value, optionName);
        SetEntitySame(before, entityName);
      } else {
        o := EntityOption(optionName, map[]);
        namedEntities := SetEntity(namedEntities, SetOption(entity.value, o));
        EntityOrEmptyDistinct(before, entityName);
        SetEntityTwice(before, entity.value, SetOption(entity.value, o));
      }
      UpsertOptionFind(before, entityName, o);
    }

    /** Removes option `optionName` from entity `entityName`; nothing happens when either is missing. */
    method RemoveNamedEntityOption(entityName: string, optionName: string)
      requires Valid()
      modifies this
      ensures Valid() && threshold == old(threshold)
      ensures namedEntities == RemoveOption(old(namedEntities), entityName, optionName)
      ensures LookupOption(entityName, optionName).None?
      ensures forall n :: n != entityName ==> Lookup(n) == old(Lookup(n))
      ensures forall n :: n != optionName ==> LookupOption(entityName, n) == old(LookupOption(entityName, n))
    {
      RemoveOptionFind(namedEntities, entityName, optionName);
      var entity := Lookup(entityName);
      if entity.Some? {
        namedEntities := SetEntity(namedEntities, WithoutOption(entity.value, optionName));
      }
    }

    /**
     * The option `optionName` of entity `entityName`; absent when either is
     * missing, unless `force`, in which case both are created as
     * `AddNamedEntityOption` does.
     */
    method GetNamedEntityOption(entityName: string, optionName: string, force: bool) returns (r: Option<EntityOption>)
      requires Valid()
      modifies this
      ensures Valid() && threshold == old(threshold)
      ensures !force ==> r == old(LookupOption(entityName, optionName)) && namedEntities == old(namedEntities)
      ensures force ==> r == Some(OptionOrEmpty(EntityOrEmpty(old(namedEntities), entityName), optionName)) &&
                        namedEntities == UpsertOption(old(namedEntities), entityName, r.value)
      ensures force ==> LookupOption(entityName, optionName) == r
      ensures forall n :: n != entityName ==> Lookup(n) == old(Lookup(n))
      ensures forall n :: n != optionName ==> LookupOption(entityName, n) == old(LookupOption(entityName, n))
    {
      if force {
        var o := AddNamedEntityOption(entityName, optionName);
        r := Some(o);
      } else {
        r := LookupOption(entityName, optionName);
      }
    }

    /**
     * Appends every text, in order, to the list of every locale of option
     * `optionName` of entity `entityName`, creating the entity, the option
     * and the lists as needed.
     */
    method AddNamedEntityText(entityName: string, optionName: string, locales: OneOrMany, texts: OneOrMany)
      requires Valid()
      modifies this
      ensures Valid() && threshold == old(threshold)
      ensures namedEntities == UpsertOption(old(namedEntities), entityName,
        EntityOption(optionName, AddTexts(OptionOrEmpty(EntityOrEmpty(old(namedEntities), entityName), optionName).texts,
                                          locales.AsList(), texts.AsList())))
      ensures LookupOption(entityName, optionName) == Some(EntityOption(optionName,
        AddTexts(OptionOrEmpty(EntityOrEmpty(old(namedEntities), entityName), optionName).texts,
                 locales.AsList(), texts.AsList())))
      ensures forall n :: n != entityName ==> Lookup(n) == old(Lookup(n))
      ensures forall n :: n != optionName ==> LookupOption(entityName, n) == old(LookupOption(entityName, n))
    {
      ghost var before := namedEntities;
      var option := AddNamedEntityOption(entityName, optionName);
      ghost var middle := namedEntities;
      var t := AppendTexts(option.texts, locales.AsList(), texts.AsList());
      var updated := EntityOption(optionName, t);
      var entity := Lookup(entityName);
      UpsertOptionFind(middle, entityName, updated);
      UpsertOptionTwice(before, entityName, option, updated);
      UpsertOptionFind(before, entityName, updated);
      namedEntities := SetEntity(namedEntities, SetOption(entity.value, updated));
    }

    /**
     * Removes the first occurrence of each text, in order, from the list of
     * each locale of option `optionName` of entity `entityName`. Missing
     * entities, options, locales and texts are skipped; a list that becomes
     * empty stays.
     */
    method RemoveNamedEntityText(entityName: string, optionName: string, locales: OneOrMany, texts: OneOrMany)
      requires Valid()
      modifies this
      ensures Valid() && threshold == old(threshold)
      ensures old(LookupOption(entityName, optionName)).None? ==> namedEntities == old(namedEntities)
      ensures old(LookupOption(entityName, optionName)).Some? ==>
        namedEntities == UpsertOption(old(namedEntities), entityName, EntityOption(optionName,
          RemoveTexts(old(LookupOption(entityName, optionName)).value.texts, locales.AsList(), texts.AsList())))
      ensures LookupOption(entityName, optionName).Some? <==> old(LookupOption(entityName, optionName)).Some?
      ensures LookupOption(entityName, optionName).Some? ==>
        LookupOption(entityName, optionName).value.texts ==
        RemoveTexts(old(LookupOption(entityName, optionName)).value.texts, locales.AsList(), texts.AsList())
      ensures forall n :: n != entityName ==> Lookup(n) == old(Lookup(n))
      ensures forall n :: n != optionName ==> LookupOption(entityName, n) == old(LookupOption(entityName, n))
    {
      ghost var before := namedEntities;
      var found := GetNamedEntityOption(entityName, optionName, false);
      if found.Some? {
        var option := found.value;
        var t := DeleteTexts(option.texts, locales.AsList(), texts.AsList());
        var updated := EntityOption(optionName, t);
        var entity := Lookup(entityName);
        UpsertOptionFind(before, entityName, updated);
        namedEntities := SetEntity(namedEntities, SetOption(entity.value, updated));
      }
    }
  
    /** The `%name%` placeholders of `utterance`, left to right, that name registered entities. */
    function GetEntitiesFromUtterance(utterance: string): (r: seq<string>)
      reads this
      ensures forall k :: 0 <= k < |r| ==> r[k] in TemplateNames(utterance) && Lookup(r[k]).Some?
      ensures forall n :: n in TemplateNames(utterance) && Lookup(n).Some? ==> n in r
      ensures Subsequence(r, TemplateNames(utterance))
      ensures forall n :: Count(r, n) == if Lookup(n).Some? then Count(TemplateNames(utterance), n) else 0
    {
      Registered(TemplateNames(utterance), EntityNames(namedEntities))
    }

    /**
     * The registered surface texts of `locale` found in `utterance`, in
     * ascending start order and not overlapping: each is a qualifying match
     * of a text of the option it names, and every qualifying match of a
     * registered text is reported or overlaps one that is.
     */
    function FindEntities(utterance: string, locale: string): (r: seq<EntityOccurrence>)
      reads this
      requires Valid()
      ensures Chain(r)
      ensures forall o :: o in r ==> (ValidOccurrence(utterance, threshold, o) &&
        LookupOption(o.entity, o.option).Some? &&
        o.sourceText in Bucket(LookupOption(o.entity, o.option).value.texts, locale))
      ensures OwnMatches(utterance, Words(utterance), threshold, r)
      ensures forall en, on, t :: (LookupOption(en, on).Some? && t in Bucket(LookupOption(en, on).value.texts, locale) &&
        MatchText(utterance, Words(utterance), en, on, t, threshold).Some?) ==>
        var m := MatchText(utterance, Words(utterance), en, on, t, threshold).value;
        m in r || exists o :: o in r && Overlap(m, o) && !Precedes(m, o)
      ensures namedEntities == [] ==> r == []
    {
      var r := EntityExtraction.FindEntities(namedEntities, threshold, utterance, locale);
      FoundOccurrencesRegistered(namedEntities, threshold, utterance, locale);
      RegisteredMatchesCovered(namedEntities, threshold, utterance, locale);
      r
    }
  }
}
