/**
 * The data the NER manager keeps: named entities, each an ordered list of
 * options, each option a map from locale to its ordered surface texts; and
 * the pure operations on that data that the manager's methods are built on.
 */
module NamedEntities {
  import opened Wrappers
  import opened Sequences

  /** An option of an entity: its name and, per locale, its surface texts in order. */
  datatype EntityOption = EntityOption(name: string, texts: map<string, seq<string>>)

  /** A named entity: its name and its options in the order they were added. */
  datatype NamedEntity = NamedEntity(name: string, options: seq<EntityOption>)

  /** A single value or a list of values: what the text operations accept for locales and texts. */
  datatype OneOrMany = One(item: string) | Many(items: seq<string>) {
    function AsList(): seq<string> {
      match this
      case One(x) => [x]
      case Many(xs) => xs
    }
  }

  function OptionNames(entity: NamedEntity): seq<string> {
    seq(|entity.options|, i requires 0 <= i < |entity.options| => entity.options[i].name)
  }

  function EntityNames(entities: seq<NamedEntity>): seq<string> {
    seq(|entities|, i requires 0 <= i < |entities| => entities[i].name)
  }

  /** The position of the (first) option called `optionName`, or -1. */
  function OptionsPositionFromEntity(entity: NamedEntity, optionName: string): (r: int)
    ensures -1 <= r < |entity.options|
    ensures r == -1 <==> forall i :: 0 <= i < |entity.options| ==> entity.options[i].name != optionName
    ensures r >= 0 ==> entity.options[r].name == optionName
    ensures r >= 0 ==> forall i :: 0 <= i < r ==> entity.options[i].name != optionName
  {
    var r := IndexOf(OptionNames(entity), optionName);
    assert r >= 0 ==> forall i :: 0 <= i < r ==> entity.options[i].name != optionName by {
      if r >= 0 {
        forall i | 0 <= i < r ensures entity.options[i].name != optionName {
          assert OptionNames(entity)[..r][i] == entity.options[i].name;
        }
      }
    }
    assert r == -1 ==> forall i :: 0 <= i < |entity.options| ==> entity.options[i].name != optionName by {
      if r == -1 {
        forall i | 0 <= i < |entity.options| ensures entity.options[i].name != optionName {
          assert OptionNames(entity)[i] == entity.options[i].name;
        }
      }
    }
    r
  }

  /** The option called `optionName`, absent when the entity has none. */
  function OptionFromEntity(entity: NamedEntity, optionName: string): (r: Option<EntityOption>)
    ensures r.None? <==> forall i :: 0 <= i < |entity.options| ==> entity.options[i].name != optionName
    ensures r.Some? ==> r.value.name == optionName && r.value in entity.options
    ensures r.Some? ==> exists p :: (0 <= p < |entity.options| && entity.options[p] == r.value &&
      forall i :: 0 <= i < p ==> entity.options[i].name != optionName)
  {
    var p := OptionsPositionFromEntity(entity, optionName);
    if p == -1 then None else Some(entity.options[p])
  }

  /** The position of the (first) entity called `name`, or -1. */
  function EntityPosition(entities: seq<NamedEntity>, name: string): (r: int)
    ensures -1 <= r < |entities|
    ensures r == -1 <==> name !in EntityNames(entities)
    ensures r >= 0 ==> entities[r].name == name
    ensures r >= 0 ==> forall i :: 0 <= i < r ==> entities[i].name != name
  {
    var r := IndexOf(EntityNames(entities), name);
    assert r >= 0 ==> forall i :: 0 <= i < r ==> entities[i].name != name by {
      if r >= 0 {
        forall i | 0 <= i < r ensures entities[i].name != name {
          assert EntityNames(entities)[..r][i] == entities[i].name;
        }
      }
    }
    r
  }

  /** The entity called `name`, absent when there is none. */
  function FindEntity(entities: seq<NamedEntity>, name: string): (r: Option<NamedEntity>)
    ensures r.None? <==> name !in EntityNames(entities)
    ensures r.Some? ==> r.value.name == name && r.value in entities
  {
    var p := EntityPosition(entities, name);
    if p == -1 then None else Some(entities[p])
  }

  /** Entity names are unique, and so are option names within each entity. */
  ghost predicate WellFormed(entities: seq<NamedEntity>) {
    && Distinct(EntityNames(entities))
    && forall i :: 0 <= i < |entities| ==> Distinct(OptionNames(entities[i]))
  }

  /** With unique names, the entity at position `k` is the one found under its name. */
  lemma FindEntityAt(entities: seq<NamedEntity>, k: nat)
    requires Distinct(EntityNames(entities)) && k < |entities|
    ensures FindEntity(entities, entities[k].name) == Some(entities[k])
  {
    assert EntityNames(entities)[k] == entities[k].name;
    IndexOfDistinct(EntityNames(entities), k);
  }

  /** With unique names, the option at position `k` is the one found under its name. */
  lemma OptionFromEntityAt(entity: NamedEntity, k: nat)
    requires Distinct(OptionNames(entity)) && k < |entity.options|
    ensures OptionFromEntity(entity, entity.options[k].name) == Some(entity.options[k])
  {
    assert OptionNames(entity)[k] == entity.options[k].name;
    IndexOfDistinct(OptionNames(entity), k);
  }

  /** The option called `optionName` of the entity called `entityName`, if both exist. */
  function FindOption(entities: seq<NamedEntity>, entityName: string, optionName: string): (r: Option<EntityOption>)
    ensures r.Some? ==> FindEntity(entities, entityName).Some? && r.value.name == optionName
    ensures r.Some? ==> r.value in FindEntity(entities, entityName).value.options
    ensures r.None? <==> (FindEntity(entities, entityName).None? ||
                          OptionFromEntity(FindEntity(entities, entityName).value, optionName).None?)
  {
    match FindEntity(entities, entityName)
    case None => None
    case Some(e) => OptionFromEntity(e, optionName)
  }

  // ---------------------------------------------------------------------------
  // Updating the registry

  /** Replaces the entity named like `e` by `e`, or appends `e` when there is none. */
  function SetEntity(entities: seq<NamedEntity>, e: NamedEntity): seq<NamedEntity> {
    var p := EntityPosition(entities, e.name);
    if p == -1 then entities + [e] else entities[p := e]
  }

  /** Replaces the option named like `o` by `o`, or appends `o` when there is none. */
  function SetOption(entity: NamedEntity, o: EntityOption): NamedEntity {
    var p := OptionsPositionFromEntity(entity, o.name);
    NamedEntity(entity.name, if p == -1 then entity.options + [o] else entity.options[p := o])
  }

  /** The entities without the one called `name`. */
  function WithoutEntity(entities: seq<NamedEntity>, name: string): seq<NamedEntity> {
    var p := EntityPosition(entities, name);
    if p == -1 then entities else entities[..p] + entities[p + 1..]
  }

  /** The entity without its option called `optionName`. */
  function WithoutOption(entity: NamedEntity, optionName: string): NamedEntity {
    var p := OptionsPositionFromEntity(entity, optionName);
    NamedEntity(entity.name, if p == -1 then entity.options else entity.options[..p] + entity.options[p + 1..])
  }

  /**
   * Setting an entity keeps names unique, makes it the one found under its
   * name, and leaves what is found under every other name as it was; a new
   * name goes at the end.
   */
  lemma SetEntityFind(entities: seq<NamedEntity>, e: NamedEntity, n: string)
    requires Distinct(EntityNames(entities))
    ensures Distinct(EntityNames(SetEntity(entities, e)))
    ensures EntityNames(SetEntity(entities, e)) ==
      if e.name in EntityNames(entities) then EntityNames(entities) else EntityNames(entities) + [e.name]
    ensures FindEntity(SetEntity(entities, e), n) == if n == e.name then Some(e) else FindEntity(entities, n)
  {
    var r := SetEntity(entities, e);
    var names := EntityNames(entities);
    var p := EntityPosition(entities, e.name);
    if p == -1 {
      assert EntityNames(r) == names + [e.name] by {
        forall k | 0 <= k < |r| ensures EntityNames(r)[k] == (names + [e.name])[k] {}
      }
    } else {
      assert EntityNames(r) == names by {
        forall k | 0 <= k < |r| ensures EntityNames(r)[k] == names[k] {}
      }
    }
    if n == e.name {
      var k := if p == -1 then |entities| else p;
      assert r[k] == e;
      FindEntityAt(r, k);
    } else if n in names {
      var q := IndexOf(names, n);
      assert entities[q].name == n && r[q] == entities[q];
      FindEntityAt(r, q);
      FindEntityAt(entities, q);
    } else {
      assert n !in EntityNames(r);
    }
  }

  /** Setting an option: the option counterpart of `SetEntityFind`. */
  lemma SetOptionFind(entity: NamedEntity, o: EntityOption, n: string)
    requires Distinct(OptionNames(entity))
    ensures SetOption(entity, o).name == entity.name
    ensures Distinct(OptionNames(SetOption(entity, o)))
    ensures OptionNames(SetOption(entity, o)) ==
      if o.name in OptionNames(entity) then OptionNames(entity) else OptionNames(entity) + [o.name]
    ensures OptionFromEntity(SetOption(entity, o), n) == if n == o.name then Some(o) else OptionFromEntity(entity, n)
  {
    var r := SetOption(entity, o);
    var names := OptionNames(entity);
    var p := OptionsPositionFromEntity(entity, o.name);
    assert p == IndexOf(names, o.name);
    if p == -1 {
      assert OptionNames(r) == names + [o.name] by {
        forall k | 0 <= k < |r.options| ensures OptionNames(r)[k] == (names + [o.name])[k] {}
      }
    } else {
      assert OptionNames(r) == names by {
        forall k | 0 <= k < |r.options| ensures OptionNames(r)[k] == names[k] {}
      }
    }
    if n == o.name {
      var k := if p == -1 then |entity.options| else p;
      assert r.options[k] == o;
      OptionFromEntityAt(r, k);
    } else if n in names {
      var q := IndexOf(names, n);
      assert entity.options[q].name == n && r.options[q] == entity.options[q];
      OptionFromEntityAt(r, q);
      OptionFromEntityAt(entity, q);
    } else {
      assert n !in OptionNames(r);
    }
  }

  lemma EntityNamesRemoveAt(entities: seq<NamedEntity>, p: nat)
    requires p < |entities|
    ensures EntityNames(entities[..p] + entities[p + 1..]) == EntityNames(entities)[..p] + EntityNames(entities)[p + 1..]
  {
    var r := entities[..p] + entities[p + 1..];
    var names := EntityNames(entities);
    forall k | 0 <= k < |r| ensures EntityNames(r)[k] == (names[..p] + names[p + 1..])[k] {
      if k < p { assert r[k] == entities[k]; } else { assert r[k] == entities[k + 1]; }
    }
  }

  lemma OptionNamesRemoveAt(entity: NamedEntity, p: nat)
    requires p < |entity.options|
    ensures OptionNames(NamedEntity(entity.name, entity.options[..p] + entity.options[p + 1..])) ==
      OptionNames(entity)[..p] + OptionNames(entity)[p + 1..]
  {
    var opts := entity.options;
    var r := NamedEntity(entity.name, opts[..p] + opts[p + 1..]);
    var names := OptionNames(entity);
    forall k | 0 <= k < |r.options| ensures OptionNames(r)[k] == (names[..p] + names[p + 1..])[k] {
      if k < p { assert r.options[k] == opts[k]; } else { assert r.options[k] == opts[k + 1]; }
    }
  }

  /** Removing an entity takes its name out of the name list, which stays duplicate-free. */
  lemma WithoutEntityNames(entities: seq<NamedEntity>, name: string)
    requires Distinct(EntityNames(entities))
    ensures EntityNames(WithoutEntity(entities, name)) == RemoveFirst(EntityNames(entities), name)
    ensures Distinct(EntityNames(WithoutEntity(entities, name)))
  {
    var names := EntityNames(entities);
    var p := EntityPosition(entities, name);
    if p != -1 {
      assert p == IndexOf(names, name) && names[p] == name;
      var r := entities[..p] + entities[p + 1..];
      assert WithoutEntity(entities, name) == r;
      EntityNamesRemoveAt(entities, p);
      assert RemoveFirst(names, name) == names[..p] + names[p + 1..];
      RemoveAtDistinct(names, p);
    }
  }

  /**
   * Removing an entity keeps the others in their order, keeps names unique,
   * and leaves it absent while every other name finds what it found before.
   */
  lemma WithoutEntityFind(entities: seq<NamedEntity>, name: string, n: string)
    requires Distinct(EntityNames(entities))
    ensures EntityNames(WithoutEntity(entities, name)) == RemoveFirst(EntityNames(entities), name)
    ensures Distinct(EntityNames(WithoutEntity(entities, name)))
    ensures FindEntity(WithoutEntity(entities, name), n) == if n == name then None else FindEntity(entities, n)
  {
    WithoutEntityNames(entities, name);
    var names := EntityNames(entities);
    var p := EntityPosition(entities, name);
    if p != -1 && n in names {
      var r := entities[..p] + entities[p + 1..];
      assert WithoutEntity(entities, name) == r;
      if n != name {
        var q := IndexOf(names, n);
        assert q != p;
        var q' := if q < p then q else q - 1;
        RemoveAtIndex(entities, p, q');
        assert r[q'] == entities[q];
        FindEntityAt(r, q');
        FindEntityAt(entities, q);
      }
    }
  }

  /** Removing an option takes its name out of the option names, which stay duplicate-free. */
  lemma WithoutOptionNames(entity: NamedEntity, optionName: string)
    requires Distinct(OptionNames(entity))
    ensures OptionNames(WithoutOption(entity, optionName)) == RemoveFirst(OptionNames(entity), optionName)
    ensures Distinct(OptionNames(WithoutOption(entity, optionName)))
  {
    var names := OptionNames(entity);
    var p := OptionsPositionFromEntity(entity, optionName);
    assert p == IndexOf(names, optionName);
    if p != -1 {
      assert names[p] == optionName;
      var r := NamedEntity(entity.name, entity.options[..p] + entity.options[p + 1..]);
      assert WithoutOption(entity, optionName) == r;
      OptionNamesRemoveAt(entity, p);
      assert RemoveFirst(names, optionName) == names[..p] + names[p + 1..];
      RemoveAtDistinct(names, p);
    }
  }

  /** Removing an option: the option counterpart of `WithoutEntityFind`. */
  lemma WithoutOptionFind(entity: NamedEntity, optionName: string, n: string)
    requires Distinct(OptionNames(entity))
    ensures WithoutOption(entity, optionName).name == entity.name
    ensures OptionNames(WithoutOption(entity, optionName)) == RemoveFirst(OptionNames(entity), optionName)
    ensures Distinct(OptionNames(WithoutOption(entity, optionName)))
    ensures OptionFromEntity(WithoutOption(entity, optionName), n) ==
      if n == optionName then None else OptionFromEntity(entity, n)
  {
    WithoutOptionNames(entity, optionName);
    if n != optionName && n in OptionNames(entity) {
      WithoutOptionKeeps(entity, optionName, n);
    }
  }

  /** Removing an option leaves what another present name finds as it was. */
  lemma WithoutOptionKeeps(entity: NamedEntity, optionName: string, n: string)
    requires Distinct(OptionNames(entity)) && n != optionName && n in OptionNames(entity)
    ensures OptionFromEntity(WithoutOption(entity, optionName), n) == OptionFromEntity(entity, n)
  {
    var opts := entity.options;
    var q := IndexOf(OptionNames(entity), n);
    assert opts[q].name == OptionNames(entity)[q] == n;
    OptionFromEntityAt(entity, q);
    var p := OptionsPositionFromEntity(entity, optionName);
    if p == -1 {
      assert WithoutOption(entity, optionName) == entity;
    } else {
      assert p != q;
      var rest := NamedEntity(entity.name, opts[..p] + opts[p + 1..]);
      assert WithoutOption(entity, optionName) == rest;
      var q' := if q < p then q else q - 1;
      RemoveAtIndex(opts, p, q');
      assert rest.options[q'] == opts[q];
      WithoutOptionNames(entity, optionName);
      OptionFromEntityAt(rest, q');
      assert OptionFromEntity(rest, n) == Some(opts[q]);
    }
  }

  /** The entity called `name`, or a new empty one when there is none. */
  function EntityOrEmpty(entities: seq<NamedEntity>, name: string): (r: NamedEntity)
    ensures r.name == name
    ensures FindEntity(entities, name).Some? ==> r == FindEntity(entities, name).value
    ensures FindEntity(entities, name).None? ==> r.options == []
  {
    FindEntity(entities, name).GetOr(NamedEntity(name, []))
  }

  /** The option called `name`, or a new one without texts when there is none. */
  function OptionOrEmpty(entity: NamedEntity, name: string): (r: EntityOption)
    ensures r.name == name
    ensures OptionFromEntity(entity, name).Some? ==> r == OptionFromEntity(entity, name).value
    ensures OptionFromEntity(entity, name).None? ==> r.texts == map[]
  {
    OptionFromEntity(entity, name).GetOr(EntityOption(name, map[]))
  }

  /** In a well-formed registry, whatever entity a name denotes has unique option names. */
  lemma EntityOrEmptyDistinct(entities: seq<NamedEntity>, name: string)
    requires WellFormed(entities)
    ensures Distinct(OptionNames(EntityOrEmpty(entities, name)))
  {
    var p := EntityPosition(entities, name);
    if p != -1 {
      assert EntityOrEmpty(entities, name) == entities[p];
    }
  }

  /** Setting an entity whose option names are unique keeps the registry well formed. */
  lemma SetEntityWellFormed(entities: seq<NamedEntity>, e: NamedEntity)
    requires WellFormed(entities) && Distinct(OptionNames(e))
    ensures WellFormed(SetEntity(entities, e))
  {
    SetEntityFind(entities, e, e.name);
    var r := SetEntity(entities, e);
    var p := EntityPosition(entities, e.name);
    forall k | 0 <= k < |r| ensures Distinct(OptionNames(r[k])) {
      if (p == -1 && k < |entities|) || (p != -1 && k != p) {
        assert r[k] == entities[k];
      } else {
        assert r[k] == e;
      }
    }
  }

  /** Removing an entity keeps the registry well formed. */
  lemma WithoutEntityWellFormed(entities: seq<NamedEntity>, name: string)
    requires WellFormed(entities)
    ensures WellFormed(WithoutEntity(entities, name))
  {
    WithoutEntityFind(entities, name, name);
    var p := EntityPosition(entities, name);
    if p != -1 {
      var r := WithoutEntity(entities, name);
      forall k | 0 <= k < |r| ensures Distinct(OptionNames(r[k])) {
        RemoveAtIndex(entities, p, k);
      }
    }
  }

  /** Setting an entity twice under the same name is setting the second one. */
  lemma SetEntityTwice(entities: seq<NamedEntity>, a: NamedEntity, b: NamedEntity)
    requires Distinct(EntityNames(entities)) && a.name == b.name
    ensures SetEntity(SetEntity(entities, a), b) == SetEntity(entities, b)
  {
    SetEntityFind(entities, a, a.name);
    var p := EntityPosition(entities, a.name);
    var once := SetEntity(entities, a);
    var k := if p == -1 then |entities| else p;
    assert once[k] == a;
    FindEntityAt(once, k);
    assert EntityPosition(once, b.name) == k;
  }

  /** Setting the entity a name already denotes changes nothing. */
  lemma SetEntitySame(entities: seq<NamedEntity>, name: string)
    requires FindEntity(entities, name).Some?
    ensures SetEntity(entities, FindEntity(entities, name).value) == entities
  {
    var p := EntityPosition(entities, name);
    assert entities[p := entities[p]] == entities;
  }

  /** Setting the option a name already denotes changes nothing. */
  lemma SetOptionSame(entity: NamedEntity, name: string)
    requires OptionFromEntity(entity, name).Some?
    ensures SetOption(entity, OptionFromEntity(entity, name).value) == entity
  {
    var p := OptionsPositionFromEntity(entity, name);
    assert entity.options[p := entity.options[p]] == entity.options;
  }

  /** Setting an option twice under the same name is setting the second one. */
  lemma SetOptionTwice(entity: NamedEntity, a: EntityOption, b: EntityOption)
    requires Distinct(OptionNames(entity)) && a.name == b.name
    ensures SetOption(SetOption(entity, a), b) == SetOption(entity, b)
  {
    SetOptionFind(entity, a, a.name);
    var p := OptionsPositionFromEntity(entity, a.name);
    var once := SetOption(entity, a);
    var k := if p == -1 then |entity.options| else p;
    assert once.options[k] == a;
    OptionFromEntityAt(once, k);
    assert OptionsPositionFromEntity(once, b.name) == k;
  }

  /** The registry after setting option `o` of the entity called `entityName` (creating the entity if needed). */
  function UpsertOption(entities: seq<NamedEntity>, entityName: string, o: EntityOption): seq<NamedEntity> {
    SetEntity(entities, SetOption(EntityOrEmpty(entities, entityName), o))
  }

  /**
   * Setting an option through the registry: it is the option found under
   * the two names afterwards, every other entity and every other option of
   * that entity is found as before, and the registry stays well formed.
   */
  lemma UpsertOptionFind(entities: seq<NamedEntity>, entityName: string, o: EntityOption)
    requires WellFormed(entities)
    ensures WellFormed(UpsertOption(entities, entityName, o))
    ensures FindOption(UpsertOption(entities, entityName, o), entityName, o.name) == Some(o)
    ensures forall n :: n != entityName ==>
      FindEntity(UpsertOption(entities, entityName, o), n) == FindEntity(entities, n)
    ensures forall n :: n != o.name ==>
      FindOption(UpsertOption(entities, entityName, o), entityName, n) == FindOption(entities, entityName, n)
  {
    var e := EntityOrEmpty(entities, entityName);
    var e' := SetOption(e, o);
    EntityOrEmptyDistinct(entities, entityName);
    SetOptionFind(e, o, o.name);
    SetEntityWellFormed(entities, e');
    SetEntityFind(entities, e', entityName);
    forall n | n != entityName
      ensures FindEntity(UpsertOption(entities, entityName, o), n) == FindEntity(entities, n)
    {
      SetEntityFind(entities, e', n);
    }
    forall n | n != o.name
      ensures FindOption(UpsertOption(entities, entityName, o), entityName, n) == FindOption(entities, entityName, n)
    {
      SetOptionFind(e, o, n);
    }
  }

  /** Setting an option twice through the registry is setting the second one. */
  lemma UpsertOptionTwice(entities: seq<NamedEntity>, entityName: string, a: EntityOption, b: EntityOption)
    requires WellFormed(entities) && a.name == b.name
    ensures UpsertOption(UpsertOption(entities, entityName, a), entityName, b) == UpsertOption(entities, entityName, b)
  {
    var e := EntityOrEmpty(entities, entityName);
    EntityOrEmptyDistinct(entities, entityName);
    SetOptionFind(e, a, a.name);
    SetEntityFind(entities, SetOption(e, a), entityName);
    SetOptionTwice(e, a, b);
    SetEntityTwice(entities, SetOption(e, a), SetOption(e, b));
  }

  /** Setting the option the two names already denote changes nothing. */
  lemma UpsertOptionSame(entities: seq<NamedEntity>, entityName: string, optionName: string)
    requires FindOption(entities, entityName, optionName).Some?
    ensures UpsertOption(entities, entityName, FindOption(entities, entityName, optionName).value) == entities
  {
    var e := FindEntity(entities, entityName).value;
    SetOptionSame(e, optionName);
    SetEntitySame(entities, entityName);
  }

  /** The registry after removing option `optionName` of the entity called `entityName`, if it exists. */
  function RemoveOption(entities: seq<NamedEntity>, entityName: string, optionName: string): seq<NamedEntity> {
    match FindEntity(entities, entityName)
    case None => entities
    case Some(e) => SetEntity(entities, WithoutOption(e, optionName))
  }

  /**
   * Removing an option through the registry: it is no longer found, and
   * every other entity and every other option is found as before.
   */
  lemma RemoveOptionFind(entities: seq<NamedEntity>, entityName: string, optionName: string)
    requires WellFormed(entities)
    ensures WellFormed(RemoveOption(entities, entityName, optionName))
    ensures FindOption(RemoveOption(entities, entityName, optionName), entityName, optionName).None?
    ensures forall n :: n != entityName ==>
      FindEntity(RemoveOption(entities, entityName, optionName), n) == FindEntity(entities, n)
    ensures forall n :: n != optionName ==>
      FindOption(RemoveOption(entities, entityName, optionName), entityName, n) == FindOption(entities, entityName, n)
  {
    if FindEntity(entities, entityName).Some? {
      var e := FindEntity(entities, entityName).value;
      var e' := WithoutOption(e, optionName);
      EntityOrEmptyDistinct(entities, entityName);
      WithoutOptionFind(e, optionName, optionName);
      SetEntityWellFormed(entities, e');
      SetEntityFind(entities, e', entityName);
      forall n | n != entityName
        ensures FindEntity(RemoveOption(entities, entityName, optionName), n) == FindEntity(entities, n)
      {
        SetEntityFind(entities, e', n);
      }
      forall n | n != optionName
        ensures FindOption(RemoveOption(entities, entityName, optionName), entityName, n) ==
                FindOption(entities, entityName, n)
      {
        WithoutOptionFind(e, optionName, n);
      }
    }
  }

  // ---------------------------------------------------------------------------
  // Surface texts per locale

  /** The texts of one locale; an absent locale has none. */
  function Bucket(texts: map<string, seq<string>>, locale: string): seq<string> {
    if locale in texts then texts[locale] else []
  }

  /** Appends `newTexts`, in order, to the list of one locale, creating the list if needed. */
  function AddTextsToLocale(texts: map<string, seq<string>>, locale: string, newTexts: seq<string>): map<string, seq<string>> {
    texts[locale := Bucket(texts, locale) + newTexts]
  }

  /** Appends every text to every listed locale, locale by locale (the cross product). */
  function AddTexts(texts: map<string, seq<string>>, locales: seq<string>, newTexts: seq<string>): map<string, seq<string>>
    decreases |locales|
  {
    if locales == [] then texts
    else AddTexts(AddTextsToLocale(texts, locales[0], newTexts), locales[1..], newTexts)
  }

  /** `s` concatenated `k` times. */
  function Repeat(s: seq<string>, k: nat): seq<string> {
    if k == 0 then [] else s + Repeat(s, k - 1)
  }

  /**
   * After adding, a locale has a list exactly when it had one or was listed,
   * and its list is the old one followed by the texts, once per time the
   * locale was listed.
   */
  lemma {:induction false} AddTextsBucket(texts: map<string, seq<string>>, locales: seq<string>, newTexts: seq<string>, l: string)
    ensures l in AddTexts(texts, locales, newTexts) <==> (l in texts || l in locales)
    ensures Bucket(AddTexts(texts, locales, newTexts), l) ==
      Bucket(texts, l) + Repeat(newTexts, Count(locales, l))
    decreases |locales|
  {
    if locales != [] {
      var x, rest := locales[0], locales[1..];
      var t1 := AddTextsToLocale(texts, x, newTexts);
      assert AddTexts(texts, locales, newTexts) == AddTexts(t1, rest, newTexts);
      AddTextsBucket(t1, rest, newTexts, l);
      var k := Count(rest, l);
      if l == x {
        assert Count(locales, l) == k + 1;
        assert Bucket(t1, l) == Bucket(texts, l) + newTexts;
        assert Bucket(texts, l) + newTexts + Repeat(newTexts, k) == Bucket(texts, l) + (newTexts + Repeat(newTexts, k));
      } else {
        assert Count(locales, l) == k;
        assert Bucket(t1, l) == Bucket(texts, l);
        assert l in t1 <==> l in texts;
      }
    }
  }

  /** With each locale listed once: every listed locale gets all texts appended, the others keep theirs. */
  lemma AddTextsDistinctLocales(texts: map<string, seq<string>>, locales: seq<string>, newTexts: seq<string>, l: string)
    requires Distinct(locales)
    ensures l in locales ==>
      (l in AddTexts(texts, locales, newTexts) &&
       AddTexts(texts, locales, newTexts)[l] == Bucket(texts, l) + newTexts)
    ensures l !in locales ==>
      ((l in AddTexts(texts, locales, newTexts) <==> l in texts) &&
       Bucket(AddTexts(texts, locales, newTexts), l) == Bucket(texts, l))
  {
    AddTextsBucket(texts, locales, newTexts, l);
    CountDistinct(locales, l);
    assert Repeat(newTexts, 1) == newTexts;
  }

  /** Removes the first occurrence of each text from one locale's list, if the locale has a list. */
  function RemoveTextsFromLocale(texts: map<string, seq<string>>, locale: string, oldTexts: seq<string>): map<string, seq<string>> {
    if locale in texts then texts[locale := RemoveEach(texts[locale], oldTexts)] else texts
  }

  /** Removes the texts from every listed locale, locale by locale. */
  function RemoveTexts(texts: map<string, seq<string>>, locales: seq<string>, oldTexts: seq<string>): (r: map<string, seq<string>>)
    ensures r.Keys == texts.Keys
    decreases |locales|
  {
    if locales == [] then texts
    else RemoveTexts(RemoveTextsFromLocale(texts, locales[0], oldTexts), locales[1..], oldTexts)
  }

  /**
   * After removing, unlisted locales keep their lists; a listed locale's list
   * has the texts removed once per time the locale was listed. Lists that
   * become empty stay present.
   */
  lemma {:induction false} RemoveTextsBucket(texts: map<string, seq<string>>, locales: seq<string>, oldTexts: seq<string>, l: string)
    requires l in texts
    ensures RemoveTexts(texts, locales, oldTexts)[l] ==
      RemoveEach(texts[l], Repeat(oldTexts, Count(locales, l)))
    decreases |locales|
  {
    if locales == [] {
    } else {
      var t1 := RemoveTextsFromLocale(texts, locales[0], oldTexts);
      RemoveTextsBucket(t1, locales[1..], oldTexts, l);
      if l == locales[0] {
        var k := Count(locales[1..], l);
        RemoveEachConcat(texts[l], oldTexts, Repeat(oldTexts, k));
      }
    }
  }

  /** What removal leaves of a list: the old list minus the removed texts, in the old order. */
  lemma RemoveTextsKeepsOrder(texts: map<string, seq<string>>, locales: seq<string>, oldTexts: seq<string>, l: string)
    requires l in texts
    ensures Subsequence(RemoveTexts(texts, locales, oldTexts)[l], texts[l])
    ensures multiset(RemoveTexts(texts, locales, oldTexts)[l]) ==
      multiset(texts[l]) - multiset(Repeat(oldTexts, Count(locales, l)))
    ensures l !in locales ==> RemoveTexts(texts, locales, oldTexts)[l] == texts[l]
  {
    RemoveTextsBucket(texts, locales, oldTexts, l);
    var removed := Repeat(oldTexts, Count(locales, l));
    RemoveEachSubsequence(texts[l], removed);
    RemoveEachMultiset(texts[l], removed);
    if l !in locales {
      CountAbsent(locales, l);
      assert removed == [];
    }
  }

  // ---------------------------------------------------------------------------
  // Template placeholders

  /** The character that opens and closes a placeholder. */
  const Marker: char := '%'

  /**
   * The placeholder names of a template, left to right: the text between
   * each opening marker and the next marker. A marker left unclosed at the
   * end is ignored.
   */
  function TemplateNames(template: string): (r: seq<string>)
    ensures forall k :: 0 <= k < |r| ==> Marker !in r[k]
    decreases |template|
  {
    var i := IndexOf(template, Marker);
    if i < 0 then []
    else
      var rest := template[i + 1..];
      var j := IndexOf(rest, Marker);
      if j < 0 then [] else [rest[..j]] + TemplateNames(rest[j + 1..])
  }

  /** The names of `names` that are registered, in their order. */
  function Registered(names: seq<string>, entityNames: seq<string>): (r: seq<string>)
    ensures forall k :: 0 <= k < |r| ==> r[k] in names && r[k] in entityNames
    ensures forall n :: n in names && n in entityNames ==> n in r
    ensures Subsequence(r, names)
    ensures forall n :: Count(r, n) == if n in entityNames then Count(names, n) else 0
  {
    if names == [] then []
    else if names[0] in entityNames then
      var rest := Registered(names[1..], entityNames);
      assert ([names[0]] + rest)[1..] == rest;
      [names[0]] + rest
    else
      Registered(names[1..], entityNames)
  }

  /**
   * A template built from literal pieces and placeholder names:
   * `pieces[0] %names[0]% pieces[1] ... %names[n-1]% pieces[n]`.
   */
  function Template(pieces: seq<string>, names: seq<string>): string
    requires |pieces| == |names| + 1
    decreases |names|
  {
    if names == [] then pieces[0]
    else pieces[0] + [Marker] + names[0] + [Marker] + Template(pieces[1..], names[1..])
  }

  /** Scanning a template recovers exactly the placeholder names it was built from. */
  lemma {:induction false} TemplateNamesOfTemplate(pieces: seq<string>, names: seq<string>)
    requires |pieces| == |names| + 1
    requires forall k :: 0 <= k < |pieces| ==> Marker !in pieces[k]
    requires forall k :: 0 <= k < |names| ==> Marker !in names[k]
    ensures TemplateNames(Template(pieces, names)) == names
    decreases |names|
  {
    if names != [] {
      var tail := Template(pieces[1..], names[1..]);
      calc {
        TemplateNames(Template(pieces, names));
        TemplateNames(pieces[0] + [Marker] + names[0] + [Marker] + tail);
        { TemplateNamesStep(pieces[0], names[0], tail); }
        [names[0]] + TemplateNames(tail);
        { TemplateNamesOfTemplate(pieces[1..], names[1..]); }
        [names[0]] + names[1..];
        names;
      }
    }
  }

  /** One placeholder between marker-free text is scanned as that name, and scanning goes on after it. */
  lemma TemplateNamesStep(p: string, n: string, tail: string)
    requires Marker !in p && Marker !in n
    ensures TemplateNames(p + [Marker] + n + [Marker] + tail) == [n] + TemplateNames(tail)
  {
    var t := p + [Marker] + n + [Marker] + tail;
    var after := n + ([Marker] + tail);
    assert t == p + ([Marker] + after);
    IndexOfPrefixFree(p, [Marker] + after);
    assert t[|p| + 1..] == after;
    IndexOfPrefixFree(n, [Marker] + tail);
    assert after[..|n|] == n;
    assert after[|n| + 1..] == tail;
  }

  /** The first marker after a marker-free prefix is the one that starts the rest. */
  lemma IndexOfPrefixFree(p: string, rest: string)
    requires Marker !in p && rest != [] && rest[0] == Marker
    ensures IndexOf(p + rest, Marker) == |p|
  {
    assert (p + rest)[..|p|] == p;
    assert (p + rest)[|p|] == Marker;
  }
}
