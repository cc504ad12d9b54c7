/** The behaviour the catalogue test suite asserts, replayed against the
    model: each method below follows one test and proves its assertions from
    the contracts of `Entities` and `WorkingSet` alone. */
module Scenarios {
  import opened Wrappers
  import opened Errors
  import opened Attributes
  import opened Entities
  import opened Membership
  import opened WorkingSet

  /** The test fixture: three events by the same author, then `save()`. */
  method SetUp() returns (s: Session, e0: nat, e1: nat, e2: nat)
    ensures fresh(s) && s.Valid()
    ensures s.HasEvent(e0) && s.HasEvent(e1) && s.HasEvent(e2)
    ensures e0 != e1 && e1 != e2 && e0 != e2
    ensures s.current.catalogues == [] && s.baseline == s.current
  {
    s := new Session();
    e0 := AddPlainEvent(s, 1);
    e1 := AddPlainEvent(s, 2);
    e2 := AddPlainEvent(s, 3);
    s.Save();
  }

  /** `Event(0, stop, "Patrick")` with no attributes: it always succeeds and
      takes the next identity, so successive calls get distinct ones. */
  method AddPlainEvent(s: Session, stop: Timestamp) returns (e: nat)
    requires s.Valid()
    modifies s
    ensures s.Valid() && s.current.catalogues == old(s.current.catalogues)
    ensures s.HasEvent(e) && e == old(s.nextId) && s.nextId == e + 1
    ensures forall d :: old(s.HasEvent(d)) ==> s.HasEvent(d)
  {
    assert MakeEvent(0, stop, "Patrick", []).Success?;
    var r := s.NewEvent(0, stop, "Patrick", []);
    e := r.value;
  }

  /** `Catalogue(name, "Patrick")` with no attributes and no events, as the
      tests write it: it always succeeds and appends one empty catalogue. */
  method CreateCatalogue(s: Session, name: string) returns (c: nat)
    requires s.Valid() && name != ""
    modifies s
    ensures s.Valid() && s.baseline == old(s.baseline) && s.current.events == old(s.current.events)
    ensures !old(s.HasCatalogue(c)) && s.HasCatalogue(c) && Members(s.current, c) == []
    ensures forall d :: old(s.HasCatalogue(d)) ==> s.HasCatalogue(d) && Members(s.current, d) == old(Members(s.current, d))
    ensures s.current.catalogues
         == old(s.current.catalogues) + [CatalogueRecord(c, Catalogue(name, "Patrick", None, []), [])]
  {
    var r := s.NewCatalogue(name, "Patrick", None, [], []);
    c := r.value;
  }

  /** `c.add_events(e)` for one event, as the tests write it. */
  method AddEvent(s: Session, c: nat, e: nat) returns (r: Outcome<Error>)
    requires s.Valid() && s.HasCatalogue(c) && s.HasEvent(e)
    modifies s
    ensures s.Valid() && s.baseline == old(s.baseline) && s.current.events == old(s.current.events)
    ensures CatalogueIds(s.current.catalogues) == old(CatalogueIds(s.current.catalogues))
    ensures e in old(Members(s.current, c)) ==> r == Fail(DuplicateMembership(e)) && s.current == old(s.current)
    ensures e !in old(Members(s.current, c)) ==>
      r == Pass && s.HasCatalogue(c) && Members(s.current, c) == old(Members(s.current, c)) + [e]
    ensures forall d :: old(s.HasCatalogue(d)) && d != c ==>
      s.HasCatalogue(d) && Members(s.current, d) == old(Members(s.current, d))
  {
    r := s.AddEvents(c, [e]);
  }

  /** Accepted constructions: an empty author, and attribute names with
      trailing or inner underscores. */
  lemma ConstructorAccepts()
    ensures MakeCatalogue("Catalogue Name", "", None, []).Success?
    ensures MakeCatalogue("Catalogue Name", "Patrick", None, [("field_", IntValue(2))]).Success?
    ensures MakeCatalogue("Catalogue Name", "Patrick", None, [("field_with_underscores", IntValue(2))]).Success?
  {
    assert ValidName("field_", CatalogueCoreFields);
    assert ValidName("field_with_underscores", CatalogueCoreFields);
  }

  /** A single attribute `field` of each kind (int, float, string, bool,
      timestamp) is accepted and reads back unchanged. */
  lemma ConstructorValueKinds(v: Value)
    ensures var r := MakeCatalogue("Catalogue Name", "Patrick", None, [("field", v)]);
      && r.Success?
      && Get(r.value.attributes, "field") == Some(v)
  {
    assert ValidName("field", CatalogueCoreFields);
  }

  /** The attributes of `test_constructor_with_dynamic_attribute_manual_access`;
      `now` is the text of the timestamp taken there. */
  function ManualAccessAttrs(now: string): Attrs
  {
    [("field_int", IntValue(100)), ("field_float", FloatValue("1.234")),
     ("field_str", TextValue("string-test")), ("field_bool", BoolValue(true)),
     ("field_dt", TimeValue(now))]
  }

  /** Every attribute given to the constructor reads back by name, and the
      core fields are as given. */
  lemma ConstructorManualAccess(now: string)
    ensures DistinctKeys(ManualAccessAttrs(now))
    ensures var r := MakeCatalogue("Catalogue Name", "Patrick", None, ManualAccessAttrs(now));
      && r.Success?
      && r.value.name == "Catalogue Name" && r.value.author == "Patrick"
      && Get(r.value.attributes, "field_int") == Some(IntValue(100))
      && Get(r.value.attributes, "field_float") == Some(FloatValue("1.234"))
      && Get(r.value.attributes, "field_str") == Some(TextValue("string-test"))
      && Get(r.value.attributes, "field_bool") == Some(BoolValue(true))
      && Get(r.value.attributes, "field_dt") == Some(TimeValue(now))
  {
    var attrs := ManualAccessAttrs(now);
    ManualAccessNames(now);
    var c := MakeCatalogue("Catalogue Name", "Patrick", None, attrs).value;
    assert attrs[0].0 == "field_int" && attrs[1].0 == "field_float" && attrs[2].0 == "field_str";
    assert attrs[3].0 == "field_bool" && attrs[4].0 == "field_dt";
  }

  /** The five names of that test are distinct and accepted. */
  lemma ManualAccessNames(now: string)
    ensures DistinctKeys(ManualAccessAttrs(now))
    ensures forall i :: 0 <= i < 5 ==> ValidName(ManualAccessAttrs(now)[i].0, CatalogueCoreFields)
  {
    var attrs := ManualAccessAttrs(now);
    // The five names differ at index 6 (`i`, `f`, `s`, `b`, `d`), so they are distinct.
    var tags := "ifsbd";
    forall i | 0 <= i < 5 ensures |attrs[i].0| > 6 && attrs[i].0[6] == tags[i] {
    }
    ManualAccessValid(now);
  }

  lemma ManualAccessValid(now: string)
    ensures forall i :: 0 <= i < 5 ==> ValidName(ManualAccessAttrs(now)[i].0, CatalogueCoreFields)
  {
    assert ValidName("field_int", CatalogueCoreFields);
    assert ValidName("field_float", CatalogueCoreFields);
    assert ValidName("field_str", CatalogueCoreFields);
    assert ValidName("field_bool", CatalogueCoreFields);
    assert ValidName("field_dt", CatalogueCoreFields);
  }

  /** Names differing only in case are two attributes, and each reads
      back its own value. */
  lemma ConstructorCaseSensitive()
    ensures var r := MakeCatalogue("Catalogue Name", "Patrick", None, [("field", IntValue(2)), ("Field", IntValue(3))]);
      && r.Success?
      && Get(r.value.attributes, "field") == Some(IntValue(2))
      && Get(r.value.attributes, "Field") == Some(IntValue(3))
  {
    assert ValidName("field", CatalogueCoreFields);
    assert ValidName("Field", CatalogueCoreFields);
    assert "field" != "Field" by { assert "field"[0] != "Field"[0]; }
  }

  /** The text of the catalogue built with `field=2, Field=3` is the
      pattern the test builds: the core fields, then `k=v` pairs joined by
      `, `. */
  lemma TextOfTwoAttributes()
    ensures var r := MakeCatalogue("Catalogue Name", "Patrick", None, [("field", IntValue(2)), ("Field", IntValue(3))]);
      && r.Success?
      && CatalogueText(r.value)
         == "Catalogue(name=" + "Catalogue Name" + ", author=" + "Patrick"
            + ", predicate=None) attributes(" + "field=2, Field=3" + ")"
  {
    var attrs := [("field", IntValue(2)), ("Field", IntValue(3))];
    ConstructorCaseSensitive();
    ConstructedText("Catalogue Name", "Patrick", attrs);
    TwoAttributesText();
  }

  lemma TwoAttributesText()
    ensures AttrsText([("field", IntValue(2)), ("Field", IntValue(3))]) == "field=2, Field=3"
  {
    var attrs := [("field", IntValue(2)), ("Field", IntValue(3))];
    assert NatText(2) == "2" && NatText(3) == "3";
    assert EntryText(attrs[0]) == "field=2";
    assert EntryText(attrs[1]) == "Field=3";
    assert attrs[1..] == [("Field", IntValue(3))];
  }

  /** The attributes of the last accepted combination: one of each kind;
      `now` is the text of the timestamp taken there. */
  function FiveKindsAttrs(now: string): Attrs
  {
    [("field", IntValue(2)), ("field2", FloatValue("3.14")), ("field3", TextValue("str")),
     ("field4", BoolValue(true)), ("field5", TimeValue(now))]
  }

  /** The catalogue built with one attribute of each kind prints every pair
      as `k=v`, in the order given, inside the test's pattern. */
  lemma TextOfFiveKinds(now: string)
    ensures DistinctKeys(FiveKindsAttrs(now))
    ensures var r := MakeCatalogue("Catalogue Name", "Patrick", None, FiveKindsAttrs(now));
      && r.Success?
      && CatalogueText(r.value)
         == "Catalogue(name=" + "Catalogue Name" + ", author=" + "Patrick"
            + ", predicate=None) attributes(" + FiveKindsText(now) + ")"
  {
    FiveKindsNames(now);
    ConstructedText("Catalogue Name", "Patrick", FiveKindsAttrs(now));
    FiveKindsAttrsText(now);
  }

  /** The `attr_repr` the test builds for that combination: each `k=v`
      joined by `, `. */
  function FiveKindsText(now: string): string
  {
    "field=2" + ", " + ("field2=3.14" + ", " + ("field3=str" + ", " + ("field4=True" + ", " + ("field5=" + now))))
  }

  lemma FiveKindsNames(now: string)
    ensures DistinctKeys(FiveKindsAttrs(now))
    ensures forall i :: 0 <= i < 5 ==> ValidName(FiveKindsAttrs(now)[i].0, CatalogueCoreFields)
  {
    var attrs := FiveKindsAttrs(now);
    assert |attrs[0].0| == 5;
    // `field` is the only five-letter name; the others differ at index 5.
    var tags := "2345";
    forall i | 1 <= i < 5 ensures |attrs[i].0| == 6 && attrs[i].0[5] == tags[i - 1] {
    }
    assert ValidName("field", CatalogueCoreFields);
    assert ValidName("field2", CatalogueCoreFields);
    assert ValidName("field3", CatalogueCoreFields);
    assert ValidName("field4", CatalogueCoreFields);
    assert ValidName("field5", CatalogueCoreFields);
  }

  lemma FiveKindsAttrsText(now: string)
    ensures AttrsText(FiveKindsAttrs(now)) == FiveKindsText(now)
  {
    var attrs := FiveKindsAttrs(now);
    FiveKindsEntries(now);
    ConsText(attrs[3], attrs[4..]);
    assert attrs[3..] == [attrs[3]] + attrs[4..];
    ConsText(attrs[2], attrs[3..]);
    assert attrs[2..] == [attrs[2]] + attrs[3..];
    ConsText(attrs[1], attrs[2..]);
    assert attrs[1..] == [attrs[1]] + attrs[2..];
    ConsText(attrs[0], attrs[1..]);
    assert attrs == [attrs[0]] + attrs[1..];
    var t4 := "field5=" + now;
    var t3 := "field4=True" + ", " + t4;
    var t2 := "field3=str" + ", " + t3;
    var t1 := "field2=3.14" + ", " + t2;
    assert AttrsText(attrs) == "field=2" + ", " + t1;

  }

  /** The text of each entry of that combination on its own. */
  lemma FiveKindsEntries(now: string)
    ensures var attrs := FiveKindsAttrs(now);
      && EntryText(attrs[0]) == "field=2"
      && EntryText(attrs[1]) == "field2=3.14"
      && EntryText(attrs[2]) == "field3=str"
      && EntryText(attrs[3]) == "field4=True"
      && AttrsText(attrs[4..]) == "field5=" + now
  {
    assert NatText(2) == "2";
  }

  /** One step of the join: an entry in front of a non-empty rest. */
  lemma ConsText(p: (string, Value), rest: Attrs)
    requires rest != []
    ensures AttrsText([p] + rest) == EntryText(p) + ", " + AttrsText(rest)
  {
    assert ([p] + rest)[1..] == rest;
  }

  /** Refused constructions: an empty name, and attribute names with a
      leading underscore, a quote, a leading newline or a backslash. */
  lemma ConstructorRefuses()
    ensures MakeCatalogue("", "", None, []) == Failure(EmptyName)
    ensures MakeCatalogue("Catalogue Name", "", None, [("_invalid", IntValue(2))]).Failure?
    ensures MakeCatalogue("Catalogue Name", "", None, [("'invalid'", IntValue(2))]).Failure?
    ensures MakeCatalogue("Catalogue Name", "", None, [("invalid'", IntValue(2))]).Failure?
    ensures MakeCatalogue("Catalogue Name", "", None, [("\"invalid\"", IntValue(2))]).Failure?
    ensures MakeCatalogue("Catalogue Name", "", None, [("\nvalid", IntValue(2))]).Failure?
    ensures MakeCatalogue("Catalogue Name", "", None, [("nvalid\\'", IntValue(2))]).Failure?
  {
    assert !IsNameChar('\'') && !IsNameChar('\\');
    assert "invalid'"[7] == '\'';
    assert "nvalid\\'"[6] == '\\';
  }

  /** Catalogues constructed with different names, with different values
      of one attribute, or with the same value under different attribute
      names are unequal. */
  lemma UnequalCatalogues()
    ensures var a, b := MakeCatalogue("Catalogue Name1", "Patrick", None, []),
                        MakeCatalogue("Catalogue Name2", "Patrick", None, []);
      a.Success? && b.Success? && !SameCatalogue(a.value, b.value)
    ensures var a, b := MakeCatalogue("Catalogue Name", "Patrick", None, [("attr1", IntValue(20))]),
                        MakeCatalogue("Catalogue Name", "Patrick", None, [("attr1", IntValue(10))]);
      a.Success? && b.Success? && !SameCatalogue(a.value, b.value)
    ensures var a, b := MakeCatalogue("Catalogue Name", "Patrick", None, [("attr1", IntValue(20))]),
                        MakeCatalogue("Catalogue Name", "Patrick", None, [("attr2", IntValue(20))]);
      a.Success? && b.Success? && !SameCatalogue(a.value, b.value)
  {
    assert ValidName("attr1", CatalogueCoreFields) && ValidName("attr2", CatalogueCoreFields);
    var c20 := MakeCatalogue("Catalogue Name", "Patrick", None, [("attr1", IntValue(20))]).value;
    var c10 := MakeCatalogue("Catalogue Name", "Patrick", None, [("attr1", IntValue(10))]).value;
    var d20 := MakeCatalogue("Catalogue Name", "Patrick", None, [("attr2", IntValue(20))]).value;
    assert "Catalogue Name1" != "Catalogue Name2" by { assert "Catalogue Name1"[14] != "Catalogue Name2"[14]; }
    DifferentReadsDiffer(c20, c10, "attr1");
    assert "attr1" != "attr2" by { assert "attr1"[4] != "attr2"[4]; }
    DifferentReadsDiffer(c20, d20, "attr1");
  }

  /** Two new catalogues are listed in creation order. */
  method AddAndGetEmptyCatalogues()
  {
    var s, e0, e1, e2 := SetUp();
    var a := CreateCatalogue(s, "Catalogue Name1");
    var b := CreateCatalogue(s, "Catalogue Name2");
    var list := s.GetCatalogues();
    assert list == [a, b];
  }

  /** `test_add_and_get_empty_catalogues_discard_and_save`, on one working
      set: a discard drops the two catalogues created since the fixture's
      save; a catalogue created then and saved survives the next discard,
      which drops only the one created after the save. */
  method AddAndGetEmptyCataloguesDiscardAndSave()
  {
    var s, e0, e1, e2 := SetUp();
    DiscardTwoCatalogues(s);
    var c := SaveOneCatalogue(s);
    ghost var saved := s.current;

    var c2 := CreateCatalogue(s, "Catalogue Name2");
    var list := s.GetCatalogues();
    assert list == [c, c2];

    s.Discard();
    assert s.current == saved;
    list := s.GetCatalogues();
    assert list == [c];
  }

  /** The first part of that test: two catalogues, then `discard()` with no
      save in between, after which `get_catalogues()` is empty. */
  method DiscardTwoCatalogues(s: Session)
    requires s.Valid() && s.baseline.catalogues == []
    modifies s
    ensures s.Valid() && s.current == s.baseline && s.baseline == old(s.baseline)
  {
    var a := CreateCatalogue(s, "Catalogue Name1");
    var b := CreateCatalogue(s, "Catalogue Name2");
    s.Discard();
    var list := s.GetCatalogues();
    assert list == [];
  }

  /** The next part: one catalogue, listed before and after `save()`. */
  method SaveOneCatalogue(s: Session) returns (c: nat)
    requires s.Valid() && s.current.catalogues == []
    modifies s
    ensures s.Valid() && s.baseline == s.current
    ensures |s.current.catalogues| == 1 && s.current.catalogues[0].id == c
  {
    c := CreateCatalogue(s, "Catalogue Name2");
    var list := s.GetCatalogues();
    assert list == [c];

    s.Save();
    list := s.GetCatalogues();
    assert list == [c];
  }

  /** Events given to the constructor come back in order; removing the
      first leaves the other two in order. */
  method AddEventsToCatalogueConstructor()
  {
    var s, e0, e1, e2 := SetUp();
    var made := s.NewCatalogue("Catalogue Name", "Patrick", None, [], [e0, e1, e2]);
    var c := made.value;
    var events := s.GetEvents(c);
    assert events == [e0, e1, e2];
    RemoveFirstOfThree(s, c, e0, e1, e2);
  }

  /** `c.remove_events(e0)` on a catalogue holding `[e0, e1, e2]`, then
      `get_events(c)`: the other two remain, in order. */
  method RemoveFirstOfThree(s: Session, c: nat, e0: nat, e1: nat, e2: nat)
    requires s.Valid() && s.HasCatalogue(c) && Members(s.current, c) == [e0, e1, e2]
    modifies s
    ensures s.Valid()
  {
    s.RemoveEvents(c, [e0]);
    RemoveFirstMember([e0, e1, e2]);
    var events := s.GetEvents(c);
    assert events == [e1, e2];
  }

  /** Events added with `add_events` come back in order; removing the first
      leaves the other two in order. */
  method AddEventsToCatalogueViaMethod()
  {
    var s, e0, e1, e2 := SetUp();
    var c := CreateCatalogue(s, "Catalogue Name");
    assert Distinct([] + [e0, e1, e2]);
    var ok := s.AddEvents(c, [e0, e1, e2]);
    assert ok == Pass;
    var events := s.GetEvents(c);
    assert events == [e0, e1, e2];
    RemoveFirstOfThree(s, c, e0, e1, e2);
  }

  /** Adding an event a second time is refused. */
  method AddEventMultipleTimesToCatalogue()
  {
    var s, e0, e1, e2 := SetUp();
    var c := CreateCatalogue(s, "Catalogue Name");
    var first := AddEvent(s, c, e0);
    assert first == Pass;
    var second := AddEvent(s, c, e0);
    assert second == Fail(DuplicateMembership(e0));
  }

  /** The catalogues listing `e`, for a working set of two catalogues. */
  lemma ContainingOfTwo(cats: seq<CatalogueRecord>, e: nat)
    requires |cats| == 2
    ensures CataloguesContaining(cats, e)
         == (if e in cats[0].members then [cats[0].id] else [])
          + (if e in cats[1].members then [cats[1].id] else [])
  {
    var first := cats[..1];
    assert first[..0] == [] && first[0] == cats[0];
    assert CataloguesContaining(first, e) == (if e in cats[0].members then [cats[0].id] else []);
    assert cats[..|cats| - 1] == first;
  }

  /** The state the last test builds: `a` holds e0 then e1, `b` holds e0. */
  lemma SharedEventState(s: Snapshot, a: nat, b: nat, e0: nat, e1: nat)
    requires |s.catalogues| == 2 && s.catalogues[0].id == a && s.catalogues[1].id == b && a != b && e0 != e1
    requires IsCatalogue(s.catalogues, a) && IsCatalogue(s.catalogues, b)
    requires Members(s, a) == [e0, e1] && Members(s, b) == [e0]
    ensures CataloguesContaining(s.catalogues, e0) == [a, b]
    ensures CataloguesContaining(s.catalogues, e1) == [a]
  {
    IndexOfUnique(s.catalogues, 0);
    IndexOfUnique(s.catalogues, 1);
    ContainingOfTwo(s.catalogues, e0);
    ContainingOfTwo(s.catalogues, e1);
  }

  /** The first steps of the last test: catalogue A gets e0, then e1. */
  method FirstCatalogue(s: Session, e0: nat, e1: nat) returns (a: nat)
    requires s.Valid() && s.HasEvent(e0) && s.HasEvent(e1) && e0 != e1 && s.current.catalogues == []
    modifies s
    ensures s.Valid() && s.HasEvent(e0)
    ensures |s.current.catalogues| == 1 && s.current.catalogues[0].id == a
    ensures s.HasCatalogue(a) && Members(s.current, a) == [e0, e1]
  {
    a := CreateCatalogue(s, "Catalogue Name A");
    var ok := AddEvent(s, a, e0);
    ok := AddEvent(s, a, e1);
  }

  /** The next steps: catalogue B is created and gets e0. */
  method SecondCatalogue(s: Session, a: nat, e0: nat) returns (b: nat)
    requires s.Valid() && s.HasEvent(e0)
    requires |s.current.catalogues| == 1 && s.current.catalogues[0].id == a && s.HasCatalogue(a)
    modifies s
    ensures s.Valid()
    ensures |s.current.catalogues| == 2 && s.current.catalogues[0].id == a && s.current.catalogues[1].id == b
    ensures a != b && s.HasCatalogue(a) && s.HasCatalogue(b)
    ensures Members(s.current, a) == old(Members(s.current, a)) && Members(s.current, b) == [e0]
  {
    b := CreateCatalogue(s, "Catalogue Name B");
    var ok := AddEvent(s, b, e0);
  }

  /** An event shared by two catalogues lists both, in creation order; an
      event of only the first lists that one. */
  method CataloguesOfEvent()
  {
    var s, e0, e1, e2 := SetUp();
    var a := FirstCatalogue(s, e0, e1);
    var b := SecondCatalogue(s, a, e0);
    SharedEventState(s.current, a, b, e0, e1);
    var list := s.GetCataloguesOf(e0);
    assert list == [a, b];
    list := s.GetCataloguesOf(e1);
    assert list == [a];
  }
}
