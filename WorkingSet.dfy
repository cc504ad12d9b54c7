/** The process-wide working set of the catalogue library: every event and
    catalogue constructed since the last save or discard, the catalogues'
    member lists, the last saved snapshot (`baseline`) and the queries over
    the live state (`current`). */
module WorkingSet {
  import opened Wrappers
  import opened Errors
  import opened Attributes
  import opened Entities
  import opened Membership

  /** A registered event together with the identity the library gives it. */
  datatype EventRecord = EventRecord(id: nat, event: Event)

  /** A registered catalogue, its identity and its ordered member event ids. */
  datatype CatalogueRecord = CatalogueRecord(id: nat, catalogue: Catalogue, members: seq<nat>)

  /** One generation of the working set; entities in creation order. */
  datatype Snapshot = Snapshot(events: seq<EventRecord>, catalogues: seq<CatalogueRecord>)

  /** The identities of the catalogues, in creation order. */
  function CatalogueIds(cats: seq<CatalogueRecord>): (r: seq<nat>)
    ensures |r| == |cats|
    ensures forall i :: 0 <= i < |cats| ==> r[i] == cats[i].id
  {
    if cats == [] then [] else CatalogueIds(cats[..|cats| - 1]) + [cats[|cats| - 1].id]
  }

  /** `e` is the identity of one of the events. */
  predicate IsEvent(evs: seq<EventRecord>, e: nat)
  {
    exists i :: 0 <= i < |evs| && evs[i].id == e
  }

  /** `c` is the identity of one of the catalogues. */
  predicate IsCatalogue(cats: seq<CatalogueRecord>, c: nat)
  {
    exists i :: 0 <= i < |cats| && cats[i].id == c
  }

  /** The invariant of one generation: identities are unique and below the
      next identity to hand out, member lists have no duplicates and name
      only events of the same generation. */
  predicate WellFormed(s: Snapshot, bound: nat)
  {
    && (forall i, j :: 0 <= i < j < |s.events| ==> s.events[i].id != s.events[j].id)
    && (forall i, j :: 0 <= i < j < |s.catalogues| ==> s.catalogues[i].id != s.catalogues[j].id)
    && (forall i :: 0 <= i < |s.events| ==> s.events[i].id < bound)
    && (forall i :: 0 <= i < |s.catalogues| ==> s.catalogues[i].id < bound)
    && (forall i :: 0 <= i < |s.catalogues| ==> Distinct(s.catalogues[i].members))
    && (forall i, e :: 0 <= i < |s.catalogues| && e in s.catalogues[i].members ==> IsEvent(s.events, e))
  }

  /** Position of catalogue `c` in a generation. */
  function IndexOf(cats: seq<CatalogueRecord>, c: nat): (i: nat)
    requires IsCatalogue(cats, c)
    ensures i < |cats| && cats[i].id == c
  {
    if cats[0].id == c then 0
    else
      assert IsCatalogue(cats[1..], c) by {
        var k :| 0 <= k < |cats| && cats[k].id == c;
        assert cats[1..][k - 1] == cats[k];
      }
      1 + IndexOf(cats[1..], c)
  }

  /** With unique identities, the catalogue with identity `c` is the one at `IndexOf`. */
  lemma IndexOfUnique(cats: seq<CatalogueRecord>, i: nat)
    requires forall j, k :: 0 <= j < k < |cats| ==> cats[j].id != cats[k].id
    requires i < |cats|
    ensures IsCatalogue(cats, cats[i].id)
    ensures IndexOf(cats, cats[i].id) == i
  {
  }

  /** `get_events(c)`: the members of catalogue `c`, in insertion order. */
  function Members(s: Snapshot, c: nat): seq<nat>
    requires IsCatalogue(s.catalogues, c)
  {
    s.catalogues[IndexOf(s.catalogues, c)].members
  }

  /** The generation with catalogue `c`'s member list replaced by `ms`. */
  function WithMembers(s: Snapshot, c: nat, ms: seq<nat>): Snapshot
    requires IsCatalogue(s.catalogues, c)
  {
    var i := IndexOf(s.catalogues, c);
    s.(catalogues := s.catalogues[i := s.catalogues[i].(members := ms)])
  }

  /** A membership edit touches only catalogue `c`'s members: the catalogues
      and their creation order, every other member list and all events stay. */
  lemma WithMembersChangesOnlyC(s: Snapshot, c: nat, ms: seq<nat>, d: nat)
    requires forall j, k :: 0 <= j < k < |s.catalogues| ==> s.catalogues[j].id != s.catalogues[k].id
    requires IsCatalogue(s.catalogues, c) && IsCatalogue(s.catalogues, d)
    ensures var s' := WithMembers(s, c, ms);
      && s'.events == s.events
      && CatalogueIds(s'.catalogues) == CatalogueIds(s.catalogues)
      && (forall i :: 0 <= i < |s.catalogues| ==> s'.catalogues[i].catalogue == s.catalogues[i].catalogue)
      && IsCatalogue(s'.catalogues, d)
      && Members(s', d) == if d == c then ms else Members(s, d)
  {
    var s' := WithMembers(s, c, ms);
    assert CatalogueIds(s'.catalogues) == CatalogueIds(s.catalogues);
    var j := IndexOf(s.catalogues, d);
    assert s'.catalogues[j].id == d;
    IndexOfUnique(s'.catalogues, j);
  }

  /** `WithMembersChangesOnlyC` for every catalogue at once. */
  lemma EditChangesOnlyC(s: Snapshot, c: nat, ms: seq<nat>)
    requires forall j, k :: 0 <= j < k < |s.catalogues| ==> s.catalogues[j].id != s.catalogues[k].id
    requires IsCatalogue(s.catalogues, c)
    ensures var s' := WithMembers(s, c, ms);
      && s'.events == s.events
      && CatalogueIds(s'.catalogues) == CatalogueIds(s.catalogues)
      && IsCatalogue(s'.catalogues, c) && Members(s', c) == ms
      && forall d :: IsCatalogue(s.catalogues, d) ==>
           IsCatalogue(s'.catalogues, d) && Members(s', d) == if d == c then ms else Members(s, d)
  {
    WithMembersChangesOnlyC(s, c, ms, c);
    forall d | IsCatalogue(s.catalogues, d)
      ensures IsCatalogue(WithMembers(s, c, ms).catalogues, d)
      ensures Members(WithMembers(s, c, ms), d) == if d == c then ms else Members(s, d)
    {
      WithMembersChangesOnlyC(s, c, ms, d);
    }
  }

  /** `get_catalogues(e)`: the catalogues of a generation that have `e` as a
      member, in creation order. */
  function CataloguesContaining(cats: seq<CatalogueRecord>, e: nat): seq<nat>
  {
    if cats == [] then []
    else
      var last := cats[|cats| - 1];
      CataloguesContaining(cats[..|cats| - 1], e) + (if e in last.members then [last.id] else [])
  }

  /** A catalogue is listed for `e` exactly when `e` is one of its members. */
  lemma {:induction false} CataloguesContainingIff(cats: seq<CatalogueRecord>, e: nat, c: nat)
    ensures c in CataloguesContaining(cats, e) <==>
      exists i :: 0 <= i < |cats| && cats[i].id == c && e in cats[i].members
  {
    if cats != [] {
      var front := cats[..|cats| - 1];
      CataloguesContainingIff(front, e, c);
      assert forall i :: 0 <= i < |front| ==> front[i] == cats[i];
    }
  }

  /** The list for `e` follows creation order: the catalogues created first
      come first. */
  lemma {:induction false} CataloguesContainingAppend(a: seq<CatalogueRecord>, b: seq<CatalogueRecord>, e: nat)
    ensures CataloguesContaining(a + b, e) == CataloguesContaining(a, e) + CataloguesContaining(b, e)
    decreases |b|
  {
    if b == [] {
      assert a + b == a;
    } else {
      assert (a + b)[..|a + b| - 1] == a + b[..|b| - 1];
      CataloguesContainingAppend(a, b[..|b| - 1], e);
    }
  }

  lemma WellFormedGrow(s: Snapshot, bound: nat)
    requires WellFormed(s, bound)
    ensures WellFormed(s, bound + 1)
  {
  }

  /** Registering an event under the next identity keeps the invariant. */
  lemma WellFormedAddEvent(s: Snapshot, bound: nat, ev: Event)
    requires WellFormed(s, bound)
    ensures WellFormed(s.(events := s.events + [EventRecord(bound, ev)]), bound + 1)
  {
    var s' := s.(events := s.events + [EventRecord(bound, ev)]);
    forall i, e | 0 <= i < |s'.catalogues| && e in s'.catalogues[i].members
      ensures IsEvent(s'.events, e)
    {
      assert s'.catalogues[i] == s.catalogues[i];
      assert IsEvent(s.events, e);
      var k :| 0 <= k < |s.events| && s.events[k].id == e;
      assert s'.events[k].id == e;
    }
  }

  /** Registering a catalogue under the next identity, with members that
      are distinct registered events, keeps the invariant. */
  lemma WellFormedAddCatalogue(s: Snapshot, bound: nat, cat: Catalogue, ms: seq<nat>)
    requires WellFormed(s, bound)
    requires Distinct(ms) && forall e :: e in ms ==> IsEvent(s.events, e)
    ensures WellFormed(s.(catalogues := s.catalogues + [CatalogueRecord(bound, cat, ms)]), bound + 1)
  {
  }

  /** Replacing a member list by distinct registered events keeps the invariant. */
  lemma WellFormedWithMembers(s: Snapshot, bound: nat, c: nat, ms: seq<nat>)
    requires WellFormed(s, bound)
    requires IsCatalogue(s.catalogues, c)
    requires Distinct(ms) && forall e :: e in ms ==> IsEvent(s.events, e)
    ensures WellFormed(WithMembers(s, c, ms), bound)
  {
  }

  /** The working set. `current` is what every query reads and every
      construction or membership edit changes; `baseline` is the snapshot
      taken by the last `save()`. Identities are never reused, so they stay
      unique across both generations. */
  class Session {
    var current: Snapshot
    var baseline: Snapshot
    var nextId: nat

    ghost predicate Valid()
      reads this
    {
      WellFormed(current, nextId) && WellFormed(baseline, nextId)
    }

    /** A fresh library state: nothing registered, nothing saved. */
    constructor ()
      ensures Valid()
      ensures current == Snapshot([], []) && baseline == current
    {
      current := Snapshot([], []);
      baseline := Snapshot([], []);
      nextId := 0;
    }

    predicate HasEvent(e: nat)
      reads this
    {
      IsEvent(current.events, e)
    }

    predicate HasCatalogue(c: nat)
      reads this
    {
      IsCatalogue(current.catalogues, c)
    }

    /** `Event(start, stop, author, **attrs)`: on success the event gets an
        identity no entity of either generation has, and is appended to the
        live events; on failure nothing is registered. */
    method NewEvent(start: Timestamp, stop: Timestamp, author: string, attrs: Attrs) returns (r: Result<nat, Error>)
      requires Valid() && DistinctKeys(attrs)
      modifies this
      ensures Valid() && baseline == old(baseline)
      ensures match MakeEvent(start, stop, author, attrs)
        case Failure(err) => r == Failure(err) && current == old(current)
        case Success(ev) =>
          && r.Success?
          && !old(IsEvent(current.events, r.value)) && !old(IsEvent(baseline.events, r.value))
          && current == old(current).(events := old(current.events) + [EventRecord(r.value, ev)])
      ensures r.Success? ==> HasEvent(r.value)
      ensures forall e :: old(HasEvent(e)) ==> HasEvent(e)
      ensures r.Success? ==> r.value == old(nextId)
      ensures nextId == old(nextId) + (if r.Success? then 1 else 0)
    {
      match MakeEvent(start, stop, author, attrs)
      case Failure(err) =>
        r := Failure(err);
      case Success(ev) =>
        WellFormedAddEvent(current, nextId, ev);
        WellFormedGrow(baseline, nextId);
        current := current.(events := current.events + [EventRecord(nextId, ev)]);
        r := Success(nextId);
        assert current.events[|current.events| - 1].id == nextId;
        assert forall i :: 0 <= i < |old(current.events)| ==> current.events[i] == old(current.events[i]);
        nextId := nextId + 1;
    }

    /** `Catalogue(name, author, predicate, events=events, **attrs)`: on
        success the catalogue gets a new identity, its member list is
        `events` in order, and it is appended to the live catalogues; an
        empty name, a refused attribute name or an event listed twice
        registers nothing. */
    method NewCatalogue(name: string, author: string, pred: Option<string>, attrs: Attrs, events: seq<nat>)
      returns (r: Result<nat, Error>)
      requires Valid() && DistinctKeys(attrs)
      requires forall e :: e in events ==> HasEvent(e)
      modifies this
      ensures Valid() && baseline == old(baseline)
      ensures MakeCatalogue(name, author, pred, attrs).Failure? ==>
        r == Failure(MakeCatalogue(name, author, pred, attrs).error) && current == old(current)
      ensures MakeCatalogue(name, author, pred, attrs).Success? && !Distinct(events) ==>
        && AddMembers([], events).Failure?
        && r == Failure(AddMembers([], events).error) && current == old(current)
      ensures MakeCatalogue(name, author, pred, attrs).Success? && Distinct(events) ==>
        && r.Success?
        && !old(IsCatalogue(current.catalogues, r.value)) && !old(IsCatalogue(baseline.catalogues, r.value))
        && current == old(current).(catalogues := old(current.catalogues)
             + [CatalogueRecord(r.value, MakeCatalogue(name, author, pred, attrs).value, events)])
      ensures r.Success? <==>
        name != "" && Distinct(events) && forall i :: 0 <= i < |attrs| ==> ValidName(attrs[i].0, CatalogueCoreFields)
      ensures r.Success? ==> HasCatalogue(r.value) && Members(current, r.value) == events
      ensures current.events == old(current.events)
      ensures forall d :: old(HasCatalogue(d)) ==> HasCatalogue(d) && Members(current, d) == old(Members(current, d))
      ensures r.Success? ==> r.value == old(nextId)
      ensures nextId == old(nextId) + (if r.Success? then 1 else 0)
    {
      match MakeCatalogue(name, author, pred, attrs)
      case Failure(err) =>
        r := Failure(err);
      case Success(cat) =>
        assert [] + events == events;
        match AddMembers([], events)
        case Failure(err) =>
          r := Failure(err);
        case Success(ms) =>
          assert [] + events == events;
          WellFormedAddCatalogue(current, nextId, cat, ms);
          WellFormedGrow(baseline, nextId);
          current := current.(catalogues := current.catalogues + [CatalogueRecord(nextId, cat, ms)]);
          r := Success(nextId);
          var n := |current.catalogues| - 1;
          assert current.catalogues[n].id == nextId;
          IndexOfUnique(current.catalogues, n);
          forall d | old(HasCatalogue(d))
            ensures HasCatalogue(d) && Members(current, d) == old(Members(current, d))
          {
            var j := IndexOf(old(current.catalogues), d);
            assert current.catalogues[j] == old(current.catalogues[j]);
            IndexOfUnique(current.catalogues, j);
          }
          nextId := nextId + 1;
    }

    /** `c.add_events(es)`: all or nothing. When an event of the batch is
        already a member, or is named twice, the first such event is
        reported and nothing changes; otherwise the batch is appended in
        order to `c`'s members and nothing else changes. */
    method AddEvents(c: nat, es: seq<nat>) returns (r: Outcome<Error>)
      requires Valid() && HasCatalogue(c)
      requires forall e :: e in es ==> HasEvent(e)
      modifies this
      ensures Valid() && baseline == old(baseline) && nextId == old(nextId)
      ensures match AddMembers(Members(old(current), c), es)
        case Failure(err) => r == Fail(err) && current == old(current)
        case Success(ms) => r == Pass && current == WithMembers(old(current), c, ms)
      ensures r == Pass <==> Distinct(old(Members(current, c)) + es)
      ensures r == Pass ==> HasCatalogue(c) && Members(current, c) == old(Members(current, c)) + es
      ensures current.events == old(current.events)
      ensures CatalogueIds(current.catalogues) == old(CatalogueIds(current.catalogues))
      ensures forall d :: old(HasCatalogue(d)) && d != c ==> HasCatalogue(d) && Members(current, d) == old(Members(current, d))
    {
      var i := IndexOf(current.catalogues, c);
      match AddMembers(current.catalogues[i].members, es)
      case Failure(err) =>
        r := Fail(err);
      case Success(ms) =>
        WellFormedWithMembers(current, nextId, c, ms);
        ghost var before := current;
        current := current.(catalogues := current.catalogues[i := current.catalogues[i].(members := ms)]);
        r := Pass;
        EditChangesOnlyC(before, c, ms);
    }

    /** `c.remove_events(es)`: the listed events leave `c`'s members, the
        remaining members keep their order, events that are not members are
        ignored, and nothing else changes. */
    method RemoveEvents(c: nat, es: seq<nat>)
      requires Valid() && HasCatalogue(c)
      modifies this
      ensures Valid() && baseline == old(baseline) && nextId == old(nextId)
      ensures current == WithMembers(old(current), c, RemoveMembers(Members(old(current), c), es))
      ensures HasCatalogue(c) && Members(current, c) == RemoveMembers(old(Members(current, c)), es)
      ensures current.events == old(current.events)
      ensures CatalogueIds(current.catalogues) == old(CatalogueIds(current.catalogues))
      ensures forall d :: old(HasCatalogue(d)) && d != c ==> HasCatalogue(d) && Members(current, d) == old(Members(current, d))
    {
      var i := IndexOf(current.catalogues, c);
      var ms := RemoveMembers(current.catalogues[i].members, es);
      RemoveKeepsDistinct(current.catalogues[i].members, es);
      WellFormedWithMembers(current, nextId, c, ms);
      ghost var before := current;
      current := current.(catalogues := current.catalogues[i := current.catalogues[i].(members := ms)]);
      EditChangesOnlyC(before, c, ms);
    }

    /** `get_events(c)`: the events of `c` in the order they were added. */
    method GetEvents(c: nat) returns (r: seq<nat>)
      requires Valid() && HasCatalogue(c)
      ensures Distinct(r)
      ensures forall e :: e in r ==> HasEvent(e)
      ensures r == Members(current, c)
    {
      r := current.catalogues[IndexOf(current.catalogues, c)].members;
    }

    /** `get_catalogues()`: the live catalogues in creation order. */
    method GetCatalogues() returns (r: seq<nat>)
      requires Valid()
      ensures Distinct(r)
      ensures |r| == |current.catalogues|
      ensures forall i :: 0 <= i < |r| ==> r[i] == current.catalogues[i].id
    {
      r := CatalogueIds(current.catalogues);
    }

    /** `get_catalogues(e)`: the live catalogues having `e` as a member, in
        creation order. */
    method GetCataloguesOf(e: nat) returns (r: seq<nat>)
      requires Valid()
      ensures r == CataloguesContaining(current.catalogues, e)
    {
      var cats := current.catalogues;
      r := [];
      var i := 0;
      while i < |cats|
        invariant 0 <= i <= |cats|
        invariant r == CataloguesContaining(cats[..i], e)
      {
        assert cats[..i + 1][..i] == cats[..i];
        if e in cats[i].members {
          r := r + [cats[i].id];
        }
        i := i + 1;
      }
      assert cats[..i] == cats;
    }

    /** `save()`: the live state becomes the baseline; nothing a query sees
        changes. */
    method Save()
      requires Valid()
      modifies this
      ensures Valid()
      ensures baseline == old(current) && current == old(current) && nextId == old(nextId)
    {
      baseline := current;
    }

    /** `discard()`: the live state goes back to the baseline, dropping every
        entity and membership edit made since the last save. */
    method Discard()
      requires Valid()
      modifies this
      ensures Valid()
      ensures current == old(baseline) && baseline == old(baseline) && nextId == old(nextId)
    {
      current := baseline;
    }
  }
}
