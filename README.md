# tscat catalogue model

A Dafny model of the in-memory data model of `tscat`, the time-series
catalogue library, as its catalogue test suite (`tests/test_catalogue.py`)
exercises it:

- **Entities** (`Attributes.dfy`, `Entities.dfy`). An `Event` has a start, a
  stop and an author. A `Catalogue` has a name, an author and an optional
  predicate. Both carry user-defined attributes. Each attribute value is an
  int, a float, a string, a bool or a timestamp. Attribute names are checked
  at construction. A catalogue's name must not be empty. Catalogue equality is
  structural. A catalogue prints as
  `Catalogue(name=…, author=…, predicate=None) attributes(k=v, …)`.
- **Membership** (`Membership.dfy`). A catalogue holds an ordered list of
  member events. `add_events` appends a batch and refuses an event that is
  already a member. `remove_events` drops events and keeps the rest in order.
- **Working set** (`WorkingSet.dfy`). The class `Session` holds the library's
  process-wide state. `current` is what queries read; constructing an entity
  registers it there. `baseline` is the snapshot taken by `save()`, and
  `discard()` restores it. `get_events(c)`, `get_catalogues()` and
  `get_catalogues(e)` are queries over `current`. `Valid()` is the class
  invariant: identities are unique, member lists have no duplicates, and they
  name only events of the same generation.
- **Scenarios** (`Scenarios.dfy`). Each test of the suite is replayed as a
  client method or lemma. Its assertions are proved from the contracts above.
  `SetUp` is the fixture `setUp` (three events, then `save()`). The lemmas
  `ConstructorAccepts`, `ConstructorValueKinds`, `ConstructorCaseSensitive`,
  `TextOfTwoAttributes` and `TextOfFiveKinds` cover
  `test_constructor_various_combinations_all_ok`, and
  `ConstructorManualAccess` covers
  `test_constructor_with_dynamic_attribute_manual_access`. `ConstructorRefuses`
  covers `test_constructor_various_combinations_value_errorl`, and
  `UnequalCatalogues` covers `test_unequal_catalogues`. Each of the methods
  `AddAndGetEmptyCatalogues`, `AddAndGetEmptyCataloguesDiscardAndSave`,
  `AddEventsToCatalogueConstructor`, `AddEventsToCatalogueViaMethod`,
  `AddEventMultipleTimesToCatalogue` and `CataloguesOfEvent` replays the test
  `test_` plus its name in snake case, on one working set from start to end.

Entities are identified by a number handed out by the session, standing for
Python object identity. Queries return these identities. Identities are never
reused, so `discard()` cannot make a dropped entity's identity reappear.

Decisions the tests leave open:

- A batch `add_events` is all or nothing. It also fails when the batch names
  the same event twice.
- Membership is decided by identity, not by value equality.
- `Catalogue(..., events=[...])` with an event listed twice registers nothing.
- Removing an event that is not a member does nothing.
- Attribute names must start with an ASCII letter; after that, letters, digits
  and underscores are allowed. Names equal to a core field are refused. For
  catalogues those are `name`, `author` and `predicate`, plus `events`, which
  the constructor takes as a keyword.
- Catalogue equality compares the attributes as dictionaries, so the order
  they were given in does not matter. The text form lists them in the order
  given.

## Model

| member | source | states |
|---|---|---|
| `Attributes.ValidName` | tests/test_catalogue.py:55-68 | an accepted attribute name is non-empty, starts neither with `_` nor with a newline, contains no quote, backslash or newline, and is not a reserved core field name |
| `Attributes.FirstInvalid` | tests/test_catalogue.py:55-68 | no name is reported exactly when every attribute name is accepted; otherwise the reported name is the first refused one |
| `Attributes.Get` | tests/test_catalogue.py:80-92 | reading attribute `k` finds a value exactly when some attribute is named `k`, and the pair it returns is one of the entity's attributes |
| `Attributes.GetReadsBack` | tests/test_catalogue.py:47-48 | with distinct names, every attribute passed in reads back the value it was given |
| `Attributes.ToMap` | tests/test_catalogue.py:70-78 | the dictionary view holds exactly the names that can be read, each with the value that reading gives |
| `Attributes.SameEntriesSameMap` | tests/test_catalogue.py:70-78 | two attribute lists with the same entries in any order give the same dictionary |
| `Attributes.NatText` | tests/test_catalogue.py:50-53 | a natural number prints as a non-empty string of decimal digits with no leading zero |
| `Attributes.ParseNatText` | tests/test_catalogue.py:50-53 | reading the printed digits gives back the number |
| `Attributes.IntText` | tests/test_catalogue.py:50-53 | an integer prints in Python's decimal form: a minus sign exactly when negative, then digits with no leading zero (`0` for zero); reading it back gives the integer, so distinct integers print differently |
| `Attributes.ValueText` | tests/test_catalogue.py:50-53 | `str()` of an attribute value: an integer prints in that decimal form and reads back to it, a string as itself, a bool as `True` or `False` |
| `Attributes.AttrsTextAppend` | tests/test_catalogue.py:50 | the attribute text of a concatenation is the two texts joined by `, `, so pairs appear in insertion order |
| `Entities.MakeEvent` | tests/test_catalogue.py:17-21 | an event is built exactly when every attribute name is accepted; its start, stop and author are as given, it holds exactly the given attributes in the given order, and each reads back; otherwise the error names a refused attribute |
| `Entities.MakeCatalogue` | tests/test_catalogue.py:41-68 | a catalogue is built exactly when the name is non-empty and every attribute name is accepted; it then holds exactly the given fields and attributes, in the given order, and each attribute reads back; an empty name gives `EmptyName`, a bad name gives `InvalidAttributeName` of a refused name |
| `Entities.SameCatalogue` | tests/test_catalogue.py:70-78 | `==` on catalogues: identical catalogues are equal, and equal ones agree on name, author, predicate and on what every attribute name reads |
| `Entities.SameCatalogueIffSameReads` | tests/test_catalogue.py:70-78 | two catalogues are equal exactly when name, author and predicate agree and every attribute name reads the same on both |
| `Entities.DifferentReadsDiffer` | tests/test_catalogue.py:74-78 | catalogues are unequal when some attribute reads differently: another value under the same name, or the same value under another name |
| `Entities.SameCatalogueIgnoresOrder` | tests/test_catalogue.py:70-78 | equality does not depend on the order the attributes were given in |
| `Entities.CatalogueText` | tests/test_catalogue.py:50-53 | `str()` of a catalogue starts with `Catalogue(name=` and the name, and ends with `)` |
| `Entities.ConstructedText` | tests/test_catalogue.py:41-53 | the text of any catalogue the constructor returns (no predicate) is exactly the test's pattern: name, author, `predicate=None`, then the attributes joined by `, ` in the order passed |
| `Entities.CatalogueTextOneMore` | tests/test_catalogue.py:50-53 | one more attribute appends `, k=v` after the existing pairs, inside the final parenthesis, and leaves the rest of the text unchanged |
| `Membership.AddMembers` | tests/test_catalogue.py:150-154 | a batch is accepted exactly when the members plus the batch have no duplicates; it is then appended in order; otherwise the error names the first event of the batch that is already a member or repeats an earlier one |
| `Membership.RemoveMembers` | tests/test_catalogue.py:134-137 | after removal an event is a member exactly when it was one and was not removed |
| `Membership.RemoveMembersAppend` | tests/test_catalogue.py:146-148 | removal distributes over concatenation, so the remaining members keep their order |
| `Membership.RemoveNonMembers` | tests/test_catalogue.py:134-137 | removing events that are not members leaves the list unchanged |
| `Membership.RemoveKeepsDistinct` | tests/test_catalogue.py:150-154 | removal keeps a duplicate-free member list duplicate-free |
| `Membership.RemoveUndoesAdd` | tests/test_catalogue.py:139-148 | removing a batch right after adding it restores the member list |
| `Membership.RemoveFirstMember` | tests/test_catalogue.py:134-137 | removing the first member leaves exactly the others, in order |
| `WorkingSet.IndexOfUnique` | tests/test_catalogue.py:156-167 | with unique identities, looking a catalogue up by identity finds that very catalogue |
| `WorkingSet.WithMembersChangesOnlyC` | tests/test_catalogue.py:156-167 | editing one catalogue's members leaves the events, the catalogues and their order, and every other member list unchanged |
| `WorkingSet.CataloguesContainingIff` | tests/test_catalogue.py:156-167 | a catalogue is listed for an event exactly when the event is one of its members |
| `WorkingSet.CataloguesContainingAppend` | tests/test_catalogue.py:156-167 | the listing for an event distributes over concatenation, so it follows creation order |
| `WorkingSet.WellFormedAddEvent` | tests/test_catalogue.py:17-21 | registering an event under the next identity keeps the generation invariant |
| `WorkingSet.WellFormedAddCatalogue` | tests/test_catalogue.py:128-132 | registering a catalogue with distinct registered member events keeps the invariant |
| `WorkingSet.WellFormedWithMembers` | tests/test_catalogue.py:139-148 | replacing a member list by distinct registered events keeps the invariant |
| `WorkingSet.Session.constructor` | tests/test_catalogue.py:14-15 | a fresh state has nothing registered and nothing saved |
| `WorkingSet.Session.NewEvent` | tests/test_catalogue.py:17-21 | on success the event gets the next value of the identity counter, new to both generations, and is appended to the live events; the counter advances only on success; on failure nothing changes; the baseline never changes |
| `WorkingSet.Session.NewCatalogue` | tests/test_catalogue.py:128-132 | succeeds exactly when the name is non-empty, the attribute names are accepted and the events are distinct; then the catalogue takes the next value of the identity counter and is appended with those events as members, in order, and nothing else changes; otherwise nothing changes and the counter stays |
| `WorkingSet.Session.AddEvents` | tests/test_catalogue.py:139-154 | succeeds exactly when the members plus the batch have no duplicates; then the batch is appended to this catalogue's members; otherwise the state is unchanged; other catalogues, the events and the baseline never change |
| `WorkingSet.Session.RemoveEvents` | tests/test_catalogue.py:134-148 | this catalogue's members lose the listed events and keep their order; nothing else changes |
| `WorkingSet.Session.GetEvents` | tests/test_catalogue.py:128-148 | returns the catalogue's members in insertion order; they are distinct live events |
| `WorkingSet.Session.GetCatalogues` | tests/test_catalogue.py:94-97 | returns the identities of the live catalogues in creation order, without duplicates |
| `WorkingSet.Session.GetCataloguesOf` | tests/test_catalogue.py:156-167 | returns, in creation order, the live catalogues that have the event as a member |
| `WorkingSet.Session.Save` | tests/test_catalogue.py:113-116 | the baseline becomes the live state, and the live state is unchanged |
| `WorkingSet.Session.Discard` | tests/test_catalogue.py:99-126 | the live state becomes the baseline, dropping everything done since the last save |
| `Scenarios.SetUp` | tests/test_catalogue.py:14-23 | the fixture registers three distinct events and saves, leaving no catalogue |
| `Scenarios.AddPlainEvent` | tests/test_catalogue.py:17-21 | an event without attributes is always accepted and takes the next identity, so the fixture's three events are distinct |
| `Scenarios.CreateCatalogue` | tests/test_catalogue.py:94-101 | a named catalogue without attributes or events is always accepted and appended with no members |
| `Scenarios.AddEvent` | tests/test_catalogue.py:150-154 | adding one event fails with `DuplicateMembership` exactly when it is already a member; otherwise it is appended |
| `Scenarios.ConstructorAccepts` | tests/test_catalogue.py:25-30 | an empty author and names with trailing or inner underscores are accepted |
| `Scenarios.ConstructorCaseSensitive` | tests/test_catalogue.py:36 | `field` and `Field` are two attributes, each reading back its own value |
| `Scenarios.ConstructorValueKinds` | tests/test_catalogue.py:31-35 | a single attribute `field` of any kind (int, float, string, bool, timestamp) is accepted and reads back unchanged |
| `Scenarios.TextOfTwoAttributes` | tests/test_catalogue.py:36-53 | constructing with `field=2, Field=3` succeeds and its text is the pattern the test builds |
| `Scenarios.TextOfFiveKinds` | tests/test_catalogue.py:37-53 | constructing with one attribute of each kind succeeds and its text lists every `k=v` in the order given, inside the pattern the test builds |
| `Scenarios.ConstructorManualAccess` | tests/test_catalogue.py:80-92 | the catalogue built with five attributes of different kinds keeps its name and author and reads back each attribute's value |
| `Scenarios.ConstructorRefuses` | tests/test_catalogue.py:55-68 | an empty name and each refused attribute name of the test make construction fail |
| `Scenarios.UnequalCatalogues` | tests/test_catalogue.py:70-78 | the three pairs of catalogues the test constructs are built and are unequal |
| `Scenarios.SharedEventState` | tests/test_catalogue.py:156-167 | with A holding e0 then e1 and B holding e0, e0 lists `[A, B]` and e1 lists `[A]` |

## Left out

- The implementation of the `tscat` package is not part of this model. The
  model follows the behaviour the catalogue test suite asserts.
- The SQLAlchemy backend and its in-memory database are left out. `save()` is
  modelled as a snapshot copy, so a failing backend write is not modelled.
- `datetime.now()` and `timedelta` are wall-clock input. Timestamps are
  opaque integers, and the fixture uses fixed ones.
- Floating-point numbers and timestamps as attribute values are carried as
  their printed text and compared by it. NaN and signed zeros are not modelled.
- Python's `**kwargs` and `__getattribute__` become a list of name/value pairs
  and `Attributes.Get`. Keyword arguments never repeat a name, so construction
  requires distinct names.
- An attribute value of an unsupported type cannot be written in the model, so
  the error raised for one is not modelled.
- Changing attributes after construction, deleting entities, and the event
  text form and event equality are left out. The catalogue tests do not use
  them.
- SameCatalogue: attribute values of different kinds never compare equal,
  whereas Python's `==` makes `1 == True == 1.0` and `0 == False`. So a
  catalogue with `x=1` and one with `x=True` are unequal in the model but equal
  in Python. Floats are compared by their printed text.
- WorkingSet.Session.NewCatalogue: requires every event given to be live in
  the working set. Passing an event dropped by `discard()`, or never
  registered, is not modelled.
- WorkingSet.Session.AddEvents: requires the catalogue and the events to be
  live. Calling it on a handle that `discard()` dropped is not modelled.
- WorkingSet.Session.RemoveEvents: requires the catalogue to be live. Calling
  it on a handle that `discard()` dropped is not modelled.
- WorkingSet.Session.GetEvents: requires the catalogue to be live. Querying a
  handle that `discard()` dropped is not modelled.
- Attributes.ValidName: accepts ASCII letters only, where Python identifiers
  may also use other Unicode letters.
