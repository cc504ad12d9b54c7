/** The two entity kinds, `Event` and `Catalogue`, as values: construction
    with its validation, structural equality and the catalogue's textual form. */
module Entities {
  import opened Wrappers
  import opened Errors
  import opened Attributes

  /** Timestamps are opaque instants (for example microseconds); only their
      identity matters to this model. */
  type Timestamp = int

  datatype Event = Event(start: Timestamp, stop: Timestamp, author: string, attributes: Attrs)

  /** `pred` is the catalogue's `predicate` field (absent by default). */
  datatype Catalogue = Catalogue(name: string, author: string, pred: Option<string>, attributes: Attrs)

  /** Names an event attribute may not take: the event's core fields. */
  const EventCoreFields: seq<string> := ["start", "stop", "author"]

  /** Names a catalogue attribute may not take: the catalogue's core fields
      and the constructor's `events` keyword. */
  const CatalogueCoreFields: seq<string> := ["name", "author", "predicate", "events"]

  /** `Event(start, stop, author, **attrs)`: fails on the first attribute
      name that is not accepted; otherwise every field reads back as given. */
  function MakeEvent(start: Timestamp, stop: Timestamp, author: string, attrs: Attrs): (r: Result<Event, Error>)
    requires DistinctKeys(attrs)
    ensures r.Success? <==> forall i :: 0 <= i < |attrs| ==> ValidName(attrs[i].0, EventCoreFields)
    ensures r.Success? ==>
      && r.value.start == start && r.value.stop == stop && r.value.author == author
      && r.value.attributes == attrs
      && forall i :: 0 <= i < |attrs| ==> Get(r.value.attributes, attrs[i].0) == Some(attrs[i].1)
    ensures r.Failure? ==>
      exists i :: 0 <= i < |attrs| && r.error == InvalidAttributeName(attrs[i].0)
        && !ValidName(attrs[i].0, EventCoreFields)
  {
    match FirstInvalid(attrs, EventCoreFields)
    case Some(k) => Failure(InvalidAttributeName(k))
    case None =>
      AllReadBack(attrs);
      Success(Event(start, stop, author, attrs))
  }

  /** `Catalogue(name, author, predicate, **attrs)`: an empty name is refused
      first, then the first attribute name that is not accepted; otherwise
      every field reads back as given. */
  function MakeCatalogue(name: string, author: string, pred: Option<string>, attrs: Attrs): (r: Result<Catalogue, Error>)
    requires DistinctKeys(attrs)
    ensures r.Success? <==> name != "" && forall i :: 0 <= i < |attrs| ==> ValidName(attrs[i].0, CatalogueCoreFields)
    ensures r.Success? ==>
      && r.value.name == name && r.value.author == author && r.value.pred == pred
      && r.value.attributes == attrs
      && forall i :: 0 <= i < |attrs| ==> Get(r.value.attributes, attrs[i].0) == Some(attrs[i].1)
    ensures name == "" ==> r == Failure(EmptyName)
    ensures r.Failure? && name != "" ==>
      exists i :: 0 <= i < |attrs| && r.error == InvalidAttributeName(attrs[i].0)
        && !ValidName(attrs[i].0, CatalogueCoreFields)
  {
    if name == "" then Failure(EmptyName)
    else
      match FirstInvalid(attrs, CatalogueCoreFields)
      case Some(k) => Failure(InvalidAttributeName(k))
      case None =>
        AllReadBack(attrs);
        Success(Catalogue(name, author, pred, attrs))
  }

  lemma AllReadBack(attrs: Attrs)
    requires DistinctKeys(attrs)
    ensures forall i :: 0 <= i < |attrs| ==> Get(attrs, attrs[i].0) == Some(attrs[i].1)
  {
    forall i | 0 <= i < |attrs| ensures Get(attrs, attrs[i].0) == Some(attrs[i].1) {
      GetReadsBack(attrs, i);
    }
  }

  // ---------------------------------------------------------------------
  // Equality

  /** `a == b` on catalogues: the core fields are equal and the attribute
      dictionaries are equal (Python's dictionary equality ignores order). */
  predicate SameCatalogue(a: Catalogue, b: Catalogue)
    ensures a == b ==> SameCatalogue(a, b)
    ensures SameCatalogue(a, b) ==>
      && a.name == b.name && a.author == b.author && a.pred == b.pred
      && forall k :: Get(a.attributes, k) == Get(b.attributes, k)
  {
    && a.name == b.name && a.author == b.author && a.pred == b.pred
    && ToMap(a.attributes) == ToMap(b.attributes)
  }

  /** Equality holds exactly when the core fields agree and every attribute
      name reads the same value (or is absent) on both sides. */
  lemma SameCatalogueIffSameReads(a: Catalogue, b: Catalogue)
    ensures SameCatalogue(a, b) ==>
      && a.name == b.name && a.author == b.author && a.pred == b.pred
      && forall k :: Get(a.attributes, k) == Get(b.attributes, k)
    ensures
      && a.name == b.name && a.author == b.author && a.pred == b.pred
      && (forall k :: Get(a.attributes, k) == Get(b.attributes, k))
      ==> SameCatalogue(a, b)
  {
    if forall k :: Get(a.attributes, k) == Get(b.attributes, k) {
      var ma, mb := ToMap(a.attributes), ToMap(b.attributes);
      assert ma.Keys == mb.Keys;
      assert forall k :: k in ma ==> ma[k] == mb[k];
    }
  }

  /** A catalogue differs from one whose attribute `k` reads differently:
      another value under the same name, or the same value under another name. */
  lemma DifferentReadsDiffer(a: Catalogue, b: Catalogue, k: string)
    requires Get(a.attributes, k) != Get(b.attributes, k)
    ensures !SameCatalogue(a, b)
  {
    SameCatalogueIffSameReads(a, b);
  }

  /** Equality ignores the order the attributes were given in. */
  lemma SameCatalogueIgnoresOrder(a: Catalogue, b: Catalogue)
    requires a.name == b.name && a.author == b.author && a.pred == b.pred
    requires DistinctKeys(a.attributes) && DistinctKeys(b.attributes)
    requires forall p :: p in a.attributes <==> p in b.attributes
    ensures SameCatalogue(a, b)
  {
    SameEntriesSameMap(a.attributes, b.attributes);
  }

  // ---------------------------------------------------------------------
  // Textual form

  function PredicateText(p: Option<string>): string
  {
    match p
    case None => "None"
    case Some(s) => s
  }

  /** The part of `str(catalogue)` before the attribute list. */
  function CatalogueHead(c: Catalogue): string
  {
    "Catalogue(name=" + c.name + ", author=" + c.author
      + ", predicate=" + PredicateText(c.pred) + ") attributes("
  }

  /** `str(catalogue)`: core fields in declared order, then the attributes
      in insertion order. */
  function CatalogueText(c: Catalogue): (r: string)
    ensures "Catalogue(name=" + c.name <= r
    ensures |r| > 0 && r[|r| - 1] == ')'
  {
    HeadStartsWithName(c);
    CatalogueHead(c) + AttrsText(c.attributes) + ")"
  }

  lemma HeadStartsWithName(c: Catalogue)
    ensures "Catalogue(name=" + c.name <= CatalogueHead(c) + AttrsText(c.attributes) + ")"
  {
    var p := "Catalogue(name=" + c.name;
    var rest := ", author=" + c.author + ", predicate=" + PredicateText(c.pred)
      + ") attributes(" + AttrsText(c.attributes) + ")";
    assert CatalogueHead(c) + AttrsText(c.attributes) + ")" == p + rest;
  }

  /** `str(Catalogue(name, author, **attrs))`: the pattern the test suite
      matches, with the attributes as `k=v` pairs joined by `, ` in the order
      they were passed. */
  lemma ConstructedText(name: string, author: string, attrs: Attrs)
    requires DistinctKeys(attrs)
    requires MakeCatalogue(name, author, None, attrs).Success?
    ensures CatalogueText(MakeCatalogue(name, author, None, attrs).value)
         == "Catalogue(name=" + name + ", author=" + author
            + ", predicate=None) attributes(" + AttrsText(attrs) + ")"
  {
    var c := Catalogue(name, author, None, attrs);
    assert MakeCatalogue(name, author, None, attrs).value == c;
    assert ", predicate=" + PredicateText(None) + ") attributes(" == ", predicate=None) attributes(";
  }

  /** Giving one more attribute appends `, <k>=<v>` after the existing ones,
      inside the final parentheses, and changes nothing before it. */
  lemma CatalogueTextOneMore(c: Catalogue, k: string, v: Value)
    requires c.attributes != []
    ensures CatalogueText(c.(attributes := c.attributes + [(k, v)]))
         == CatalogueHead(c) + AttrsText(c.attributes) + ", " + k + "=" + ValueText(v) + ")"
  {
    var c2 := c.(attributes := c.attributes + [(k, v)]);
    assert CatalogueHead(c2) == CatalogueHead(c);
    AttrsTextAppend(c.attributes, [(k, v)]);
    assert AttrsText([(k, v)]) == k + "=" + ValueText(v);
    assert CatalogueText(c2) == CatalogueHead(c) + AttrsText(c2.attributes) + ")";
  }
}
