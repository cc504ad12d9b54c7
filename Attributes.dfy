/** Dynamic attributes: the tagged values an entity may carry besides its core
    fields, the rule that decides which attribute names are accepted, lookup by
    name, and the textual form used when an entity is printed. */
module Attributes {
  import opened Wrappers

  /** The five kinds of attribute value. A floating-point number and a
      timestamp are carried as their canonical text (what Python's `str`
      prints for them) and are compared by it; no arithmetic is done on them. */
  datatype Value =
    | IntValue(i: int)
    | FloatValue(repr: string)
    | TextValue(s: string)
    | BoolValue(b: bool)
    | TimeValue(text: string)

  /** The attributes of one entity in the order they were passed in. */
  type Attrs = seq<(string, Value)>

  predicate IsLetter(c: char) { 'a' <= c <= 'z' || 'A' <= c <= 'Z' }

  predicate IsDigit(c: char) { '0' <= c <= '9' }

  predicate IsNameChar(c: char) { IsLetter(c) || IsDigit(c) || c == '_' }

  /** An attribute name is accepted when it is identifier-shaped, starts with
      a letter (so neither with a digit nor with the reserved underscore) and
      is not one of the entity kind's core field names. Every kind of name the
      test suite rejects is then refused: the empty name, a leading underscore
      or newline, quotes and backslashes. */
  predicate ValidName(k: string, reserved: seq<string>)
    ensures ValidName(k, reserved) ==>
      && k != ""
      && k[0] != '_'
      && k[0] != '\n'
      && '\'' !in k && '"' !in k && '\\' !in k && '\n' !in k
      && k !in reserved
  {
    && |k| > 0
    && IsLetter(k[0])
    && (forall i :: 0 <= i < |k| ==> IsNameChar(k[i]))
    && k !in reserved
  }

  /** The first attribute name that is not accepted, if there is one. */
  function FirstInvalid(attrs: Attrs, reserved: seq<string>): (r: Option<string>)
    ensures r.None? <==> forall i :: 0 <= i < |attrs| ==> ValidName(attrs[i].0, reserved)
    ensures r.Some? ==>
      exists i :: 0 <= i < |attrs| && attrs[i].0 == r.value && !ValidName(r.value, reserved)
        && forall j :: 0 <= j < i ==> ValidName(attrs[j].0, reserved)
  {
    if attrs == [] then None
    else if !ValidName(attrs[0].0, reserved) then Some(attrs[0].0)
    else
      var r := FirstInvalid(attrs[1..], reserved);
      assert forall i :: 1 <= i < |attrs| ==> attrs[i] == attrs[1..][i - 1];
      r
  }

  /** Keyword arguments never repeat a name. */
  predicate DistinctKeys(attrs: Attrs)
  {
    forall i, j :: 0 <= i < j < |attrs| ==> attrs[i].0 != attrs[j].0
  }

  /** Reading attribute `k` of an entity (`entity.k` in the library). */
  function Get(attrs: Attrs, k: string): (r: Option<Value>)
    ensures r.Some? <==> exists i :: 0 <= i < |attrs| && attrs[i].0 == k
    ensures r.Some? ==> (k, r.value) in attrs
  {
    if attrs == [] then None
    else if attrs[0].0 == k then Some(attrs[0].1)
    else
      var r := Get(attrs[1..], k);
      assert forall i :: 1 <= i < |attrs| ==> attrs[i] == attrs[1..][i - 1];
      r
  }

  /** Every attribute passed in reads back with the value it was given. */
  lemma {:induction false} GetReadsBack(attrs: Attrs, i: nat)
    requires DistinctKeys(attrs)
    requires i < |attrs|
    ensures Get(attrs, attrs[i].0) == Some(attrs[i].1)
  {
    if i > 0 {
      assert attrs[1..][i - 1] == attrs[i];
      GetReadsBack(attrs[1..], i - 1);
    }
  }

  /** The attributes as a dictionary: insertion order is forgotten. */
  function ToMap(attrs: Attrs): (m: map<string, Value>)
    ensures forall k :: k in m <==> Get(attrs, k).Some?
    ensures forall k :: k in m ==> Get(attrs, k) == Some(m[k])
  {
    if attrs == [] then map[]
    else ToMap(attrs[1..])[attrs[0].0 := attrs[0].1]
  }

  /** Two attribute lists with distinct names and the same entries (in any
      order) give the same dictionary. */
  lemma SameEntriesSameMap(a: Attrs, b: Attrs)
    requires DistinctKeys(a) && DistinctKeys(b)
    requires forall p :: p in a <==> p in b
    ensures ToMap(a) == ToMap(b)
  {
    forall k ensures Get(a, k) == Get(b, k) {
      if i :| 0 <= i < |a| && a[i].0 == k {
        assert a[i] in b;
        var j :| 0 <= j < |b| && b[j] == a[i];
        GetReadsBack(a, i);
        GetReadsBack(b, j);
      } else if j :| 0 <= j < |b| && b[j].0 == k {
        assert b[j] in a;
      }
    }
  }

  // ---------------------------------------------------------------------
  // Textual form

  function DigitChar(d: nat): (c: char)
    requires d < 10
    ensures IsDigit(c)
  {
    "0123456789"[d]
  }

  function DigitValue(c: char): nat
    requires IsDigit(c)
  {
    (c as int - '0' as int) as nat
  }

  /** Decimal text of a natural number, without leading zeros. */
  function NatText(n: nat): (s: string)
    ensures |s| > 0
    ensures forall i :: 0 <= i < |s| ==> IsDigit(s[i])
    ensures s[0] == '0' <==> n == 0
    ensures n == 0 ==> s == "0"
    decreases n
  {
    if n < 10 then [DigitChar(n)] else NatText(n / 10) + [DigitChar(n % 10)]
  }

  /** Reads a string of decimal digits. */
  function ParseNat(s: string): nat
    requires forall i :: 0 <= i < |s| ==> IsDigit(s[i])
  {
    if s == [] then 0 else ParseNat(s[..|s| - 1]) * 10 + DigitValue(s[|s| - 1])
  }

  lemma {:induction false} ParseNatText(n: nat)
    ensures ParseNat(NatText(n)) == n
    decreases n
  {
    var s := NatText(n);
    if n >= 10 {
      assert s[..|s| - 1] == NatText(n / 10);
      ParseNatText(n / 10);
    }
  }

  /** The shape of Python's `str` of an integer: a minus sign exactly when
      it is negative, then at least one decimal digit and no leading zero
      (zero itself prints as `0`). */
  predicate IntForm(r: string, i: int)
  {
    var lead := if i < 0 then 1 else 0;
    && |r| > lead
    && (r[0] == '-' <==> i < 0)
    && (forall k :: lead <= k < |r| ==> IsDigit(r[k]))
    && (r[lead] == '0' ==> r == "0")
  }

  /** Python's `str` of an integer: an optional minus sign, then the
      digits. It has Python's form, and reading it back gives the integer,
      so distinct integers print differently. */
  function IntText(i: int): (r: string)
    ensures IntForm(r, i)
    ensures ParseInt(r) == i
  {
    if i < 0 then
      var n: nat := -i;
      ParseNegative(NatText(n));
      ParseNatText(n);
      "-" + NatText(n)
    else
      ParseNonNegative(NatText(i));
      ParseNatText(i);
      NatText(i)
  }

  /** Reads back what `IntText` writes. */
  function ParseInt(s: string): int
  {
    if |s| > 0 && s[0] == '-' && forall i :: 1 <= i < |s| ==> IsDigit(s[i]) then
      0 - ParseNat(s[1..]) as int
    else if forall i :: 0 <= i < |s| ==> IsDigit(s[i]) then ParseNat(s)
    else 0
  }

  lemma ParseNegative(t: string)
    requires forall j :: 0 <= j < |t| ==> IsDigit(t[j])
    ensures ParseInt("-" + t) == 0 - ParseNat(t) as int
  {
    var s := "-" + t;
    assert s[1..] == t;
    assert forall j :: 1 <= j < |s| ==> s[j] == t[j - 1];
  }

  lemma ParseNonNegative(t: string)
    requires |t| > 0 && forall j :: 0 <= j < |t| ==> IsDigit(t[j])
    ensures ParseInt(t) == ParseNat(t)
  {
    assert t[0] != '-' by { assert IsDigit(t[0]); }
  }

  /** Python's `str` of an attribute value: an integer in decimal form that
      reads back, a string as itself, a bool as `True` or `False`. */
  function ValueText(v: Value): (r: string)
    ensures v.IntValue? ==> IntForm(r, v.i) && ParseInt(r) == v.i
    ensures v.TextValue? ==> r == v.s
    ensures v.BoolValue? ==> r == (if v.b then "True" else "False")
  {
    match v
    case IntValue(i) => IntText(i)
    case FloatValue(repr) => repr
    case TextValue(s) => s
    case BoolValue(b) => if b then "True" else "False"
    case TimeValue(text) => text
  }

  /** One attribute as `<name>=<value>`. */
  function EntryText(p: (string, Value)): string
  {
    p.0 + "=" + ValueText(p.1)
  }

  /** The attributes as `<k>=<v>` joined by `, `, in insertion order. */
  function AttrsText(attrs: Attrs): string
  {
    if attrs == [] then ""
    else if |attrs| == 1 then EntryText(attrs[0])
    else EntryText(attrs[0]) + ", " + AttrsText(attrs[1..])
  }

  /** Joining is associative: the text of a concatenation is the two texts
      joined by `, `, so entries appear exactly in insertion order. */
  lemma {:induction false} AttrsTextAppend(a: Attrs, b: Attrs)
    requires a != [] && b != []
    ensures AttrsText(a + b) == AttrsText(a) + ", " + AttrsText(b)
  {
    assert (a + b)[0] == a[0];
    if |a| == 1 {
      assert (a + b)[1..] == b;
    } else {
      assert (a + b)[1..] == a[1..] + b;
      AttrsTextAppend(a[1..], b);
    }
  }
}
