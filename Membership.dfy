/** A catalogue's ordered list of member events, identified by their ids:
    adding a batch (all or nothing, duplicates refused) and removing events
    (order of the rest kept, non-members ignored). */
module Membership {
  import opened Wrappers
  import opened Errors

  /** No id appears twice. */
  predicate Distinct(s: seq<nat>)
  {
    forall i, j :: 0 <= i < j < |s| ==> s[i] != s[j]
  }

  /** `catalogue.add_events(es)` on the member list `members`. The batch is
      appended in order when none of its events is already a member and it
      names no event twice; otherwise the first offending event is reported
      and the list is left as it was. */
  function AddMembers(members: seq<nat>, es: seq<nat>): (r: Result<seq<nat>, Error>)
    requires Distinct(members)
    ensures r.Success? <==> Distinct(members + es)
    ensures r.Success? ==> r.value == members + es
    ensures r.Failure? ==>
      exists i :: 0 <= i < |es| && r.error == DuplicateMembership(es[i])
        && (es[i] in members || es[i] in es[..i])
        && NoneRepeated(members, es, i)
    decreases |es|
  {
    if es == [] then
      assert members + es == members;
      Success(members)
    else if es[0] in members then
      HeadAlreadyMember(members, es);
      Failure(DuplicateMembership(es[0]))
    else
      DistinctAppendOne(members, es[0]);
      var r := AddMembers(members + [es[0]], es[1..]);
      assert members + [es[0]] + es[1..] == members + es;
      if r.Success? then r
      else
        var i :| 0 <= i < |es[1..]| && r.error == DuplicateMembership(es[1..][i])
          && (es[1..][i] in members + [es[0]] || es[1..][i] in es[1..][..i])
          && NoneRepeated(members + [es[0]], es[1..], i);
        OffenderShift(members, es, i);
        r
  }

  /** None of the first `n` events of the batch is a member already or
      repeats an earlier event of the batch. */
  predicate NoneRepeated(members: seq<nat>, es: seq<nat>, n: nat)
    requires n <= |es|
  {
    forall j :: 0 <= j < n ==> es[j] !in members && es[j] !in es[..j]
  }

  lemma HeadAlreadyMember(members: seq<nat>, es: seq<nat>)
    requires es != [] && es[0] in members
    ensures !Distinct(members + es) && NoneRepeated(members, es, 0)
  {
    var j :| 0 <= j < |members| && members[j] == es[0];
    assert (members + es)[j] == (members + es)[|members|];
  }

  lemma DistinctAppendOne(members: seq<nat>, x: nat)
    requires Distinct(members) && x !in members
    ensures Distinct(members + [x])
  {
  }

  /** An offender found after moving the batch's head into the members is an
      offender of the original batch, one position later, and the clean
      prefix grows by one. */
  lemma OffenderShift(members: seq<nat>, es: seq<nat>, i: nat)
    requires es != [] && es[0] !in members && i + 1 < |es|
    requires es[1..][i] in members + [es[0]] || es[1..][i] in es[1..][..i]
    requires NoneRepeated(members + [es[0]], es[1..], i)
    ensures es[1..][i] == es[i + 1]
    ensures es[i + 1] in members || es[i + 1] in es[..i + 1]
    ensures NoneRepeated(members, es, i + 1)
  {
    assert es[1..][..i] == es[1..i + 1];
    forall j | 0 <= j < i + 1 ensures es[j] !in members && es[j] !in es[..j] {
      if j > 0 {
        assert es[1..][j - 1] == es[j];
        assert es[..j] == [es[0]] + es[1..][..j - 1];
      }
    }
  }

  /** `catalogue.remove_events(es)` on the member list `members`: every
      listed member is dropped, the others stay in their order. */
  function RemoveMembers(members: seq<nat>, es: seq<nat>): (r: seq<nat>)
    ensures forall x :: x in r <==> x in members && x !in es
    ensures |r| <= |members|
  {
    if members == [] then []
    else if members[0] in es then RemoveMembers(members[1..], es)
    else [members[0]] + RemoveMembers(members[1..], es)
  }

  /** Removal works element by element, so it keeps the members' order. */
  lemma {:induction false} RemoveMembersAppend(a: seq<nat>, b: seq<nat>, es: seq<nat>)
    ensures RemoveMembers(a + b, es) == RemoveMembers(a, es) + RemoveMembers(b, es)
  {
    if a != [] {
      assert (a + b)[0] == a[0];
      assert (a + b)[1..] == a[1..] + b;
      RemoveMembersAppend(a[1..], b, es);
    } else {
      assert a + b == b;
    }
  }

  /** Removing events that are not members changes nothing. */
  lemma {:induction false} RemoveNonMembers(members: seq<nat>, es: seq<nat>)
    requires forall e :: e in es ==> e !in members
    ensures RemoveMembers(members, es) == members
  {
    if members != [] {
      assert members[0] in members;
      RemoveNonMembers(members[1..], es);
      assert [members[0]] + members[1..] == members;
    }
  }

  /** Removing a list from itself leaves nothing. */
  lemma {:induction false} RemoveAllMembers(members: seq<nat>, es: seq<nat>)
    requires forall e :: e in members ==> e in es
    ensures RemoveMembers(members, es) == []
  {
    if members != [] {
      assert members[0] in members;
      RemoveAllMembers(members[1..], es);
    }
  }

  /** The members left after a removal have no duplicates if the list had none. */
  lemma {:induction false} RemoveKeepsDistinct(members: seq<nat>, es: seq<nat>)
    requires Distinct(members)
    ensures Distinct(RemoveMembers(members, es))
  {
    if members != [] {
      RemoveKeepsDistinct(members[1..], es);
      assert members[0] !in members[1..];
    }
  }

  /** Removing a batch right after adding it restores the member list. */
  lemma RemoveUndoesAdd(members: seq<nat>, es: seq<nat>)
    requires Distinct(members)
    requires AddMembers(members, es).Success?
    ensures RemoveMembers(AddMembers(members, es).value, es) == members
  {
    assert forall e :: e in es ==> e !in members by {
      forall e | e in es ensures e !in members {
        var j :| 0 <= j < |es| && es[j] == e;
        assert (members + es)[|members| + j] == e;
        assert forall i :: 0 <= i < |members| ==> (members + es)[i] == members[i];
      }
    }
    RemoveMembersAppend(members, es, es);
    RemoveNonMembers(members, es);
    RemoveAllMembers(es, es);
  }

  /** Removing the first member leaves exactly the rest, in order. */
  lemma RemoveFirstMember(members: seq<nat>)
    requires Distinct(members) && members != []
    ensures RemoveMembers(members, [members[0]]) == members[1..]
  {
    assert members == [members[0]] + members[1..];
    RemoveMembersAppend([members[0]], members[1..], [members[0]]);
    RemoveNonMembers(members[1..], [members[0]]);
  }
}
