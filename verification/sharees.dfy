/**
 * Email-sharing rules of the share drawer
 * (web/apps/photos/src/components/Collections/CollectionShare.tsx):
 * the candidate list of `AddParticipant`, its `collectionShare` callback,
 * the multi-select toggle of `AddParticipantForm`, the avatar overflow of
 * `AvatarGroup`, the role-change no-op of `ManageParticipant` and the
 * collaborator/viewer lists.
 *
 * `shareCollection` followed by `syncWithRemote` is one remote effect whose
 * outcome for each email is the parameter `shareOutcome`; the method
 * returns the emails it was invoked for, in order.
 */
module Sharees {
  import opened Wrappers
  import opened SharingErrors

  /** `COLLECTION_ROLE`. */
  datatype Role = Viewer | Collaborator | Owner | Unknown

  /** A `CollectionUser` as far as the drawer reads it. */
  datatype Sharee = Sharee(email: string, role: Role)

  /** `collection.sharees?.find((value) => value.email === email)` is truthy. */
  predicate IsSharee(sharees: seq<Sharee>, email: string)
  {
    exists i :: 0 <= i < |sharees| && sharees[i].email == email
  }

  // ------------------------------------------------------- candidate list

  /**
   * `nonSharedEmails`: the emails of `emailList` that no sharee has, in their
   * original order (duplicates kept).
   */
  function NonSharedEmails(emailList: seq<string>, sharees: seq<Sharee>): (r: seq<string>)
    ensures |r| <= |emailList|
    ensures forall e :: e in r <==> e in emailList && !IsSharee(sharees, e)
  {
    if emailList == [] then []
    else
      (if IsSharee(sharees, emailList[0]) then [] else [emailList[0]])
      + NonSharedEmails(emailList[1..], sharees)
  }

  /** The filter keeps order: filtering a concatenation concatenates the filtered parts. */
  lemma {:induction false} NonSharedEmailsAppend(a: seq<string>, b: seq<string>, sharees: seq<Sharee>)
    ensures NonSharedEmails(a + b, sharees) == NonSharedEmails(a, sharees) + NonSharedEmails(b, sharees)
  {
    if a != [] {
      assert (a + b)[1..] == a[1..] + b;
      NonSharedEmailsAppend(a[1..], b, sharees);
    } else {
      assert a + b == b;
    }
  }

  /** With no sharee among them, every email remains a candidate. */
  lemma {:induction false} NonSharedEmailsKeepsAll(emailList: seq<string>, sharees: seq<Sharee>)
    requires forall e :: e in emailList ==> !IsSharee(sharees, e)
    ensures NonSharedEmails(emailList, sharees) == emailList
  {
    if emailList != [] {
      NonSharedEmailsKeepsAll(emailList[1..], sharees);
    }
  }

  // ------------------------------------------------------ collectionShare

  /** The emails the loop of `collectionShare` does not skip: neither the user's own nor a sharee's. */
  function ToShare(emails: seq<string>, userEmail: string, sharees: seq<Sharee>): seq<string>
  {
    if emails == [] then []
    else
      (if emails[0] == userEmail || IsSharee(sharees, emails[0]) then [] else [emails[0]])
      + ToShare(emails[1..], userEmail, sharees)
  }

  /** The emails shared with are exactly the listed ones that are neither the user's own nor a sharee's. */
  lemma {:induction false} ToShareMembers(emails: seq<string>, userEmail: string, sharees: seq<Sharee>)
    ensures |ToShare(emails, userEmail, sharees)| <= |emails|
    ensures forall e :: e in ToShare(emails, userEmail, sharees) <==> e in emails && e != userEmail && !IsSharee(sharees, e)
  {
    if emails != [] {
      ToShareMembers(emails[1..], userEmail, sharees);
      assert emails == [emails[0]] + emails[1..];
    }
  }

  /** The loop keeps input order: the targets of a concatenation are the concatenated targets. */
  lemma {:induction false} ToShareAppend(a: seq<string>, b: seq<string>, userEmail: string, sharees: seq<Sharee>)
    ensures ToShare(a + b, userEmail, sharees) == ToShare(a, userEmail, sharees) + ToShare(b, userEmail, sharees)
  {
    if a != [] {
      assert (a + b)[1..] == a[1..] + b;
      ToShareAppend(a[1..], b, userEmail, sharees);
    } else {
      assert a + b == b;
    }
  }

  /** The prefix of `targets` that is attempted: up to and including the first failure. */
  function Attempted(targets: seq<string>, shareOutcome: string -> Option<ParsedError>): seq<string>
  {
    if targets == [] then []
    else if shareOutcome(targets[0]).Some? then [targets[0]]
    else [targets[0]] + Attempted(targets[1..], shareOutcome)
  }

  /** The first failure among `targets`, mapped to its message. */
  function FirstFailure(targets: seq<string>, shareOutcome: string -> Option<ParsedError>): Option<Message>
  {
    if targets == [] then None
    else if shareOutcome(targets[0]).Some? then Some(HandleSharingErrors(shareOutcome(targets[0]).value))
    else FirstFailure(targets[1..], shareOutcome)
  }

  /**
   * The attempted emails are a prefix of the targets in which every email but
   * the last succeeded; it stops short only at a failure, and an error is
   * reported exactly when some target fails.
   */
  lemma {:induction false} AttemptedStopsAtFirstFailure(targets: seq<string>, shareOutcome: string -> Option<ParsedError>)
    ensures var r := Attempted(targets, shareOutcome);
      && |r| <= |targets| && r == targets[..|r|]
      && (forall i :: 0 <= i < |r| - 1 ==> shareOutcome(r[i]).None?)
      && (|r| < |targets| ==> r != [] && shareOutcome(r[|r| - 1]).Some?)
    ensures FirstFailure(targets, shareOutcome).None? <==> forall e :: e in targets ==> shareOutcome(e).None?
  {
    if targets != [] {
      AttemptedStopsAtFirstFailure(targets[1..], shareOutcome);
      assert targets == [targets[0]] + targets[1..];
      var r := Attempted(targets, shareOutcome);
      if shareOutcome(targets[0]).None? {
        var r' := Attempted(targets[1..], shareOutcome);
        assert r == [targets[0]] + r';
        forall i | 0 <= i < |r| - 1
          ensures shareOutcome(r[i]).None?
        {
          if i > 0 { assert r[i] == r'[i - 1]; }
        }
      }
    }
  }

  /** The list the loop runs over: a typed email replaces the picked ones. */
  function ShareList(email: string, emails: seq<string>): seq<string>
  {
    if email != "" then [email] else emails
  }

  /**
   * `collectionShare`: a typed email that is the user's own, or a sharee's,
   * is rejected before any call. Otherwise the loop calls `shareCollection`
   * for every listed email that is neither the user's own nor a sharee's,
   * in input order, and the first failure ends it with that failure's
   * message.
   */
  method CollectionShare(userEmail: string, sharees: seq<Sharee>, email: string, emails: seq<string>,
                         shareOutcome: string -> Option<ParsedError>)
    returns (calls: seq<string>, err: Option<Message>)
    ensures email != "" && email == userEmail ==> calls == [] && err == Some(SharingWithSelf)
    ensures email != "" && email != userEmail && IsSharee(sharees, email) ==>
      calls == [] && err == Some(SharingAlreadyShared(email))
    ensures email == "" || (email != userEmail && !IsSharee(sharees, email)) ==>
      var targets := ToShare(ShareList(email, emails), userEmail, sharees);
      calls == Attempted(targets, shareOutcome) && err == FirstFailure(targets, shareOutcome)
  {
    if email != "" {
      if email == userEmail {
        return [], Some(SharingWithSelf);
      } else if IsSharee(sharees, email) {
        return [], Some(SharingAlreadyShared(email));
      }
    }
    calls, err := ShareEach(userEmail, sharees, ShareList(email, emails), shareOutcome);
  }

  /** The loop of `collectionShare` over the listed emails. */
  method ShareEach(userEmail: string, sharees: seq<Sharee>, list: seq<string>,
                   shareOutcome: string -> Option<ParsedError>)
    returns (calls: seq<string>, err: Option<Message>)
    ensures var targets := ToShare(list, userEmail, sharees);
      calls == Attempted(targets, shareOutcome) && err == FirstFailure(targets, shareOutcome)
  {
    calls := [];
    var i := 0;
    while i < |list|
      invariant 0 <= i <= |list|
      invariant ToShare(list, userEmail, sharees) == calls + ToShare(list[i..], userEmail, sharees)
      invariant forall e :: e in calls ==> shareOutcome(e).None?
    {
      var target := list[i];
      ShareStep(list, i, calls, userEmail, sharees);
      if target != userEmail && !IsSharee(sharees, target) {
        var outcome := shareOutcome(target);
        if outcome.Some? {
          FailureEndsLoop(calls, target, ToShare(list[i + 1..], userEmail, sharees), shareOutcome);
          return calls + [target], Some(HandleSharingErrors(outcome.value));
        }
        calls := calls + [target];
      }
      i := i + 1;
    }
    assert list[i..] == [];
    assert calls + ToShare(list[i..], userEmail, sharees) == calls;
    SuccessEndsLoop(calls, shareOutcome);
    err := None;
  }

  /** One step of the loop: the email at position i is either skipped or becomes the next target. */
  lemma ShareStep(list: seq<string>, i: nat, calls: seq<string>, userEmail: string, sharees: seq<Sharee>)
    requires i < |list|
    requires ToShare(list, userEmail, sharees) == calls + ToShare(list[i..], userEmail, sharees)
    ensures var t, rest := list[i], ToShare(list[i + 1..], userEmail, sharees);
      if t != userEmail && !IsSharee(sharees, t) then
        ToShare(list, userEmail, sharees) == calls + ([t] + rest) &&
        ToShare(list, userEmail, sharees) == (calls + [t]) + rest
      else
        ToShare(list, userEmail, sharees) == calls + rest
  {
    ToShareStep(list, i, userEmail, sharees);
    var t, rest := list[i], ToShare(list[i + 1..], userEmail, sharees);
    if t != userEmail && !IsSharee(sharees, t) {
      assert calls + ([t] + rest) == (calls + [t]) + rest;
    } else {
      assert [] + rest == rest;
    }
  }

  /** Unfolds `ToShare` at position i of the loop. */
  lemma ToShareStep(list: seq<string>, i: nat, userEmail: string, sharees: seq<Sharee>)
    requires i < |list|
    ensures ToShare(list[i..], userEmail, sharees)
         == (if list[i] == userEmail || IsSharee(sharees, list[i]) then [] else [list[i]])
            + ToShare(list[i + 1..], userEmail, sharees)
  {
    assert list[i..][1..] == list[i + 1..];
  }

  /** A failure after a run of successes ends the attempted prefix at the failing email. */
  lemma FailureEndsLoop(done: seq<string>, target: string, rest: seq<string>, shareOutcome: string -> Option<ParsedError>)
    requires forall e :: e in done ==> shareOutcome(e).None?
    requires shareOutcome(target).Some?
    ensures Attempted(done + ([target] + rest), shareOutcome) == done + [target]
    ensures FirstFailure(done + ([target] + rest), shareOutcome) == Some(HandleSharingErrors(shareOutcome(target).value))
  {
    AttemptedAfterSuccesses(done, [target] + rest, shareOutcome);
    assert ([target] + rest)[0] == target;
  }

  /** When every email succeeds, all are attempted and there is no error. */
  lemma SuccessEndsLoop(done: seq<string>, shareOutcome: string -> Option<ParsedError>)
    requires forall e :: e in done ==> shareOutcome(e).None?
    ensures Attempted(done, shareOutcome) == done
    ensures FirstFailure(done, shareOutcome).None?
  {
    AttemptedAfterSuccesses(done, [], shareOutcome);
    assert done + [] == done;
  }

  /** Emails that all succeeded are attempted in full, and the rest decides what follows. */
  lemma {:induction false} AttemptedAfterSuccesses(done: seq<string>, rest: seq<string>,
                                                   shareOutcome: string -> Option<ParsedError>)
    requires forall e :: e in done ==> shareOutcome(e).None?
    ensures Attempted(done + rest, shareOutcome) == done + Attempted(rest, shareOutcome)
    ensures FirstFailure(done + rest, shareOutcome) == FirstFailure(rest, shareOutcome)
  {
    if done != [] {
      assert (done + rest)[1..] == done[1..] + rest;
      AttemptedAfterSuccesses(done[1..], rest, shareOutcome);
    } else {
      assert done + rest == rest;
    }
  }

  /** Every email `collectionShare` shares with is neither the user's own nor a sharee's. */
  lemma NeverSharesWithSelfOrSharee(userEmail: string, sharees: seq<Sharee>, email: string, emails: seq<string>,
                                    shareOutcome: string -> Option<ParsedError>, e: string)
    requires e in Attempted(ToShare(ShareList(email, emails), userEmail, sharees), shareOutcome)
    ensures e != userEmail && !IsSharee(sharees, e)
    ensures e in ShareList(email, emails)
  {
    var targets := ToShare(ShareList(email, emails), userEmail, sharees);
    var r := Attempted(targets, shareOutcome);
    AttemptedStopsAtFirstFailure(targets, shareOutcome);
    ToShareMembers(ShareList(email, emails), userEmail, sharees);
    var k :| 0 <= k < |r| && r[k] == e;
    assert e == targets[k] && e in targets;
  }

  // ------------------------------------------------------- option toggle

  /** `selectedOptions.filter((o) => o !== item)`. */
  function RemoveAll(s: seq<string>, item: string): (r: seq<string>)
    ensures item !in r
    ensures forall x :: x != item ==> (x in r <==> x in s)
    ensures |r| <= |s|
  {
    if s == [] then []
    else (if s[0] == item then [] else [s[0]]) + RemoveAll(s[1..], item)
  }

  lemma {:induction false} RemoveAllAbsent(s: seq<string>, item: string)
    requires item !in s
    ensures RemoveAll(s, item) == s
  {
    if s != [] {
      RemoveAllAbsent(s[1..], item);
    }
  }

  /**
   * The row click of the multi-select list: a selected option is removed,
   * every copy of it; an unselected one is appended.
   */
  function ToggleOption(selected: seq<string>, item: string): (r: seq<string>)
    ensures item in r <==> item !in selected
    ensures forall x :: x != item ==> (x in r <==> x in selected)
    ensures item !in selected ==> r == selected + [item]
  {
    if item in selected then RemoveAll(selected, item) else selected + [item]
  }

  /** Toggling an unselected option twice restores the selection. */
  lemma ToggleTwiceRestores(selected: seq<string>, item: string)
    requires item !in selected
    ensures ToggleOption(ToggleOption(selected, item), item) == selected
  {
    var once := selected + [item];
    assert RemoveAll(once, item) == RemoveAll(selected, item) + RemoveAll([item], item) by {
      RemoveAllAppend(selected, [item], item);
    }
    RemoveAllAbsent(selected, item);
  }

  lemma {:induction false} RemoveAllAppend(a: seq<string>, b: seq<string>, item: string)
    ensures RemoveAll(a + b, item) == RemoveAll(a, item) + RemoveAll(b, item)
  {
    if a != [] {
      assert (a + b)[1..] == a[1..] + b;
      RemoveAllAppend(a[1..], b, item);
    } else {
      assert a + b == b;
    }
  }

  /** The Formik values of `AddParticipantForm`. */
  class ParticipantForm {
    var inputValue: string
    var selectedOptions: seq<string>

    constructor (initialValue: string)
      ensures inputValue == initialValue && selectedOptions == []
    {
      inputValue := initialValue;
      selectedOptions := [];
    }

    /** A click on an option row. */
    method Toggle(item: string)
      modifies this`selectedOptions
      ensures selectedOptions == ToggleOption(old(selectedOptions), item)
      ensures item in selectedOptions <==> item !in old(selectedOptions)
    {
      if item in selectedOptions {
        selectedOptions := RemoveAll(selectedOptions, item);
      } else {
        selectedOptions := selectedOptions + [item];
      }
    }

    /** `handleInputFieldClick`: typing an email clears the picked options. */
    method ClickInputField()
      modifies this`selectedOptions
      ensures selectedOptions == []
    {
      selectedOptions := [];
    }
  }

  // ------------------------------------------------------------ avatars

  const ShareeAvatarLimit: nat := 6

  /** What `AvatarGroup` draws: the first avatars and the "+n" counter, if any. */
  datatype AvatarView = AvatarView(shown: seq<Sharee>, overflow: Option<int>)

  /**
   * `AvatarGroup`: at most six avatars, the first six sharees; a "+n" counter
   * with n = length - 6 appears exactly when there are more than six, so the
   * avatars and the counter account for every sharee.
   */
  function AvatarGroup(sharees: seq<Sharee>): (v: AvatarView)
    ensures |v.shown| <= ShareeAvatarLimit && |v.shown| <= |sharees| && v.shown == sharees[..|v.shown|]
    ensures v.overflow.Some? <==> |sharees| > ShareeAvatarLimit
    ensures |v.shown| == if |sharees| <= ShareeAvatarLimit then |sharees| else ShareeAvatarLimit
    ensures v.overflow.Some? ==> v.overflow.value == |sharees| - ShareeAvatarLimit > 0
    ensures |v.shown| + (if v.overflow.Some? then v.overflow.value else 0) == |sharees|
  {
    var shown := if |sharees| <= 6 then sharees else sharees[..6];
    var hasShareesOverLimit := |sharees| > ShareeAvatarLimit;
    AvatarView(shown, if hasShareesOverLimit then Some(|sharees| - ShareeAvatarLimit) else None)
  }

  // --------------------------------------------------------------- roles

  /**
   * `handleRoleChange`: choosing the participant's current role does
   * nothing; any other role asks to change this participant to it.
   */
  function RoleChangeRequest(participant: Sharee, role: Role): (r: Option<(string, Role)>)
    ensures r.None? <==> role == participant.role
    ensures r.Some? ==> r.value == (participant.email, role)
  {
    if role != participant.role then Some((participant.email, role)) else None
  }

  /** Emails of the sharees with the given role, in order (the `filter` then `map` of the lists). */
  function EmailsWithRole(sharees: seq<Sharee>, role: Role): (r: seq<string>)
    ensures |r| <= |sharees|
    ensures forall e :: e in r <==> exists i :: 0 <= i < |sharees| && sharees[i] == Sharee(e, role)
  {
    if sharees == [] then []
    else
      var rest := EmailsWithRole(sharees[1..], role);
      assert forall e :: (exists i :: 0 <= i < |sharees[1..]| && sharees[1..][i] == Sharee(e, role)) <==>
                         (exists i :: 1 <= i < |sharees| && sharees[i] == Sharee(e, role)) by {
        forall e | exists i :: 1 <= i < |sharees| && sharees[i] == Sharee(e, role)
          ensures exists i :: 0 <= i < |sharees[1..]| && sharees[1..][i] == Sharee(e, role)
        {
          var i :| 1 <= i < |sharees| && sharees[i] == Sharee(e, role);
          assert sharees[1..][i - 1] == sharees[i];
        }
      }
      (if sharees[0].role == role then [sharees[0].email] else []) + rest
  }

  /** The lists keep the sharees' order: the list of a concatenation is the concatenated lists. */
  lemma {:induction false} EmailsWithRoleAppend(a: seq<Sharee>, b: seq<Sharee>, role: Role)
    ensures EmailsWithRole(a + b, role) == EmailsWithRole(a, role) + EmailsWithRole(b, role)
  {
    if a != [] {
      var head := if a[0].role == role then [a[0].email] else [];
      assert (a + b)[0] == a[0] && (a + b)[1..] == a[1..] + b;
      assert EmailsWithRole(a + b, role) == head + EmailsWithRole(a[1..] + b, role);
      assert EmailsWithRole(a, role) == head + EmailsWithRole(a[1..], role);
      EmailsWithRoleAppend(a[1..], b, role);
    } else {
      assert a + b == b;
    }
  }

  /** Number of sharees whose role is neither collaborator nor viewer. */
  function OtherRoles(sharees: seq<Sharee>): nat
  {
    if sharees == [] then 0
    else (if sharees[0].role in {Collaborator, Viewer} then 0 else 1) + OtherRoles(sharees[1..])
  }

  /**
   * The collaborator and viewer lists partition the sharees that hold one of
   * those two roles: each such sharee is counted in exactly one list.
   */
  lemma {:induction false} RoleListsPartition(sharees: seq<Sharee>)
    ensures |EmailsWithRole(sharees, Collaborator)| + |EmailsWithRole(sharees, Viewer)| + OtherRoles(sharees) == |sharees|
  {
    if sharees != [] {
      RoleListsPartition(sharees[1..]);
    }
  }
}
