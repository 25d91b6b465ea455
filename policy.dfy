/** The per-guild list of uncallable roles, as values: marking a role
    uncallable or callable again, the membership test used while calling, and
    the text `/uncallables` answers with. */
module Policy {
  import opened Common
  import Decimal

  /** `/uncallable` on one role: appended when it is not yet listed. */
  function Mark(roles: seq<RoleId>, role: RoleId): (r: seq<RoleId>)
    ensures role in r
    ensures forall x :: x in r <==> x in roles || x == role
    ensures |roles| <= |r| && r[..|roles|] == roles
    ensures (role in roles) <==> r == roles
    ensures Distinct(roles) ==> Distinct(r)
  {
    if role in roles then roles else roles + [role]
  }

  /** The position of the first occurrence of `role` (Python's `list.index`). */
  function IndexOf(roles: seq<RoleId>, role: RoleId): (i: nat)
    requires role in roles
    ensures i < |roles| && roles[i] == role && role !in roles[..i]
  {
    if roles[0] == role then 0 else 1 + IndexOf(roles[1..], role)
  }

  /** `/recallable` on one role: its first occurrence is removed when it is listed. */
  function Unmark(roles: seq<RoleId>, role: RoleId): (r: seq<RoleId>)
    ensures role !in roles ==> r == roles
    ensures role in roles ==> |r| == |roles| - 1
    ensures forall x :: x != role ==> (x in r <==> x in roles)
    ensures Distinct(roles) ==> Distinct(r) && role !in r
  {
    if role in roles then
      var i := IndexOf(roles, role);
      var r := roles[..i] + roles[i + 1..];
      assert forall x :: x in r <==> x in roles[..i] || x in roles[i + 1..];
      assert forall x :: x in roles <==> x in roles[..i] || x == role || x in roles[i + 1..] by {
        assert roles == roles[..i] + [role] + roles[i + 1..];
      }
      r
    else roles
  }

  /** On a duplicate-free list, unmarking keeps every other entry, in order. */
  lemma {:induction false} UnmarkKeepsOthers(roles: seq<RoleId>, role: RoleId)
    requires Distinct(roles)
    ensures Unmark(roles, role) == Without(roles, [role])
  {
    if role in roles {
      var i := IndexOf(roles, role);
      var pre, post := roles[..i], roles[i + 1..];
      assert role !in post by {
        forall k | 0 <= k < |post| ensures post[k] != role {
          assert post[k] == roles[i + 1 + k];
        }
      }
      assert roles == pre + [role] + post;
      WithoutSplit(pre, role, post);
    } else {
      WithoutNothingDropped(roles, role);
    }
  }

  lemma {:induction false} WithoutSplit(pre: seq<RoleId>, role: RoleId, post: seq<RoleId>)
    requires role !in pre && role !in post
    ensures Without(pre + [role] + post, [role]) == pre + post
  {
    var front := Without(pre + [role], [role]);
    WithoutAppend(pre + [role], post, [role]);
    assert Without(pre + [role] + post, [role]) == front + Without(post, [role]);
    WithoutAppend(pre, [role], [role]);
    WithoutSelf(role);
    WithoutNothingDropped(pre, role);
    assert front == pre;
    WithoutNothingDropped(post, role);
  }

  lemma {:induction false} WithoutSelf(role: RoleId)
    ensures Without([role], [role]) == []
  {
    assert [role][..0] == [];
  }

  lemma {:induction false} WithoutNothingDropped(s: seq<RoleId>, role: RoleId)
    requires role !in s
    ensures Without(s, [role]) == s
  {
    if s != [] {
      WithoutNothingDropped(s[..|s| - 1], role);
      assert s == s[..|s| - 1] + [s[|s| - 1]];
    }
  }

  /** The test `has_uncallable_role` makes: some listed role is one of the user's. */
  predicate SharesRole(uncallable: seq<RoleId>, userRoles: seq<RoleId>)
  {
    exists r :: r in uncallable && r in userRoles
  }

  /** Once a role is marked, every member holding it is uncallable. */
  lemma MarkedRoleIsUncallable(roles: seq<RoleId>, role: RoleId, userRoles: seq<RoleId>)
    requires role in userRoles
    ensures SharesRole(Mark(roles, role), userRoles)
  {
  }

  /** Marking twice is marking once; unmarking twice is unmarking once. */
  lemma MarkUnmarkIdempotent(roles: seq<RoleId>, role: RoleId)
    requires Distinct(roles)
    ensures Mark(Mark(roles, role), role) == Mark(roles, role)
    ensures Unmark(Unmark(roles, role), role) == Unmark(roles, role)
  {
  }

  /** Unmarking a role that was just marked on a list without it restores the list. */
  lemma {:induction false} UnmarkUndoesMark(roles: seq<RoleId>, role: RoleId)
    requires role !in roles
    ensures Unmark(Mark(roles, role), role) == roles
  {
    var m := roles + [role];
    var i := IndexOf(m, role);
    assert m[..|roles|] == roles;
    assert i == |roles|;
    assert m[..i] == roles;
  }

  // ------------------------------------------------------------------
  // The reply of `/uncallables`.

  /** `role.mention`: the platform's mention syntax for a role. */
  function RoleMention(role: RoleId): string
  {
    "<@&" + Decimal.NatToString(role) + ">"
  }

  /** The message the loop builds: every mention followed by ", ". */
  function MentionsWithCommas(roles: seq<RoleId>): (s: string)
    ensures |s| >= 2 * |roles|
  {
    if roles == [] then ""
    else MentionsWithCommas(roles[..|roles| - 1]) + RoleMention(roles[|roles| - 1]) + ", "
  }

  /** The message after `i + 1` roles is the message after `i` roles, then
      the next mention and its comma. */
  lemma MessagePrefix(roles: seq<RoleId>, i: nat)
    requires i < |roles|
    ensures ManyText + MentionsWithCommas(roles[..i + 1]) == (ManyText + MentionsWithCommas(roles[..i])) + (RoleMention(roles[i]) + ", ")
  {
    assert roles[..i + 1][..i] == roles[..i];
  }

  /** Texts joined with a separator between neighbours. */
  function Join(parts: seq<string>, sep: string): string
  {
    if parts == [] then ""
    else if |parts| == 1 then parts[0]
    else Join(parts[..|parts| - 1], sep) + sep + parts[|parts| - 1]
  }

  function RoleMentions(roles: seq<RoleId>): (r: seq<string>)
    ensures |r| == |roles| && forall i :: 0 <= i < |roles| ==> r[i] == RoleMention(roles[i])
  {
    if roles == [] then [] else RoleMentions(roles[..|roles| - 1]) + [RoleMention(roles[|roles| - 1])]
  }

  const NoneText := "There are no uncallable roles in this server."
  const OneText := "The uncallable role in this server is"
  const ManyText := "The uncallable roles in this server are: "

  /** The reply, chosen by the number of listed roles; a single role is
      shown by its name, several by their mentions. */
  function UncallablesText(roles: seq<RoleId>, roleName: RoleId -> string): string
  {
    if |roles| == 0 then NoneText
    else if |roles| == 1 then OneText + " `" + roleName(roles[0]) + "`."
    else
      var message := ManyText + MentionsWithCommas(roles);
      message[..|message| - 2] + "."
  }

  /** Dropping the last ", " of the loop's text leaves the mentions joined by ", ". */
  lemma {:induction false} MentionsWithCommasIsJoin(roles: seq<RoleId>)
    requires |roles| >= 1
    ensures MentionsWithCommas(roles) == Join(RoleMentions(roles), ", ") + ", "
    decreases |roles|
  {
    if |roles| > 1 {
      var init := roles[..|roles| - 1];
      MentionsWithCommasIsJoin(init);
      assert RoleMentions(roles)[..|roles| - 1] == RoleMentions(init);
    } else {
      assert roles[..0] == [];
    }
  }

  /** For several roles the reply lists their mentions joined by ", " and
      ends with ".". */
  lemma UncallablesTextMany(roles: seq<RoleId>, roleName: RoleId -> string)
    requires |roles| >= 2
    ensures UncallablesText(roles, roleName) == ManyText + Join(RoleMentions(roles), ", ") + "."
  {
    var joined := Join(RoleMentions(roles), ", ");
    MentionsWithCommasIsJoin(roles);
    Associative(ManyText, joined, ", ");
    DropSeparator(ManyText + joined);
  }

  lemma DropSeparator(body: string)
    ensures (body + ", ")[..|body + ", "| - 2] == body
  {
  }

  // ------------------------------------------------------------------
  // One command naming several roles.

  datatype Change = MakeUncallable | MakeCallable

  function Apply(change: Change, roles: seq<RoleId>, role: RoleId): seq<RoleId>
  {
    match change
    case MakeUncallable => Mark(roles, role)
    case MakeCallable => Unmark(roles, role)
  }

  /** The reply for one role; `listed` says whether it was listed before. */
  function ReplyFor(change: Change, name: string, listed: bool): string
  {
    match change
    case MakeUncallable =>
      if listed then "The role `" + name + "` is already not callable" else "The role `" + name + "` is now not callable"
    case MakeCallable =>
      if listed then "The role `" + name + "` is now callable." else "The role `" + name + "` is already callable."
  }

  /** Repeating a change on a list without duplicates changes nothing the
      second time, and the reply says the role already was that way. */
  lemma RepeatReportsAlready(change: Change, roles: seq<RoleId>, role: RoleId, name: string)
    requires Distinct(roles)
    ensures var once := Apply(change, roles, role);
      && Apply(change, once, role) == once
      && ReplyFor(change, name, role in once)
         == if change.MakeUncallable? then "The role `" + name + "` is already not callable"
            else "The role `" + name + "` is already callable."
  {
  }

  /** What a command does with its roles: the new list, the replies, and
      whether it stopped with an exception (so the list was not saved). */
  datatype Applied = Applied(roles: seq<RoleId>, replies: seq<string>, raised: bool)

  /** The loop as written: a reply is sent through the interaction's one
      response for each role, and the platform refuses a second response by
      raising, after that role's list update. */
  function ApplyAllAsWritten(change: Change, roles: seq<RoleId>, mentioned: seq<RoleId>, roleName: RoleId -> string): (a: Applied)
    decreases |mentioned|
  {
    ApplyFromAsWritten(change, Applied(roles, [], false), mentioned, roleName)
  }

  function ApplyFromAsWritten(change: Change, a: Applied, mentioned: seq<RoleId>, roleName: RoleId -> string): (r: Applied)
    decreases |mentioned|
  {
    if mentioned == [] || a.raised then a
    else
      var role := mentioned[0];
      var updated := Apply(change, a.roles, role);
      if |a.replies| >= 1 then Applied(updated, a.replies, true)
      else
        var reply := ReplyFor(change, roleName(role), role in a.roles);
        ApplyFromAsWritten(change, Applied(updated, a.replies + [reply], false), mentioned[1..], roleName)
  }

  /** As written, `/uncallable @a @b @c` on a guild with no uncallable role
      marks `a` and `b`, raises at the second reply, never reaches `c`, and
      does not save the list. */
  lemma UncallableAsWrittenStopsAtSecondRole(a: RoleId, b: RoleId, c: RoleId, roleName: RoleId -> string)
    requires a != b && b != c && a != c
    ensures var r := ApplyAllAsWritten(MakeUncallable, [], [a, b, c], roleName);
      r.raised && r.roles == [a, b] && c !in r.roles && |r.replies| == 1
  {
    var s0 := Applied([], [], false);
    var reply := ReplyFor(MakeUncallable, roleName(a), false);
    var s1 := Applied([a], [reply], false);
    assert Mark([], a) == [a];
    assert [a, b, c][1..] == [b, c];
    assert s0.replies + [reply] == [reply];
    assert ApplyFromAsWritten(MakeUncallable, s0, [a, b, c], roleName)
        == ApplyFromAsWritten(MakeUncallable, s1, [b, c], roleName);
    assert Mark([a], b) == [a, b];
    assert ApplyFromAsWritten(MakeUncallable, s1, [b, c], roleName) == Applied([a, b], [reply], true);
  }

  /** As written, `/recallable @a @b @c` on a guild listing all three
      unmarks `a` and `b`, raises, and leaves `c` uncallable. */
  lemma RecallableAsWrittenStopsAtSecondRole(a: RoleId, b: RoleId, c: RoleId, roleName: RoleId -> string)
    requires a != b && b != c && a != c
    ensures var r := ApplyAllAsWritten(MakeCallable, [a, b, c], [a, b, c], roleName);
      r.raised && r.roles == [c] && |r.replies| == 1
  {
    var s0 := Applied([a, b, c], [], false);
    var reply := ReplyFor(MakeCallable, roleName(a), true);
    var s1 := Applied([b, c], [reply], false);
    assert IndexOf([a, b, c], a) == 0;
    assert [a, b, c][1..] == [b, c];
    assert Unmark([a, b, c], a) == [b, c];
    assert s0.replies + [reply] == [reply];
    assert ApplyFromAsWritten(MakeCallable, s0, [a, b, c], roleName)
        == ApplyFromAsWritten(MakeCallable, s1, [b, c], roleName);
    assert IndexOf([b, c], b) == 0;
    assert [b, c][1..] == [c];
    assert Unmark([b, c], b) == [c];
    assert ApplyFromAsWritten(MakeCallable, s1, [b, c], roleName) == Applied([c], [reply], true);
  }

  /** The evident intent: every mentioned role is handled, with one reply each. */
  function ApplyAll(change: Change, roles: seq<RoleId>, mentioned: seq<RoleId>, roleName: RoleId -> string): (a: Applied)
    ensures !a.raised && |a.replies| == |mentioned|
    decreases |mentioned|
  {
    if mentioned == [] then Applied(roles, [], false)
    else
      var init := mentioned[..|mentioned| - 1];
      var role := mentioned[|mentioned| - 1];
      var a := ApplyAll(change, roles, init, roleName);
      Applied(Apply(change, a.roles, role), a.replies + [ReplyFor(change, roleName(role), role in a.roles)], false)
  }

  /** Applying the first `i + 1` mentioned roles is applying the first `i`,
      then role `i`. */
  lemma ApplyAllPrefix(change: Change, roles: seq<RoleId>, mentioned: seq<RoleId>, i: nat, roleName: RoleId -> string)
    requires i < |mentioned|
    ensures var a := ApplyAll(change, roles, mentioned[..i], roleName);
      ApplyAll(change, roles, mentioned[..i + 1], roleName)
        == Applied(Apply(change, a.roles, mentioned[i]), a.replies + [ReplyFor(change, roleName(mentioned[i]), mentioned[i] in a.roles)], false)
  {
    assert mentioned[..i + 1][..i] == mentioned[..i];
  }

  /** Marking several roles: each ends up listed exactly once, the roles
      listed before keep their places, and nothing else is added. */
  lemma ApplyAllMarksEvery(roles: seq<RoleId>, mentioned: seq<RoleId>, roleName: RoleId -> string)
    requires Distinct(roles)
    ensures var r := ApplyAll(MakeUncallable, roles, mentioned, roleName).roles;
      && Distinct(r)
      && |roles| <= |r| && r[..|roles|] == roles
      && forall x :: x in r <==> x in roles || x in mentioned
  {
    MarksKeepDistinct(roles, mentioned, roleName);
    MarksKeepPrefix(roles, mentioned, roleName);
    MarksAddMentioned(roles, mentioned, roleName);
  }

  lemma {:induction false} MarksKeepDistinct(roles: seq<RoleId>, mentioned: seq<RoleId>, roleName: RoleId -> string)
    requires Distinct(roles)
    ensures Distinct(ApplyAll(MakeUncallable, roles, mentioned, roleName).roles)
    decreases |mentioned|
  {
    if mentioned != [] {
      MarksKeepDistinct(roles, mentioned[..|mentioned| - 1], roleName);
    }
  }

  lemma {:induction false} MarksKeepPrefix(roles: seq<RoleId>, mentioned: seq<RoleId>, roleName: RoleId -> string)
    ensures var r := ApplyAll(MakeUncallable, roles, mentioned, roleName).roles;
      |roles| <= |r| && r[..|roles|] == roles
    decreases |mentioned|
  {
    if mentioned != [] {
      var init := mentioned[..|mentioned| - 1];
      MarksKeepPrefix(roles, init, roleName);
      var prev := ApplyAll(MakeUncallable, roles, init, roleName).roles;
      var r := Mark(prev, mentioned[|mentioned| - 1]);
      assert r[..|roles|] == prev[..|prev|][..|roles|];
    }
  }

  lemma {:induction false} MarksAddMentioned(roles: seq<RoleId>, mentioned: seq<RoleId>, roleName: RoleId -> string)
    ensures var r := ApplyAll(MakeUncallable, roles, mentioned, roleName).roles;
      forall x :: x in r <==> x in roles || x in mentioned
    decreases |mentioned|
  {
    if mentioned != [] {
      var init, last := mentioned[..|mentioned| - 1], mentioned[|mentioned| - 1];
      assert mentioned == init + [last];
      MarksAddMentioned(roles, init, roleName);
    }
  }

  /** Unmarking several roles: none of them stays listed, and every other
      entry keeps its order. */
  lemma {:induction false} ApplyAllUnmarksEvery(roles: seq<RoleId>, mentioned: seq<RoleId>, roleName: RoleId -> string)
    requires Distinct(roles)
    ensures var r := ApplyAll(MakeCallable, roles, mentioned, roleName).roles;
      Distinct(r) && r == Without(roles, mentioned)
    decreases |mentioned|
  {
    if mentioned == [] {
      WithoutNone(roles);
    } else {
      var init := mentioned[..|mentioned| - 1];
      var role := mentioned[|mentioned| - 1];
      assert init + [role] == mentioned;
      ApplyAllUnmarksEvery(roles, init, roleName);
      var prev := ApplyAll(MakeCallable, roles, init, roleName).roles;
      assert ApplyAll(MakeCallable, roles, mentioned, roleName).roles == Unmark(prev, role);
      UnmarkKeepsOthers(prev, role);
      WithoutTwice(roles, init, [role]);
      assert Unmark(prev, role) == Without(roles, mentioned);
    }
  }
}
