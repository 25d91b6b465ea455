/** Who a `/call` reaches: the users mentioned directly, together with the
    members of every mentioned role, each once, and no bot accounts. */
module Mentions {
  import opened Common

  /** The `resolved` part of a slash-command payload: the ids under its
      `members` key and under its `roles` key; a key that is absent is None. */
  datatype Resolved = Resolved(members: Option<seq<UserId>>, roles: Option<seq<RoleId>>)

  /** The ids under `members`; an absent key reads as no mention. */
  function MentionedUsers(res: Resolved): seq<UserId>
  {
    if res.members.Some? then res.members.value else []
  }

  /** The ids under `roles`; an absent key reads as no mention. */
  function MentionedRoles(res: Resolved): seq<RoleId>
  {
    if res.roles.Some? then res.roles.value else []
  }

  /** A user is reached through a role when some mentioned role lists them. */
  ghost predicate InSomeRole(u: UserId, roles: seq<RoleId>, roleMembers: RoleId -> seq<UserId>)
  {
    exists k :: 0 <= k < |roles| && u in roleMembers(roles[k])
  }

  /** The members of the mentioned roles, role after role (a chained list). */
  function RoleUsers(roles: seq<RoleId>, roleMembers: RoleId -> seq<UserId>): (r: seq<UserId>)
    ensures forall u :: u in r <==> InSomeRole(u, roles, roleMembers)
  {
    if roles == [] then []
    else
      var init := roles[..|roles| - 1];
      var r := RoleUsers(init, roleMembers) + roleMembers(roles[|roles| - 1]);
      assert forall u :: InSomeRole(u, roles, roleMembers) <==>
        InSomeRole(u, init, roleMembers) || u in roleMembers(roles[|roles| - 1]) by {
        forall u | InSomeRole(u, roles, roleMembers)
          ensures InSomeRole(u, init, roleMembers) || u in roleMembers(roles[|roles| - 1])
        {
          var k :| 0 <= k < |roles| && u in roleMembers(roles[k]);
          if k < |roles| - 1 { assert roles[k] == init[k]; }
        }
        forall u | InSomeRole(u, init, roleMembers)
          ensures InSomeRole(u, roles, roleMembers)
        {
          var k :| 0 <= k < |init| && u in roleMembers(init[k]);
          assert roles[k] == init[k];
        }
      }
      r
  }

  /** The elements of `s`, each once, in order of first appearance. */
  function Dedup(s: seq<UserId>): (r: seq<UserId>)
    ensures Distinct(r)
    ensures forall u :: u in r <==> u in s
  {
    if s == [] then []
    else
      var d := Dedup(s[..|s| - 1]);
      if s[|s| - 1] in d then d else d + [s[|s| - 1]]
  }

  /** The elements of `s` that are not bot accounts, in order. */
  function Humans(s: seq<UserId>, isBot: UserId -> bool): (r: seq<UserId>)
    ensures forall u :: u in r <==> u in s && !isBot(u)
    ensures Distinct(s) ==> Distinct(r)
  {
    if s == [] then []
    else
      var h := Humans(s[..|s| - 1], isBot);
      if isBot(s[|s| - 1]) then h else h + [s[|s| - 1]]
  }

  /** The users a `/call` reaches. The bot makes a set of them, whose order is
      the platform's; the model keeps the order of first appearance. */
  function GetPingedUsers(res: Resolved, roleMembers: RoleId -> seq<UserId>, isBot: UserId -> bool): (r: seq<UserId>)
    ensures Distinct(r)
  {
    Humans(Dedup(MentionedUsers(res) + RoleUsers(MentionedRoles(res), roleMembers)), isBot)
  }

  /** Exactly the mentioned users and the members of the mentioned roles
      are reached, and no bot. */
  lemma PingedUsersAre(res: Resolved, roleMembers: RoleId -> seq<UserId>, isBot: UserId -> bool)
    ensures var r := GetPingedUsers(res, roleMembers, isBot);
      && (forall u :: u in r ==> !isBot(u))
      && (forall u :: u in r <==> (u in MentionedUsers(res) || InSomeRole(u, MentionedRoles(res), roleMembers)) && !isBot(u))
  {
  }

  /** A payload without `members` and `roles` keys reaches nobody. */
  lemma NoKeysReachNobody(roleMembers: RoleId -> seq<UserId>, isBot: UserId -> bool)
    ensures GetPingedUsers(Resolved(None, None), roleMembers, isBot) == []
  {
  }
}
