/** The bot object: its per-guild registry of uncallable roles, which the
    slash commands and the call loop read and update in place. */
module Bot {
  import opened Common
  import Decimal
  import Mentions
  import Policy
  import Store
  import Calls

  /** `/call` runs this many rounds of invites. */
  const CallRounds: nat := 5

  const NoTargetsText := "no user/role was provided. use the `/help` command of this bot for more information about how to use it."
  const NotInVoiceText := "You have to be connected to a voice channel to use this command."
  const StartText := "Starting to call."
  const FinishText := "Finishing to call."
  /** `/uncallable` quotes the command name; `/recallable` does not. */
  const NoRoleUncallableText := "no role was provided. use the `/help` command of this bot for more information about how to use it."
  const NoRoleRecallableText := "no role was provided. use the /help command of this bot for more information about how to use it."

  /** The roles of `guild` in `reg`; an absent guild reads as an empty list. */
  function RolesIn(reg: Store.Registry, guild: GuildId): seq<RoleId>
  {
    if guild in reg then reg[guild] else []
  }

  /** The registry after the lazy `if guild not in ...: [] ` step: an absent
      guild gets an empty entry, a present one is left alone. */
  function WithEntry(reg: Store.Registry, guild: GuildId): (r: Store.Registry)
    ensures guild in r && r[guild] == RolesIn(reg, guild)
    ensures forall g :: g != guild ==> (g in r <==> g in reg)
    ensures forall g :: g in reg ==> g in r && r[g] == reg[g]
  {
    reg[guild := RolesIn(reg, guild)]
  }

  /** Creating the entry twice is creating it once. */
  lemma WithEntryIdempotent(reg: Store.Registry, guild: GuildId)
    ensures WithEntry(WithEntry(reg, guild), guild) == WithEntry(reg, guild)
  {
  }

  /** `after` is `before`, possibly with the lazy entry for `guild` added. */
  predicate Grown(before: Store.Registry, after: Store.Registry, guild: GuildId)
  {
    after == before || after == WithEntry(before, guild)
  }

  lemma GrownTwice(a: Store.Registry, b: Store.Registry, c: Store.Registry, guild: GuildId)
    requires Grown(a, b, guild) && Grown(b, c, guild)
    ensures Grown(a, c, guild) && RolesIn(c, guild) == RolesIn(a, guild)
  {
  }

  /** `dict.pop` of a key the table holds once: the table without it. */
  function Pop(table: seq<UserId>, user: UserId): (r: seq<UserId>)
    requires Distinct(table) && user in table
    ensures Distinct(r) && |r| == |table| - 1
    ensures forall u :: u in r <==> u in table && u != user
  {
    WithoutDistinct(table, [user]);
    Policy.UnmarkKeepsOthers(table, user);
    Without(table, [user])
  }

  /** Setting an entry twice keeps the second value. */
  lemma Overwrite(reg: Store.Registry, guild: GuildId, first: seq<RoleId>, second: seq<RoleId>)
    ensures reg[guild := first][guild := second] == reg[guild := second]
  {
  }

  /** Every guild's list is duplicate-free. */
  ghost predicate Distinctness(reg: Store.Registry)
  {
    forall g :: g in reg ==> Distinct(reg[g])
  }

  lemma UpdateKeepsDistinctness(reg: Store.Registry, guild: GuildId, roles: seq<RoleId>)
    requires Distinctness(reg) && Distinct(roles)
    ensures Distinctness(reg[guild := roles])
  {
  }

  /** Both commands keep a duplicate-free list duplicate-free. */
  lemma ApplyAllKeepsDistinct(change: Policy.Change, roles: seq<RoleId>, mentioned: seq<RoleId>, roleName: RoleId -> string)
    requires Distinct(roles)
    ensures Distinct(Policy.ApplyAll(change, roles, mentioned, roleName).roles)
  {
    match change
    case MakeUncallable => Policy.ApplyAllMarksEvery(roles, mentioned, roleName);
    case MakeCallable => Policy.ApplyAllUnmarksEvery(roles, mentioned, roleName);
  }

  class CallInServer {
    var uncallableRoles: Store.Registry

    function RolesOf(guild: GuildId): seq<RoleId>
      reads this
    {
      RolesIn(uncallableRoles, guild)
    }

    /** The registry invariant the commands keep. */
    ghost predicate Valid()
      reads this
    {
      Distinctness(uncallableRoles)
    }

    /** The bot starts with no uncallable roles (the file is read later). */
    constructor ()
      ensures uncallableRoles == map[]
      ensures Valid()
    {
      uncallableRoles := map[];
    }

    /** The lazy step every command starts with: a guild the registry does
        not know gets an empty list. */
    method EnsureEntry(guild: GuildId)
      modifies this
      ensures uncallableRoles == WithEntry(old(uncallableRoles), guild)
      ensures old(Valid()) ==> Valid()
    {
      if guild !in uncallableRoles {
        uncallableRoles := uncallableRoles[guild := []];
      } else {
        assert uncallableRoles == WithEntry(uncallableRoles, guild);
      }
    }

    /** `has_uncallable_role`: whether the user holds a role listed for the
        guild; an absent guild gets an empty entry first. */
    method HasUncallableRole(guild: GuildId, userRoles: seq<RoleId>) returns (b: bool)
      modifies this
      ensures b == Policy.SharesRole(old(RolesOf(guild)), userRoles)
      ensures uncallableRoles == WithEntry(old(uncallableRoles), guild)
      ensures old(Valid()) ==> Valid()
    {
      EnsureEntry(guild);
      var roles := uncallableRoles[guild];
      for i := 0 to |roles|
        invariant forall k :: 0 <= k < i ==> roles[k] !in userRoles
      {
        if roles[i] in userRoles {
          return true;
        }
      }
      return false;
    }

    /** One mentioned role: with `MakeUncallable` a role that is not listed
        is appended, with `MakeCallable` the first occurrence of a listed role
        is removed; the reply says which happened. */
    method ApplyOne(guild: GuildId, change: Policy.Change, role: RoleId, roleName: RoleId -> string)
      returns (reply: string)
      requires guild in uncallableRoles
      modifies this
      ensures var before := old(uncallableRoles[guild]);
        && uncallableRoles == old(uncallableRoles)[guild := Policy.Apply(change, before, role)]
        && reply == Policy.ReplyFor(change, roleName(role), role in before)
    {
      var listed := role in uncallableRoles[guild];
      match change
      case MakeUncallable =>
        if !listed {
          uncallableRoles := uncallableRoles[guild := uncallableRoles[guild] + [role]];
          reply := "The role `" + roleName(role) + "` is now not callable";
        } else {
          reply := "The role `" + roleName(role) + "` is already not callable";
        }
      case MakeCallable =>
        if listed {
          uncallableRoles := uncallableRoles[guild := Policy.Unmark(uncallableRoles[guild], role)];
          reply := "The role `" + roleName(role) + "` is now callable.";
        } else {
          reply := "The role `" + roleName(role) + "` is already callable.";
        }
    }

    /** The loop of `/uncallable` (with `MakeUncallable`) and of
        `/recallable` (with `MakeCallable`): every mentioned role in order,
        one reply each. */
    method ApplyEach(guild: GuildId, change: Policy.Change, mentioned: seq<RoleId>, roleName: RoleId -> string)
      returns (replies: seq<string>)
      requires guild in uncallableRoles
      modifies this
      ensures var a := Policy.ApplyAll(change, old(uncallableRoles[guild]), mentioned, roleName);
        replies == a.replies && uncallableRoles == old(uncallableRoles)[guild := a.roles]
      ensures old(Valid()) ==> Valid()
    {
      ghost var reg0, roles0 := uncallableRoles, uncallableRoles[guild];
      ghost var valid0 := Valid();
      assert reg0[guild := roles0] == reg0;
      replies := [];
      for i := 0 to |mentioned|
        invariant var a := Policy.ApplyAll(change, roles0, mentioned[..i], roleName);
          uncallableRoles == reg0[guild := a.roles] && replies == a.replies
      {
        ghost var a := Policy.ApplyAll(change, roles0, mentioned[..i], roleName);
        Policy.ApplyAllPrefix(change, roles0, mentioned, i, roleName);
        var reply := ApplyOne(guild, change, mentioned[i], roleName);
        replies := replies + [reply];
        Overwrite(reg0, guild, a.roles, uncallableRoles[guild]);
      }
      assert mentioned[..|mentioned|] == mentioned;
      if valid0 {
        ApplyAllKeepsDistinct(change, roles0, mentioned, roleName);
        UpdateKeepsDistinctness(reg0, guild, uncallableRoles[guild]);
      }
    }

    /** `/uncallable`: every mentioned role is appended to the guild's list
        unless it is already there, one reply per role, then the registry is
        saved. Without `resolved` data nothing changes; without a `roles`
        key the lookup raises after the guild entry was created. */
    method Uncallable(guild: GuildId, resolved: Option<Mentions.Resolved>, roleName: RoleId -> string)
      returns (replies: seq<string>, raised: bool, saved: Option<Store.Json>)
      modifies this
      ensures resolved.None? ==>
        replies == [NoRoleUncallableText] && !raised && saved.None? && uncallableRoles == old(uncallableRoles)
      ensures resolved.Some? && resolved.value.roles.None? ==>
        replies == [] && raised && saved.None? && uncallableRoles == WithEntry(old(uncallableRoles), guild)
      ensures resolved.Some? && resolved.value.roles.Some? ==>
        var a := Policy.ApplyAll(Policy.MakeUncallable, old(RolesOf(guild)), resolved.value.roles.value, roleName);
        && replies == a.replies && !raised
        && uncallableRoles == old(uncallableRoles)[guild := a.roles]
        && saved == Some(Store.Encode(uncallableRoles))
      ensures old(Valid()) ==> Valid()
    {
      raised, saved := false, None;
      if resolved.None? {
        replies := [NoRoleUncallableText];
        return;
      }
      EnsureEntry(guild);
      if resolved.value.roles.None? {
        replies, raised := [], true;
        return;
      }
      Overwrite(old(uncallableRoles), guild, old(RolesOf(guild)), Policy.ApplyAll(Policy.MakeUncallable, old(RolesOf(guild)), resolved.value.roles.value, roleName).roles);
      replies := ApplyEach(guild, Policy.MakeUncallable, resolved.value.roles.value, roleName);
      var j := WriteUncallableRolesJson();
      saved := Some(j);
    }

    /** `/recallable`: the first occurrence of every mentioned role that is
        listed is removed, one reply per role, then the registry is saved.
        A missing `roles` key means no role. */
    method Recallable(guild: GuildId, resolved: Option<Mentions.Resolved>, roleName: RoleId -> string)
      returns (replies: seq<string>, saved: Option<Store.Json>)
      modifies this
      ensures resolved.None? ==>
        replies == [NoRoleRecallableText] && saved.None? && uncallableRoles == old(uncallableRoles)
      ensures resolved.Some? ==>
        var a := Policy.ApplyAll(Policy.MakeCallable, old(RolesOf(guild)), Mentions.MentionedRoles(resolved.value), roleName);
        && replies == a.replies
        && uncallableRoles == old(uncallableRoles)[guild := a.roles]
        && saved == Some(Store.Encode(uncallableRoles))
      ensures old(Valid()) ==> Valid()
    {
      saved := None;
      if resolved.None? {
        replies := [NoRoleRecallableText];
        return;
      }
      EnsureEntry(guild);
      var mentioned := [];
      if resolved.value.roles.Some? {
        mentioned := resolved.value.roles.value;
      }
      assert mentioned == Mentions.MentionedRoles(resolved.value);
      Overwrite(old(uncallableRoles), guild, old(RolesOf(guild)), Policy.ApplyAll(Policy.MakeCallable, old(RolesOf(guild)), mentioned, roleName).roles);
      replies := ApplyEach(guild, Policy.MakeCallable, mentioned, roleName);
      var j := WriteUncallableRolesJson();
      saved := Some(j);
    }

    /** `/uncallables`: the reply chosen by how many roles the guild lists. */
    method Uncallables(guild: GuildId, roleName: RoleId -> string) returns (reply: string)
      modifies this
      ensures reply == Policy.UncallablesText(old(RolesOf(guild)), roleName)
      ensures uncallableRoles == WithEntry(old(uncallableRoles), guild)
      ensures old(Valid()) ==> Valid()
    {
      EnsureEntry(guild);
      var roles := uncallableRoles[guild];
      if |roles| == 0 {
        reply := Policy.NoneText;
      } else if |roles| == 1 {
        reply := Policy.OneText + " `" + roleName(roles[0]) + "`.";
      } else {
        var message := Policy.ManyText;
        ghost var reg := uncallableRoles;
        for i := 0 to |roles|
          invariant message == Policy.ManyText + Policy.MentionsWithCommas(roles[..i])
          invariant uncallableRoles == reg
        {
          Policy.MessagePrefix(roles, i);
          message := message + (Policy.RoleMention(roles[i]) + ", ");
        }
        assert roles[..|roles|] == roles;
        reply := message[..|message| - 2] + ".";
      }
    }

    /** `write_uncallable_roles_json`: the object holding, under the decimal
        text of every guild id, that guild's list of role ids. */
    method WriteUncallableRolesJson() returns (j: Store.Json)
      ensures j == Store.Encode(uncallableRoles)
    {
      Decimal.ReadsBackEveryId();
      j := map[];
      var left := uncallableRoles.Keys;
      while left != {}
        invariant left <= uncallableRoles.Keys
        invariant forall g :: g in uncallableRoles && g !in left ==>
          Decimal.NatToString(g) in j && j[Decimal.NatToString(g)] == uncallableRoles[g]
        invariant forall k :: k in j ==>
          Decimal.ParseNat(k).Some? && Decimal.ParseNat(k).value in uncallableRoles && Decimal.ParseNat(k).value !in left
          && k == Decimal.NatToString(Decimal.ParseNat(k).value)
        decreases left
      {
        var guild :| guild in left;
        j := j[Decimal.NatToString(guild) := uncallableRoles[guild]];
        left := left - {guild};
      }
      var e := Store.Encode(uncallableRoles);
      assert j.Keys == e.Keys;
    }

    /** `read_uncallable_roles_json`: the registry is emptied and refilled
        key by key; a key that is not a decimal id raises, leaving the guilds
        read so far. */
    method ReadUncallableRolesJson(j: Store.Json) returns (ok: bool)
      modifies this
      ensures ok <==> Store.Decode(j).Some?
      ensures ok ==> uncallableRoles == Store.Decode(j).value
      ensures forall g :: g in uncallableRoles ==>
        Decimal.NatToString(g) in j && uncallableRoles[g] == j[Decimal.NatToString(g)]
    {
      Decimal.ReadsBackEveryId();
      Decimal.WritesBackEveryText();
      uncallableRoles := map[];
      var left := j.Keys;
      while left != {}
        invariant left <= j.Keys
        invariant forall k :: k in j && k !in left ==>
          Decimal.ParseNat(k).Some? && Decimal.ParseNat(k).value in uncallableRoles
          && uncallableRoles[Decimal.ParseNat(k).value] == j[k]
        invariant forall g :: g in uncallableRoles ==>
          Decimal.NatToString(g) in j && Decimal.NatToString(g) !in left
          && uncallableRoles[g] == j[Decimal.NatToString(g)]
        decreases left
      {
        var key :| key in left;
        var id := Decimal.ParseNat(key);
        if id.None? {
          return false;
        }
        uncallableRoles := uncallableRoles[id.value := j[key]];
        left := left - {key};
      }
      ok := true;
      var d := Store.Decode(j).value;
      assert uncallableRoles.Keys == d.Keys;
    }

    /** The body of the inner loop of `send_n_invites` for one target: an
        invite when the target passes the test (a refusal drops the target
        with a message, any other failure raises), otherwise the target is
        dropped with the message for the first test it fails. */
    method VisitTarget(guild: GuildId, env: Calls.Env, round: nat, user: UserId, p: Calls.Pass) returns (q: Calls.Pass)
      requires p.raised.None?
      modifies this
      ensures q == Calls.Visit(env, old(RolesOf(guild)), round, p, user)
      ensures Grown(old(uncallableRoles), uncallableRoles, guild)
      ensures old(Valid()) ==> Valid()
    {
      var authorVc := env.authorVc;
      var state := env.state(round, user);
      var messages, notToCall, attempts := p.messages, p.notToCall, p.attempts;
      var callable := !Calls.InAuthorVc(state, authorVc) && state.status == Calls.Online;
      if callable {
        var holds := HasUncallableRole(guild, state.roles);
        callable := !holds;
      }
      if callable {
        attempts := attempts + [Calls.AttemptFor(env, round, user)];
        match env.deliver(round, user)
        case Delivered =>
        case Forbidden =>
          messages := messages + [Calls.Message(user, Calls.BlockedBot)];
          notToCall := notToCall + [user];
        case OtherError =>
          return Calls.Pass(messages, notToCall, attempts, Some(user));
      } else {
        if state.status != Calls.Online {
          messages := messages + [Calls.Message(user, Calls.StatusIs(state.status))];
        } else if Calls.InAuthorVc(state, authorVc) {
          messages := messages + [Calls.Message(user, Calls.AlreadyConnected)];
        } else {
          var holds := HasUncallableRole(guild, state.roles);
          if holds {
            messages := messages + [Calls.Message(user, Calls.HoldsUncallableRole)];
          }
        }
        notToCall := notToCall + [user];
      }
      q := Calls.Pass(messages, notToCall, attempts, None);
    }

    /** The inner loop of one round of `send_n_invites`: every target of the
        snapshot in order, until a DM raises. */
    method PassOver(guild: GuildId, env: Calls.Env, round: nat, snapshot: seq<UserId>, p0: Calls.Pass)
      returns (p: Calls.Pass)
      requires p0.raised.None?
      modifies this
      ensures p == Calls.VisitAll(env, old(RolesOf(guild)), round, snapshot, p0)
      ensures Grown(old(uncallableRoles), uncallableRoles, guild)
      ensures old(Valid()) ==> Valid()
    {
      ghost var unc := RolesOf(guild);
      ghost var reg0 := uncallableRoles;
      ghost var valid0 := Valid();
      p := p0;
      var i := 0;
      while i < |snapshot|
        invariant 0 <= i <= |snapshot|
        invariant Calls.VisitAll(env, unc, round, snapshot[..i], p0) == p && p.raised.None?
        invariant RolesOf(guild) == unc && Grown(reg0, uncallableRoles, guild)
        invariant valid0 ==> Valid()
      {
        Calls.VisitAllPrefix(env, unc, round, snapshot, i, p0);
        ghost var reg := uncallableRoles;
        p := VisitTarget(guild, env, round, snapshot[i], p);
        GrownTwice(reg0, reg, uncallableRoles, guild);
        if p.raised.Some? {
          Calls.RaisedSticks(env, unc, round, snapshot, i + 1, p0);
          return;
        }
        i := i + 1;
      }
      assert snapshot[..|snapshot|] == snapshot;
    }

    /** `send_n_invites`: up to `n` rounds over the table of targets. In each
        round every target still in the table gets an invite or is removed
        with a message; the removals happen after the round, and the round
        ends by checking that the caller is still in the channel. */
    method SendNInvites(guild: GuildId, env: Calls.Env, n: nat, targets: seq<UserId>)
      returns (outcome: Calls.Outcome, attempts: seq<Calls.Attempt>)
      requires Distinct(targets)
      modifies this
      ensures var run := Calls.SendNInvites(env, old(RolesOf(guild)), n, targets);
        outcome == run.outcome && attempts == run.attempts
      ensures Grown(old(uncallableRoles), uncallableRoles, guild)
      ensures old(Valid()) ==> Valid()
    {
      ghost var unc := RolesOf(guild);
      ghost var reg0 := uncallableRoles;
      ghost var valid0 := Valid();
      var table := targets;
      var messages: seq<Calls.Message> := [];
      attempts := [];
      var round := 0;
      while round < n
        invariant Distinct(table)
        invariant Calls.Rounds(env, unc, n, round, table, messages, attempts) == Calls.SendNInvites(env, unc, n, targets)
        invariant RolesOf(guild) == unc && Grown(reg0, uncallableRoles, guild)
        invariant valid0 ==> Valid()
        decreases n - round
      {
        ghost var reg := uncallableRoles;
        var p, rest := PlayRound(guild, env, round, table, messages, attempts);
        GrownTwice(reg0, reg, uncallableRoles, guild);
        if p.raised.Some? {
          Calls.RoundRaises(env, unc, n, round, table, messages, attempts, p);
          return Calls.Raised(round, p.raised.value), p.attempts;
        }
        Calls.RoundStep(env, unc, n, round, table, messages, attempts, p);
        table, messages, attempts := rest, p.messages, p.attempts;
        if env.callerAfter(round) != Some(env.authorVc) {
          return Calls.Returned(messages), attempts;
        }
        round := round + 1;
      }
      outcome := Calls.Returned(messages);
    }

    /** One round of `send_n_invites`: the pass over the table, then, when
        no DM raised, the pops of the targets the pass dropped. */
    method PlayRound(guild: GuildId, env: Calls.Env, round: nat, table: seq<UserId>,
                     messages: seq<Calls.Message>, attempts: seq<Calls.Attempt>)
      returns (p: Calls.Pass, rest: seq<UserId>)
      requires Distinct(table)
      modifies this
      ensures p == Calls.VisitAll(env, old(RolesOf(guild)), round, table, Calls.Pass(messages, [], attempts, None))
      ensures p.raised.None? ==> rest == Without(table, p.notToCall) && Distinct(rest)
      ensures Grown(old(uncallableRoles), uncallableRoles, guild)
      ensures old(Valid()) ==> Valid()
    {
      p := PassOver(guild, env, round, table, Calls.Pass(messages, [], attempts, None));
      rest := table;
      if p.raised.None? {
        Calls.PassDrops(env, old(RolesOf(guild)), round, table, messages, attempts);
        rest := PopAll(table, p.notToCall);
      }
    }

    /** The pops at the end of a round: each dropped target leaves the
        table. The targets to drop are distinct and all in the table, so no
        pop misses its key. */
    static method PopAll(table: seq<UserId>, drop: seq<UserId>) returns (rest: seq<UserId>)
      requires Distinct(table) && Distinct(drop)
      requires forall u :: u in drop ==> u in table
      ensures rest == Without(table, drop)
      ensures Distinct(rest) && |rest| + |drop| == |table|
    {
      rest := table;
      WithoutNone(table);
      for k := 0 to |drop|
        invariant rest == Without(table, drop[..k])
        invariant Distinct(rest) && |rest| + k == |table|
      {
        var user := drop[k];
        assert drop[..k + 1] == drop[..k] + [user];
        assert user !in drop[..k];
        assert user in rest;
        WithoutTwice(table, drop[..k], [user]);
        rest := Pop(rest, user);
      }
      assert drop[..|drop|] == drop;
    }

    /** The text `call` builds from the messages: each on a line of its own. */
    static method Report(ms: seq<Calls.Message>) returns (report: string)
      ensures report == Calls.Lines(ms)
    {
      report := "";
      for i := 0 to |ms|
        invariant report == Calls.Lines(ms[..i])
      {
        Calls.LinesPrefix(ms, i);
        report := report + "\n" + Calls.MessageText(ms[i]);
      }
      assert ms[..|ms|] == ms;
    }

    /** The part of `/call` after its checks: five rounds of invites for
        the channel the caller is in, then the report of who was not called. */
    method RunCall(guild: GuildId, env: Calls.Env, usersToCall: seq<UserId>)
      returns (replies: seq<string>, attempts: seq<Calls.Attempt>, raised: bool)
      requires Distinct(usersToCall)
      modifies this
      ensures var run := Calls.SendNInvites(env, old(RolesOf(guild)), CallRounds, usersToCall);
        && attempts == run.attempts
        && (run.outcome.Raised? ==> raised && replies == [StartText])
        && (run.outcome.Returned? ==>
              var report := Calls.DidntCall(run.outcome.messages);
              !raised && replies == [StartText, FinishText] + (if report.Some? then [report.value] else []))
      ensures Grown(old(uncallableRoles), uncallableRoles, guild)
      ensures old(Valid()) ==> Valid()
    {
      replies, raised := [StartText], false;
      var outcome;
      outcome, attempts := SendNInvites(guild, env, CallRounds, usersToCall);
      if outcome.Raised? {
        raised := true;
        return;
      }
      var report := Report(outcome.messages);
      replies := replies + [FinishText];
      if report != "" {
        replies := replies + ["Didn't call: " + report];
      }
    }

    /** `/call`: resolve the targets, check that the caller is in voice, run
        five rounds of invites, then report who was not called. The caller's
        channel at the start is the channel invites are for. */
    method Call(guild: GuildId, resolved: Option<Mentions.Resolved>, roleMembers: RoleId -> seq<UserId>,
                isBot: UserId -> bool, callerVoice: Option<ChannelId>, env: Calls.Env)
      returns (replies: seq<string>, attempts: seq<Calls.Attempt>, raised: bool)
      modifies this
      ensures resolved.None? ==>
        replies == [NoTargetsText] && attempts == [] && !raised && uncallableRoles == old(uncallableRoles)
      ensures resolved.Some? && callerVoice.None? ==>
        replies == [NotInVoiceText] && attempts == [] && !raised && uncallableRoles == old(uncallableRoles)
      ensures resolved.Some? && callerVoice.Some? ==>
        var run := Calls.SendNInvites(env.(authorVc := callerVoice.value), old(RolesOf(guild)), CallRounds,
                                      Mentions.GetPingedUsers(resolved.value, roleMembers, isBot));
        && attempts == run.attempts
        && (run.outcome.Raised? ==> raised && replies == [StartText])
        && (run.outcome.Returned? ==>
              var report := Calls.DidntCall(run.outcome.messages);
              !raised && replies == [StartText, FinishText] + (if report.Some? then [report.value] else []))
        && Grown(old(uncallableRoles), uncallableRoles, guild)
      ensures old(Valid()) ==> Valid()
    {
      attempts, raised := [], false;
      if resolved.None? {
        replies := [NoTargetsText];
        return;
      }
      var usersToCall := Mentions.GetPingedUsers(resolved.value, roleMembers, isBot);
      if callerVoice.None? {
        replies := [NotInVoiceText];
        return;
      }
      replies, attempts, raised := RunCall(guild, env.(authorVc := callerVoice.value), usersToCall);
    }
  }
}
