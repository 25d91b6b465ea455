/** The specification of `send_n_invites`: up to `n` rounds over the table of
    remaining targets. In each round every remaining target either gets an
    invite (and stays) or is removed with one reason message; after the round
    the caller must still be in the voice channel they started in.

    The platform is given as data: what each target looks like in each round,
    where the caller is after each round's pause, the invite code the platform
    mints, and what delivering the DM does. */
module Calls {
  import opened Common
  import Decimal
  import Policy

  /** The presence a member shows (`discord.Status`). */
  datatype Status = Online | Offline | Idle | Dnd | Invisible

  /** `str` of a status, as it appears inside a reason message. */
  function StatusName(s: Status): string
  {
    match s
    case Online => "online"
    case Offline => "offline"
    case Idle => "idle"
    case Dnd => "dnd"
    case Invisible => "invisible"
  }

  /** A target as seen in one round: its voice channel (None when it is not
      connected), its status and its roles. */
  datatype UserState = UserState(voice: Option<ChannelId>, status: Status, roles: seq<RoleId>)

  /** What sending the DM does: it arrives, the platform refuses it
      (`discord.errors.Forbidden`), or any other error is raised. */
  datatype Delivery = Delivered | Forbidden | OtherError

  datatype Env = Env(
    authorVc: ChannelId,                    // the caller's channel when calling starts
    callerName: string,                     // the caller's display name
    state: (nat, UserId) -> UserState,      // a target in a given round
    callerAfter: nat -> Option<ChannelId>,  // the caller's channel after a round's pause
    inviteCode: (nat, UserId) -> string,    // the code of the invite minted for a target in a round
    deliver: (nat, UserId) -> Delivery)     // the fate of that target's DM in that round

  // ------------------------------------------------------------------
  // Invites and DMs.

  const InviteMaxUses: nat := 1
  const InviteMaxAge: nat := 60 * 5

  datatype Invite = Invite(channel: ChannelId, maxUses: nat, maxAge: nat, code: string)

  /** The invite `send_dms` creates before each DM: single use, five minutes. */
  function CreateInvite(channel: ChannelId, code: string): Invite
  {
    Invite(channel, InviteMaxUses, InviteMaxAge, code)
  }

  /** `str` of an invite: its public link. */
  function InviteUrl(invite: Invite): string
  {
    "https://discord.gg/" + invite.code
  }

  function DmText(callerName: string, invite: Invite): string
  {
    "`" + callerName + "` is calling you on " + InviteUrl(invite)
  }

  /** One try at calling a target: the invite and the DM text that carries it. */
  datatype Attempt = Attempt(round: nat, user: UserId, invite: Invite, text: string)

  /** What `send_dms` does for `u` in round `r`. Every round that runs starts
      with the caller in `authorVc` (the first by definition, later ones because
      the check after the previous round let them run), so the invite is for
      that channel. */
  function AttemptFor(env: Env, r: nat, u: UserId): Attempt
  {
    var invite := CreateInvite(env.authorVc, env.inviteCode(r, u));
    Attempt(r, u, invite, DmText(env.callerName, invite))
  }

  // ------------------------------------------------------------------
  // Classifying a target.

  predicate InAuthorVc(s: UserState, authorVc: ChannelId)
  {
    s.voice == Some(authorVc)
  }

  /** The test that gates an invite: not already in the caller's channel,
      online, and holding no uncallable role. */
  predicate Eligible(s: UserState, authorVc: ChannelId, holdsUncallable: bool)
  {
    !InAuthorVc(s, authorVc) && s.status == Online && !holdsUncallable
  }

  datatype Reason = StatusIs(status: Status) | AlreadyConnected | HoldsUncallableRole | BlockedBot

  datatype Message = Message(user: UserId, reason: Reason)

  /** The reason given to a target that failed the test, tried in the order
      the code tries them: status, then the channel, then the roles. Failing
      the test always selects exactly one reason, so the code's branch
      without a message is never taken. */
  function Exclusion(s: UserState, authorVc: ChannelId, holdsUncallable: bool): (r: Option<Reason>)
    ensures r.None? <==> Eligible(s, authorVc, holdsUncallable)
    ensures s.status != Online ==> r == Some(StatusIs(s.status))
    ensures s.status == Online && InAuthorVc(s, authorVc) ==> r == Some(AlreadyConnected)
    ensures s.status == Online && !InAuthorVc(s, authorVc) && holdsUncallable ==> r == Some(HoldsUncallableRole)
  {
    if s.status != Online then Some(StatusIs(s.status))
    else if InAuthorVc(s, authorVc) then Some(AlreadyConnected)
    else if holdsUncallable then Some(HoldsUncallableRole)
    else None
  }

  /** `user.mention` for a member. */
  function Mention(u: UserId): string
  {
    "<@" + Decimal.NatToString(u) + ">"
  }

  /** The line reported for a target that was not called; it starts by
      naming the target. */
  function MessageText(m: Message): (s: string)
    ensures "\t" + Mention(m.user) + " because " <= s
  {
    match m.reason
    case BlockedBot => "\t" + Mention(m.user) + " because they blocked this bot." + "\U{1F6AB}"
    case StatusIs(st) => "\t" + Mention(m.user) + " because their status is" + " `" + StatusName(st) + "`. \U{274C}"
    case AlreadyConnected => "\t" + Mention(m.user) + " because they are already" + " connected. \U{2705}"
    case HoldsUncallableRole => "\t" + Mention(m.user) + " because they have an" + " uncallable role. \U{1F4F5}"
  }

  function Users(ms: seq<Message>): (us: seq<UserId>)
    ensures |us| == |ms| && forall i :: 0 <= i < |ms| ==> us[i] == ms[i].user
  {
    if ms == [] then [] else Users(ms[..|ms| - 1]) + [ms[|ms| - 1].user]
  }

  lemma {:induction false} UsersAppend(a: seq<Message>, b: seq<Message>)
    ensures Users(a + b) == Users(a) + Users(b)
  {
  }

  // ------------------------------------------------------------------
  // One pass over the table.

  /** The bookkeeping of one round: the messages so far (they accumulate over
      all rounds), the targets to remove at the end of this round, the invites
      tried so far, and the target whose DM raised, if any. */
  datatype Pass = Pass(messages: seq<Message>, notToCall: seq<UserId>, attempts: seq<Attempt>, raised: Option<UserId>)

  function HoldsUncallable(env: Env, unc: seq<RoleId>, r: nat, u: UserId): bool
  {
    Policy.SharesRole(unc, env.state(r, u).roles)
  }

  predicate EligibleAt(env: Env, unc: seq<RoleId>, r: nat, u: UserId)
  {
    Eligible(env.state(r, u), env.authorVc, HoldsUncallable(env, unc, r, u))
  }

  /** The body of the inner loop for target `u`; once a DM has raised,
      nothing more happens. */
  function Visit(env: Env, unc: seq<RoleId>, r: nat, p: Pass, u: UserId): Pass
  {
    if p.raised.Some? then p
    else if EligibleAt(env, unc, r, u) then
      var q := p.(attempts := p.attempts + [AttemptFor(env, r, u)]);
      match env.deliver(r, u)
      case Delivered => q
      case Forbidden => q.(messages := q.messages + [Message(u, BlockedBot)], notToCall := q.notToCall + [u])
      case OtherError => q.(raised := Some(u))
    else
      var q := p.(notToCall := p.notToCall + [u]);
      match Exclusion(env.state(r, u), env.authorVc, HoldsUncallable(env, unc, r, u))
      case Some(reason) => q.(messages := q.messages + [Message(u, reason)])
      case None => q
  }

  /** The inner loop over the targets `todo`, in order. */
  function VisitAll(env: Env, unc: seq<RoleId>, r: nat, todo: seq<UserId>, p: Pass): Pass
  {
    if todo == [] then p else Visit(env, unc, r, VisitAll(env, unc, r, todo[..|todo| - 1], p), todo[|todo| - 1])
  }

  /** The loop over the first `i + 1` targets is the loop over the first
      `i`, then target `i`. */
  lemma VisitAllPrefix(env: Env, unc: seq<RoleId>, r: nat, todo: seq<UserId>, i: nat, p: Pass)
    requires i < |todo|
    ensures VisitAll(env, unc, r, todo[..i + 1], p) == Visit(env, unc, r, VisitAll(env, unc, r, todo[..i], p), todo[i])
  {
    assert todo[..i + 1][..i] == todo[..i];
  }

  /** A target leaves the table in round `r`: it failed the test, or it
      refused the DM. */
  predicate Drops(env: Env, unc: seq<RoleId>, r: nat, u: UserId)
  {
    !EligibleAt(env, unc, r, u) || env.deliver(r, u) == Forbidden
  }

  /** A target's DM raises in round `r`. */
  predicate Raises(env: Env, unc: seq<RoleId>, r: nat, u: UserId)
  {
    EligibleAt(env, unc, r, u) && env.deliver(r, u) == OtherError
  }

  /** The reason reported for a target that leaves in round `r`. */
  function ReasonAt(env: Env, unc: seq<RoleId>, r: nat, u: UserId): Reason
    requires Drops(env, unc, r, u)
  {
    if EligibleAt(env, unc, r, u) then BlockedBot
    else Exclusion(env.state(r, u), env.authorVc, HoldsUncallable(env, unc, r, u)).value
  }

  /** The targets of `todo` that leave in round `r`, in order. */
  function Dropped(env: Env, unc: seq<RoleId>, r: nat, todo: seq<UserId>): (d: seq<UserId>)
    ensures forall u :: u in d <==> u in todo && Drops(env, unc, r, u)
  {
    if todo == [] then []
    else
      var last := todo[|todo| - 1];
      Dropped(env, unc, r, todo[..|todo| - 1]) + (if Drops(env, unc, r, last) then [last] else [])
  }

  /** A distinct table yields a distinct list of targets to drop: no key is
      popped twice. */
  lemma {:induction false} DroppedDistinct(env: Env, unc: seq<RoleId>, r: nat, todo: seq<UserId>)
    requires Distinct(todo)
    ensures Distinct(Dropped(env, unc, r, todo))
  {
    if todo != [] {
      var init := todo[..|todo| - 1];
      assert Distinct(init);
      DroppedDistinct(env, unc, r, init);
    }
  }

  /** The targets of `todo` that stay after round `r`, in order. */
  function Kept(env: Env, unc: seq<RoleId>, r: nat, todo: seq<UserId>): (k: seq<UserId>)
    ensures forall u :: u in k <==> u in todo && !Drops(env, unc, r, u)
  {
    if todo == [] then []
    else
      var last := todo[|todo| - 1];
      Kept(env, unc, r, todo[..|todo| - 1]) + (if Drops(env, unc, r, last) then [] else [last])
  }

  /** The messages round `r` adds: one for every target that leaves. */
  function Reports(env: Env, unc: seq<RoleId>, r: nat, todo: seq<UserId>): seq<Message>
  {
    if todo == [] then []
    else
      var last := todo[|todo| - 1];
      Reports(env, unc, r, todo[..|todo| - 1]) + (if Drops(env, unc, r, last) then [Message(last, ReasonAt(env, unc, r, last))] else [])
  }

  /** The invites round `r` tries: one for every target that passes the test. */
  function Tried(env: Env, unc: seq<RoleId>, r: nat, todo: seq<UserId>): seq<Attempt>
  {
    if todo == [] then []
    else
      var last := todo[|todo| - 1];
      Tried(env, unc, r, todo[..|todo| - 1]) + (if EligibleAt(env, unc, r, last) then [AttemptFor(env, r, last)] else [])
  }

  /** A round in which no DM raises adds exactly one message per removed
      target, removes exactly the targets that leave, and tries an invite for
      exactly the targets that pass the test. */
  lemma {:induction false} PassWithoutRaise(env: Env, unc: seq<RoleId>, r: nat, todo: seq<UserId>, m0: seq<Message>, t0: seq<UserId>, a0: seq<Attempt>)
    requires forall u :: u in todo ==> !Raises(env, unc, r, u)
    ensures VisitAll(env, unc, r, todo, Pass(m0, t0, a0, None))
      == Pass(m0 + Reports(env, unc, r, todo), t0 + Dropped(env, unc, r, todo), a0 + Tried(env, unc, r, todo), None)
  {
    if todo != [] {
      var init, last := todo[..|todo| - 1], todo[|todo| - 1];
      assert forall u :: u in init ==> u in todo;
      PassWithoutRaise(env, unc, r, init, m0, t0, a0);
      var m, t, a := m0 + Reports(env, unc, r, init), t0 + Dropped(env, unc, r, init), a0 + Tried(env, unc, r, init);
      VisitLast(env, unc, r, last, m, t, a);
      Associative(m0, Reports(env, unc, r, init), if Drops(env, unc, r, last) then [Message(last, ReasonAt(env, unc, r, last))] else []);
      Associative(t0, Dropped(env, unc, r, init), if Drops(env, unc, r, last) then [last] else []);
      Associative(a0, Tried(env, unc, r, init), if EligibleAt(env, unc, r, last) then [AttemptFor(env, r, last)] else []);
    }
  }

  /** One visit of a target whose DM does not raise. */
  lemma VisitLast(env: Env, unc: seq<RoleId>, r: nat, u: UserId, m: seq<Message>, t: seq<UserId>, a: seq<Attempt>)
    requires !Raises(env, unc, r, u)
    ensures Visit(env, unc, r, Pass(m, t, a, None), u) == Pass(
      m + (if Drops(env, unc, r, u) then [Message(u, ReasonAt(env, unc, r, u))] else []),
      t + (if Drops(env, unc, r, u) then [u] else []),
      a + (if EligibleAt(env, unc, r, u) then [AttemptFor(env, r, u)] else []),
      None)
  {
  }

  /** A round raises exactly when some target's DM raises, and then it is
      such a target that is named. */
  lemma {:induction false} PassRaise(env: Env, unc: seq<RoleId>, r: nat, todo: seq<UserId>, p: Pass)
    requires p.raised.None?
    ensures var q := VisitAll(env, unc, r, todo, p);
      && (q.raised.Some? <==> exists u :: u in todo && Raises(env, unc, r, u))
      && (q.raised.Some? ==> q.raised.value in todo && Raises(env, unc, r, q.raised.value))
  {
    if todo != [] {
      var init, last := todo[..|todo| - 1], todo[|todo| - 1];
      PassRaise(env, unc, r, init, p);
      assert forall u :: u in todo <==> u in init || u == last by {
        assert todo == init + [last];
      }
      var q0 := VisitAll(env, unc, r, init, p);
      assert VisitAll(env, unc, r, todo, p) == Visit(env, unc, r, q0, last);
      if q0.raised.None? {
        assert Visit(env, unc, r, q0, last).raised.Some? <==> Raises(env, unc, r, last);
        assert Visit(env, unc, r, q0, last).raised.Some? ==> Visit(env, unc, r, q0, last).raised.value == last;
      }
    }
  }

  /** Once a DM has raised, the rest of the round changes nothing. */
  lemma {:induction false} RaisedSticks(env: Env, unc: seq<RoleId>, r: nat, todo: seq<UserId>, i: nat, p: Pass)
    requires i <= |todo| && VisitAll(env, unc, r, todo[..i], p).raised.Some?
    ensures VisitAll(env, unc, r, todo, p) == VisitAll(env, unc, r, todo[..i], p)
    decreases |todo| - i
  {
    if i < |todo| {
      assert todo[..i + 1][..i] == todo[..i];
      RaisedSticks(env, unc, r, todo, i + 1, p);
    } else {
      assert todo[..i] == todo;
    }
  }

  /** The messages of a round name exactly the targets it removes. */
  lemma {:induction false} ReportsName(env: Env, unc: seq<RoleId>, r: nat, todo: seq<UserId>)
    ensures Users(Reports(env, unc, r, todo)) == Dropped(env, unc, r, todo)
  {
    if todo != [] {
      var init, last := todo[..|todo| - 1], todo[|todo| - 1];
      ReportsName(env, unc, r, init);
      UsersAppend(Reports(env, unc, r, init), if Drops(env, unc, r, last) then [Message(last, ReasonAt(env, unc, r, last))] else []);
    }
  }

  /** Every target of a round either leaves or stays, never both. */
  lemma {:induction false} DroppedKeptPartition(env: Env, unc: seq<RoleId>, r: nat, todo: seq<UserId>)
    ensures multiset(Dropped(env, unc, r, todo)) + multiset(Kept(env, unc, r, todo)) == multiset(todo)
    ensures Without(todo, Dropped(env, unc, r, todo)) == Kept(env, unc, r, todo)
  {
    WithoutDroppedIsKept(env, unc, r, todo, Dropped(env, unc, r, todo));
    DroppedKeptCount(env, unc, r, todo);
  }

  lemma {:induction false} DroppedKeptCount(env: Env, unc: seq<RoleId>, r: nat, todo: seq<UserId>)
    ensures multiset(Dropped(env, unc, r, todo)) + multiset(Kept(env, unc, r, todo)) == multiset(todo)
  {
    if todo != [] {
      var init, last := todo[..|todo| - 1], todo[|todo| - 1];
      assert todo == init + [last];
      DroppedKeptCount(env, unc, r, init);
      var d, k := Dropped(env, unc, r, init), Kept(env, unc, r, init);
      if Drops(env, unc, r, last) {
        assert Dropped(env, unc, r, todo) == d + [last];
        assert Kept(env, unc, r, todo) == k;
      } else {
        assert Dropped(env, unc, r, todo) == d;
        assert Kept(env, unc, r, todo) == k + [last];
      }
    }
  }

  lemma {:induction false} WithoutDroppedIsKept(env: Env, unc: seq<RoleId>, r: nat, s: seq<UserId>, d: seq<UserId>)
    requires forall u :: u in s ==> (u in d <==> Drops(env, unc, r, u))
    ensures Without(s, d) == Kept(env, unc, r, s)
  {
    if s != [] {
      WithoutDroppedIsKept(env, unc, r, s[..|s| - 1], d);
    }
  }

  lemma {:induction false} TriedAreEligible(env: Env, unc: seq<RoleId>, r: nat, todo: seq<UserId>)
    ensures forall a :: a in Tried(env, unc, r, todo) ==> a.user in todo && a == AttemptFor(env, r, a.user) && EligibleAt(env, unc, r, a.user)
    ensures forall u :: u in todo && EligibleAt(env, unc, r, u) ==> AttemptFor(env, r, u) in Tried(env, unc, r, todo)
  {
    if todo != [] {
      var init, last := todo[..|todo| - 1], todo[|todo| - 1];
      TriedAreEligible(env, unc, r, init);
      assert forall u :: u in todo <==> u in init || u == last by {
        assert todo == init + [last];
      }
    }
  }

  // ------------------------------------------------------------------
  // The rounds.

  /** How `send_n_invites` ends: it returns the messages, or a DM raised in
      the given round for the given target (the exception leaves the loop and
      the command, and no message is returned). */
  datatype Outcome = Returned(messages: seq<Message>) | Raised(round: nat, user: UserId)

  /** The outcome, the table left at the end, and every invite tried. */
  datatype Run = Run(outcome: Outcome, remaining: seq<UserId>, attempts: seq<Attempt>)

  /** Rounds `r` to `n - 1`, from the table and the results so far. After
      each round (and its pause) the caller's channel is checked; leaving or
      switching channel ends the loop. An empty table does not. */
  function Rounds(env: Env, unc: seq<RoleId>, n: nat, r: nat, table: seq<UserId>, messages: seq<Message>, attempts: seq<Attempt>): Run
    decreases n - r
  {
    if r >= n then Run(Returned(messages), table, attempts)
    else
      var p := VisitAll(env, unc, r, table, Pass(messages, [], attempts, None));
      if p.raised.Some? then Run(Raised(r, p.raised.value), table, p.attempts)
      else
        var rest := Without(table, p.notToCall);
        if env.callerAfter(r) != Some(env.authorVc) then Run(Returned(p.messages), rest, p.attempts)
        else Rounds(env, unc, n, r + 1, rest, p.messages, p.attempts)
  }

  /** The targets a round drops are distinct and all in the table, so
      popping each of them finds its key. */
  lemma PassDrops(env: Env, unc: seq<RoleId>, r: nat, table: seq<UserId>, messages: seq<Message>, attempts: seq<Attempt>)
    requires Distinct(table)
    requires VisitAll(env, unc, r, table, Pass(messages, [], attempts, None)).raised.None?
    ensures var p := VisitAll(env, unc, r, table, Pass(messages, [], attempts, None));
      Distinct(p.notToCall) && forall u :: u in p.notToCall ==> u in table
  {
    PassRaise(env, unc, r, table, Pass(messages, [], attempts, None));
    PassWithoutRaise(env, unc, r, table, messages, [], attempts);
    assert [] + Dropped(env, unc, r, table) == Dropped(env, unc, r, table);
    DroppedDistinct(env, unc, r, table);
  }

  /** One round that does not raise, unfolded: it removes the targets it
      dropped and either stops (the caller left) or goes on to the next. */
  lemma RoundStep(env: Env, unc: seq<RoleId>, n: nat, r: nat, table: seq<UserId>, messages: seq<Message>, attempts: seq<Attempt>, p: Pass)
    requires r < n
    requires p == VisitAll(env, unc, r, table, Pass(messages, [], attempts, None)) && p.raised.None?
    ensures env.callerAfter(r) != Some(env.authorVc) ==>
      Rounds(env, unc, n, r, table, messages, attempts) == Run(Returned(p.messages), Without(table, p.notToCall), p.attempts)
    ensures env.callerAfter(r) == Some(env.authorVc) ==>
      Rounds(env, unc, n, r, table, messages, attempts) == Rounds(env, unc, n, r + 1, Without(table, p.notToCall), p.messages, p.attempts)
  {
  }

  /** A round that raises ends the run with the attempts made so far. */
  lemma RoundRaises(env: Env, unc: seq<RoleId>, n: nat, r: nat, table: seq<UserId>, messages: seq<Message>, attempts: seq<Attempt>, p: Pass)
    requires r < n
    requires p == VisitAll(env, unc, r, table, Pass(messages, [], attempts, None)) && p.raised.Some?
    ensures Rounds(env, unc, n, r, table, messages, attempts) == Run(Raised(r, p.raised.value), table, p.attempts)
  {
  }

  /** `send_n_invites(n)` with `unc` the guild's uncallable roles. */
  function SendNInvites(env: Env, unc: seq<RoleId>, n: nat, targets: seq<UserId>): Run
  {
    Rounds(env, unc, n, 0, targets, [], [])
  }

  /** Conservation over one round that does not raise: the table left plus
      the messages added are the table the round started with. */
  lemma RoundConserves(env: Env, unc: seq<RoleId>, r: nat, table: seq<UserId>, messages: seq<Message>, attempts: seq<Attempt>)
    requires VisitAll(env, unc, r, table, Pass(messages, [], attempts, None)).raised.None?
    ensures var p := VisitAll(env, unc, r, table, Pass(messages, [], attempts, None));
      multiset(Users(p.messages)) + multiset(Without(table, p.notToCall)) == multiset(Users(messages)) + multiset(table)
  {
    PassRaise(env, unc, r, table, Pass(messages, [], attempts, None));
    PassWithoutRaise(env, unc, r, table, messages, [], attempts);
    var p := VisitAll(env, unc, r, table, Pass(messages, [], attempts, None));
    var d := Dropped(env, unc, r, table);
    assert [] + d == d;
    assert p.notToCall == d;
    ReportsName(env, unc, r, table);
    UsersAppend(messages, Reports(env, unc, r, table));
    assert Users(p.messages) == Users(messages) + d;
    DroppedKeptPartition(env, unc, r, table);
  }

  /** Conservation: when the loop returns, every target was either reported
      or is still in the table, and none is counted twice. */
  lemma {:induction false} RoundsConserve(env: Env, unc: seq<RoleId>, n: nat, r: nat, table: seq<UserId>, messages: seq<Message>, attempts: seq<Attempt>)
    ensures var run := Rounds(env, unc, n, r, table, messages, attempts);
      run.outcome.Returned? ==>
        multiset(Users(run.outcome.messages)) + multiset(run.remaining) == multiset(Users(messages)) + multiset(table)
    decreases n - r
  {
    if r < n {
      var p := VisitAll(env, unc, r, table, Pass(messages, [], attempts, None));
      if p.raised.None? {
        RoundConserves(env, unc, r, table, messages, attempts);
        RoundStep(env, unc, n, r, table, messages, attempts, p);
        if env.callerAfter(r) == Some(env.authorVc) {
          RoundsConserve(env, unc, n, r + 1, Without(table, p.notToCall), p.messages, p.attempts);
        }
      }
    }
  }

  /** Every target of `send_n_invites` is reported at most once, and the
      number of reports plus the number still in the table is the number of
      targets. */
  lemma SendNInvitesConserves(env: Env, unc: seq<RoleId>, n: nat, targets: seq<UserId>)
    requires Distinct(targets)
    ensures var run := SendNInvites(env, unc, n, targets);
      run.outcome.Returned? ==>
        && multiset(Users(run.outcome.messages)) + multiset(run.remaining) == multiset(targets)
        && |run.outcome.messages| + |run.remaining| == |targets|
        && Distinct(Users(run.outcome.messages))
  {
    var run := SendNInvites(env, unc, n, targets);
    RoundsConserve(env, unc, n, 0, targets, [], []);
    if run.outcome.Returned? {
      var us := Users(run.outcome.messages);
      assert multiset(us) + multiset(run.remaining) == multiset(targets);
      assert |multiset(us)| + |multiset(run.remaining)| == |multiset(targets)|;
      DistinctSub(us, targets);
    }
  }

  lemma {:induction false} DistinctByCount(s: seq<UserId>)
    requires Distinct(s)
    ensures forall x :: multiset(s)[x] <= 1
  {
    if s != [] {
      var init, last := s[..|s| - 1], s[|s| - 1];
      assert Distinct(init);
      DistinctByCount(init);
      assert s == init + [last];
      assert forall k :: 0 <= k < |init| ==> init[k] == s[k] && s[k] != last;
      assert last !in init;
    }
  }

  /** A multiset-included sequence of a duplicate-free one is duplicate-free. */
  lemma {:induction false} DistinctSub(s: seq<UserId>, t: seq<UserId>)
    requires multiset(s) <= multiset(t) && Distinct(t)
    ensures Distinct(s)
  {
    if s != [] {
      var init, last := s[..|s| - 1], s[|s| - 1];
      assert s == init + [last];
      assert multiset(init) <= multiset(s);
      DistinctSub(init, t);
      DistinctByCount(t);
      assert multiset(s)[last] == multiset(init)[last] + 1;
      assert multiset(init)[last] == 0;
      assert forall k :: 0 <= k < |init| ==> s[k] == init[k];
    }
  }

  /** What every invite of a run carries: it went to a target that, in that
      round, was online, not in the caller's channel and held no uncallable
      role; it is a five-minute single-use invite to the caller's starting
      channel, in a DM naming the caller; and it belongs to a round that ran,
      so the caller was still in place after every earlier round. */
  ghost predicate ProperAttempt(env: Env, unc: seq<RoleId>, n: nat, a: Attempt)
  {
    && a.round < n
    && EligibleAt(env, unc, a.round, a.user)
    && a.invite == Invite(env.authorVc, 1, 300, env.inviteCode(a.round, a.user))
    && a.text == "`" + env.callerName + "` is calling you on https://discord.gg/" + env.inviteCode(a.round, a.user)
    && forall k :: 0 <= k < a.round ==> env.callerAfter(k) == Some(env.authorVc)
  }

  lemma {:induction false} RoundsAttempts(env: Env, unc: seq<RoleId>, n: nat, r: nat, table: seq<UserId>, messages: seq<Message>, attempts: seq<Attempt>)
    requires forall k :: 0 <= k < r ==> env.callerAfter(k) == Some(env.authorVc)
    requires forall a :: a in attempts ==> ProperAttempt(env, unc, n, a)
    ensures forall a :: a in Rounds(env, unc, n, r, table, messages, attempts).attempts ==> ProperAttempt(env, unc, n, a)
    decreases n - r
  {
    if r < n {
      var p := VisitAll(env, unc, r, table, Pass(messages, [], attempts, None));
      RoundAttempts(env, unc, n, r, table, messages, attempts);
      if p.raised.None? && env.callerAfter(r) == Some(env.authorVc) {
        RoundsAttempts(env, unc, n, r + 1, Without(table, p.notToCall), p.messages, p.attempts);
      }
    }
  }

  lemma RoundAttempts(env: Env, unc: seq<RoleId>, n: nat, r: nat, table: seq<UserId>, messages: seq<Message>, attempts: seq<Attempt>)
    requires r < n
    requires forall k :: 0 <= k < r ==> env.callerAfter(k) == Some(env.authorVc)
    requires forall a :: a in attempts ==> ProperAttempt(env, unc, n, a)
    ensures forall a :: a in VisitAll(env, unc, r, table, Pass(messages, [], attempts, None)).attempts ==> ProperAttempt(env, unc, n, a)
  {
    var p0 := Pass(messages, [], attempts, None);
    PassAttempts(env, unc, r, table, p0);
    forall a | a in VisitAll(env, unc, r, table, p0).attempts
      ensures ProperAttempt(env, unc, n, a)
    {
      if a !in attempts {
        AttemptForIsProper(env, unc, n, r, a.user);
      }
    }
  }

  /** An invite sent in round `r < n`, to a target that passes the test,
      while the caller stayed through every earlier round. */
  lemma AttemptForIsProper(env: Env, unc: seq<RoleId>, n: nat, r: nat, u: UserId)
    requires r < n && EligibleAt(env, unc, r, u)
    requires forall k :: 0 <= k < r ==> env.callerAfter(k) == Some(env.authorVc)
    ensures ProperAttempt(env, unc, n, AttemptFor(env, r, u))
  {
  }

  /** The invites a pass adds are for targets that pass the test that round. */
  lemma {:induction false} PassAttempts(env: Env, unc: seq<RoleId>, r: nat, todo: seq<UserId>, p: Pass)
    ensures var q := VisitAll(env, unc, r, todo, p);
      forall a :: a in q.attempts ==> a in p.attempts || (a.round == r && EligibleAt(env, unc, r, a.user) && a == AttemptFor(env, r, a.user))
  {
    if todo != [] {
      PassAttempts(env, unc, r, todo[..|todo| - 1], p);
    }
  }

  /** No uncallable member is ever sent a DM, every invite is the
      five-minute single-use one for the caller's channel, no invite belongs to
      a round after the caller left, and at most `n` rounds run. */
  lemma SendNInvitesAttempts(env: Env, unc: seq<RoleId>, n: nat, targets: seq<UserId>)
    ensures forall a :: a in SendNInvites(env, unc, n, targets).attempts ==> ProperAttempt(env, unc, n, a)
  {
    RoundsAttempts(env, unc, n, 0, targets, [], []);
  }

  /** The first round always runs: with `n >= 1`, every target that passes
      the test in round 0 is sent an invite in round 0, wherever the caller is
      afterwards — unless some DM of that round raised. */
  lemma FirstRoundRuns(env: Env, unc: seq<RoleId>, n: nat, targets: seq<UserId>, u: UserId)
    requires n >= 1 && u in targets && EligibleAt(env, unc, 0, u)
    requires forall t :: t in targets ==> !Raises(env, unc, 0, t)
    ensures AttemptFor(env, 0, u) in SendNInvites(env, unc, n, targets).attempts
  {
    var p0 := Pass([], [], [], None);
    PassWithoutRaise(env, unc, 0, targets, [], [], []);
    TriedAreEligible(env, unc, 0, targets);
    var p := VisitAll(env, unc, 0, targets, p0);
    assert AttemptFor(env, 0, u) in p.attempts;
    if env.callerAfter(0) == Some(env.authorVc) {
      RoundsKeepAttempts(env, unc, n, 1, Without(targets, p.notToCall), p.messages, p.attempts);
    }
  }

  /** Later rounds only add invites. */
  lemma {:induction false} RoundsKeepAttempts(env: Env, unc: seq<RoleId>, n: nat, r: nat, table: seq<UserId>, messages: seq<Message>, attempts: seq<Attempt>)
    ensures forall a :: a in attempts ==> a in Rounds(env, unc, n, r, table, messages, attempts).attempts
    decreases n - r
  {
    if r < n {
      var p0 := Pass(messages, [], attempts, None);
      var p := VisitAll(env, unc, r, table, p0);
      PassKeepsAttempts(env, unc, r, table, p0);
      if p.raised.None? && env.callerAfter(r) == Some(env.authorVc) {
        RoundsKeepAttempts(env, unc, n, r + 1, Without(table, p.notToCall), p.messages, p.attempts);
      }
    }
  }

  lemma {:induction false} PassKeepsAttempts(env: Env, unc: seq<RoleId>, r: nat, todo: seq<UserId>, p: Pass)
    ensures forall a :: a in p.attempts ==> a in VisitAll(env, unc, r, todo, p).attempts
  {
    if todo != [] {
      PassKeepsAttempts(env, unc, r, todo[..|todo| - 1], p);
    }
  }

  /** A round keeps a target for the next one exactly when it was sent its
      invite without error; a blocked DM or a failed test removes it. */
  lemma RoundTable(env: Env, unc: seq<RoleId>, r: nat, table: seq<UserId>, messages: seq<Message>, attempts: seq<Attempt>)
    requires forall u :: u in table ==> !Raises(env, unc, r, u)
    ensures var p := VisitAll(env, unc, r, table, Pass(messages, [], attempts, None));
      forall u :: u in Without(table, p.notToCall) <==>
        u in table && EligibleAt(env, unc, r, u) && env.deliver(r, u) == Delivered
  {
    PassWithoutRaise(env, unc, r, table, messages, [], attempts);
    assert [] + Dropped(env, unc, r, table) == Dropped(env, unc, r, table);
  }

  /** If the caller is gone after round `k`, the run ends there: no round
      after `k` runs, and the whole run (its messages, its table and its
      invites) is the run of rounds `0..k` alone. */
  lemma CallerLeftStops(env: Env, unc: seq<RoleId>, n: nat, targets: seq<UserId>, k: nat)
    requires env.callerAfter(k) != Some(env.authorVc)
    ensures forall a :: a in SendNInvites(env, unc, n, targets).attempts ==> a.round <= k
    ensures k < n ==> SendNInvites(env, unc, n, targets) == SendNInvites(env, unc, k + 1, targets)
  {
    SendNInvitesAttempts(env, unc, n, targets);
    if k < n {
      RoundsTruncate(env, unc, n, k, 0, targets, [], []);
    }
  }

  /** From any round `r <= k`, running to `n` or to `k + 1` gives the same
      run when the caller is gone after round `k`. */
  lemma {:induction false} RoundsTruncate(env: Env, unc: seq<RoleId>, n: nat, k: nat, r: nat, table: seq<UserId>, messages: seq<Message>, attempts: seq<Attempt>)
    requires r <= k < n && env.callerAfter(k) != Some(env.authorVc)
    ensures Rounds(env, unc, n, r, table, messages, attempts) == Rounds(env, unc, k + 1, r, table, messages, attempts)
    decreases k - r
  {
    var p := VisitAll(env, unc, r, table, Pass(messages, [], attempts, None));
    if p.raised.None? && env.callerAfter(r) == Some(env.authorVc) {
      RoundsTruncate(env, unc, n, k, r + 1, Without(table, p.notToCall), p.messages, p.attempts);
    }
  }

  // ------------------------------------------------------------------
  // The report `call` sends afterwards.

  /** Every message on a line of its own: "\n" before each. */
  function Lines(ms: seq<Message>): (s: string)
    ensures (s == "") <==> (ms == [])
  {
    if ms == [] then "" else Lines(ms[..|ms| - 1]) + "\n" + MessageText(ms[|ms| - 1])
  }

  /** The rendered lines that `Lines` concatenates are extended one message at a time. */
  lemma LinesPrefix(ms: seq<Message>, i: nat)
    requires i < |ms|
    ensures Lines(ms[..i + 1]) == Lines(ms[..i]) + "\n" + MessageText(ms[i])
  {
    assert ms[..i + 1][..i] == ms[..i];
  }

  function Texts(ms: seq<Message>): (ts: seq<string>)
    ensures |ts| == |ms| && forall i :: 0 <= i < |ms| ==> ts[i] == MessageText(ms[i])
  {
    seq(|ms|, i requires 0 <= i < |ms| => MessageText(ms[i]))
  }

  /** The "Didn't call:" follow-up, sent only when the text is not empty. */
  function DidntCall(ms: seq<Message>): (r: Option<string>)
    ensures r.Some? <==> ms != []
  {
    var body := Lines(ms);
    if body != "" then Some("Didn't call: " + body) else None
  }

  /** The follow-up is sent exactly when some target was not called, and it
      lists every message, each after a line break. */
  lemma {:induction false} DidntCallLists(ms: seq<Message>)
    ensures DidntCall(ms).Some? <==> ms != []
    ensures ms != [] ==> DidntCall(ms) == Some("Didn't call: \n" + Policy.Join(Texts(ms), "\n"))
    decreases |ms|
  {
    if ms != [] {
      LinesJoin(ms);
      var j := Policy.Join(Texts(ms), "\n");
      assert Lines(ms) == "\n" + j;
      assert DidntCall(ms) == Some("Didn't call: " + Lines(ms));
      Associative("Didn't call: ", "\n", j);
      assert "Didn't call: " + "\n" == "Didn't call: \n";
    }
  }

  lemma {:induction false} LinesJoin(ms: seq<Message>)
    requires ms != []
    ensures Lines(ms) == "\n" + Policy.Join(Texts(ms), "\n")
    decreases |ms|
  {
    if |ms| > 1 {
      var init := ms[..|ms| - 1];
      LinesJoin(init);
      assert Texts(ms)[..|ms| - 1] == Texts(init);
    } else {
      assert ms[..0] == [];
    }
  }
}
