# call-in-server, modelled in Dafny

`main.py` is a Discord bot that imitates a direct call inside a server. `/call`
takes user and role mentions and resolves them to a list of human members.
It then runs up to five rounds. In each round every remaining target who is
online, not yet in the caller's voice channel and holding no uncallable role
gets a DM carrying a
single-use, five-minute invite to that channel. Everyone else is dropped with
one reason line, and the lines are reported at the end as "Didn't call: …".

Administrators list roles whose members must never be called:
- `/uncallable` marks roles;
- `/recallable` unmarks them;
- `/uncallables` lists them;
- the registry is saved to a JSON object keyed by guild id.

The model has seven modules in six files:

- `Common` (in `common.dfy`): ids as `nat`, `Option`, `Distinct`, and
  `Without`, the table left after removing some keys.
- `Decimal` (also in `common.dfy`): `str` and `int` on ids, proved to be
  inverses on canonical decimal text.
- `Mentions` (`mentions.dfy`): `get_pinged_users`.
- `Policy` (`policy.dfy`): the list operations behind `/uncallable` and
  `/recallable`, the text of `/uncallables`, and the per-role reply loop,
  both as written and corrected.
- `Store` (`store.dfy`): the id mapping of the JSON file, with both round trips.
- `Calls` (`calls.dfy`): the specification of `send_n_invites` as functions
  over a per-round snapshot of the platform (`Env`). It covers:
  - what each target looks like in each round;
  - where the caller is after each round;
  - the invite code the platform mints;
  - whether each DM is delivered, refused (`Forbidden`) or fails with any
    other error.
- `Bot` (`bot.dfy`): the class `CallInServer`. Its field `uncallableRoles` is
  the registry. Its methods update the registry in place and loop as the
  source does, with one exception: `Uncallable` and `Recallable` run the
  corrected per-role loop `Policy.ApplyAll` (see "## Findings"). Each method
  is proved equal to the function that specifies it: `Calls.SendNInvites`
  and its parts, `Policy.ApplyAll` and `Policy.UncallablesText`,
  `Store.Encode` and `Store.Decode`, `Bot.WithEntry` for the lazy entry, and
  `Mentions.GetPingedUsers` for the targets of `Call`.

Some behaviour of `main.py` that the model keeps as written:
- a target that is not online gets the status reason even when it is
  already in the caller's channel, because the status test comes first
  (main.py:293-301);
- the caller check comes after each round and its pause, so the first round
  always runs (main.py:314-316);
- the loop does not stop early when no target remains; it ends only after
  `n` rounds or when the caller left (main.py:277, 315-317);
- the targets are exactly the resolved users, so a caller who mentions
  themselves is a target like any other (main.py:126, 352);
- only the `members` and `roles` keys of the mention data are read, so
  there is no way to call everyone (main.py:334-341).

The platform's lookups appear as parameters:
- a role's name and members;
- whether a user is a bot;
- the caller's voice channel.

## Model

| member | source | states |
|---|---|---|
| Common.Without | main.py:310-311 | an id is in the result iff it is in the table and not among the removed keys; the result is never longer |
| Common.WithoutTwice | main.py:310-312 | removing one batch of keys and then another is removing both at once |
| Common.WithoutDistinct | main.py:310-311 | removing keys from a duplicate-free table leaves it duplicate-free |
| Decimal.ParseNatToString | main.py:365-377 | `int` reads back the id that `str` wrote |
| Decimal.ParseNatCanonical | main.py:377 | every key that parses is the text `str` writes for the id it parses to |
| Decimal.NatToStringInjective | main.py:365 | distinct guild ids get distinct JSON keys |
| Mentions.RoleUsers | main.py:343-348 | the chained member lists hold exactly the users some mentioned role lists |
| Mentions.Dedup | main.py:349-351 | the set union keeps every user once and loses none |
| Mentions.Humans | main.py:352 | exactly the non-bot users survive, and duplicate-freedom is kept |
| Mentions.GetPingedUsers | main.py:327-352 | no user is returned twice |
| Mentions.PingedUsersAre | main.py:334-352 | a user is returned iff they are mentioned directly or listed by a mentioned role, and are not a bot; no bot is returned |
| Mentions.NoKeysReachNobody | main.py:334-341 | with neither `members` nor `roles` present nobody is reached |
| Policy.Mark | main.py:187-188 | the role ends up listed; the old list is a prefix of the new one; nothing else is added; the list changes iff the role was absent; duplicate-freedom is kept |
| Policy.Unmark | main.py:228-229 | an absent role changes nothing; otherwise exactly one entry disappears, every other role keeps its membership, and the role is gone from a duplicate-free list |
| Policy.UnmarkKeepsOthers | main.py:229 | on a duplicate-free list, removing the first occurrence is filtering the role out, so the other entries keep their order |
| Policy.UnmarkUndoesMark | main.py:186-229 | marking a role that was absent and then unmarking it restores the list exactly |
| Policy.MarkUnmarkIdempotent | main.py:186-229 | marking twice is marking once; unmarking twice is unmarking once |
| Policy.RepeatReportsAlready | main.py:186-238 | repeating a mark or unmark changes nothing, and its reply is the "already not callable" or "already callable" text |
| Policy.MarkedRoleIsUncallable | main.py:357-359 | once a role is marked, every member holding it has an uncallable role |
| Policy.UncallablesText | main.py:251-270 | the `/uncallables` reply: the "no uncallable roles" text for an empty list, the one role's name in backticks for a single role, and otherwise the mentions loop with its last ", " replaced by "." |
| Policy.MentionsWithCommasIsJoin | main.py:266-268 | the loop's text is the mentions joined by ", ", with one trailing ", " |
| Policy.UncallablesTextMany | main.py:265-269 | for two or more roles the reply is the prefix, then the role mentions joined by ", ", then "." |
| Policy.ApplyAllAsWritten | main.py:186-240 | the per-role loop of `/uncallable` and `/recallable` as written, where every role's reply is a response on the same interaction |
| Policy.ApplyFromAsWritten | main.py:186-240 | one step of that loop: the role's list update happens first, and a second response raises, which ends the loop before the save |
| Policy.UncallableAsWrittenStopsAtSecondRole | main.py:186-199 | as written, `/uncallable @a @b @c` marks `a` and `b`, raises on the second reply, never reaches `c`, and skips the save |
| Policy.RecallableAsWrittenStopsAtSecondRole | main.py:227-240 | as written, `/recallable @a @b @c` unmarks `a` and `b`, raises on the second reply, and leaves `c` listed |
| Policy.ApplyAll | main.py:186-197 | the corrected loop never raises and answers every mentioned role with exactly one reply |
| Policy.ApplyAllMarksEvery | main.py:183-188 | after `/uncallable` the list is duplicate-free, starts with the old list, and holds exactly the old roles and the mentioned ones |
| Policy.ApplyAllUnmarksEvery | main.py:222-229 | after `/recallable` the list is the old one with every mentioned role filtered out, with order kept and no duplicates |
| Store.Encode | main.py:362-366 | every guild appears under the decimal text of its id with its role ids, and every key is such a text |
| Store.Decode | main.py:375-379 | reading fails iff some key is not a decimal id; otherwise every key's list is stored under the id it parses to, and every stored guild comes from a key |
| Store.DecodeEncode | main.py:362-379 | reading back what was written gives the registry that was written |
| Store.EncodeDecode | main.py:362-379 | writing what was read gives back the file that was read |
| Calls.Exclusion | main.py:292-308 | a target gets no reason iff it passes the invite test (main.py:279-282), so the branch with no message is never taken; a status other than online is reported first, then "already connected", then the uncallable role |
| Calls.MessageText | main.py:287-307 | every reason line starts with a tab, the target's mention and " because " |
| Calls.AttemptFor | main.py:319-324 | what `send_dms` does for one target: a single-use, 300-second invite to the caller's channel with the platform's code, carried by the DM "`<caller name>` is calling you on <link>" |
| Calls.Visit | main.py:279-308 | the inner loop's body for one target: an eligible target gets an invite and stays, is dropped with "blocked this bot" on `Forbidden`, or raises on any other error; any other target is dropped with the reason `Exclusion` picks; after a raise nothing happens |
| Calls.VisitAll | main.py:278-308 | the inner loop over the targets of the snapshot, in order |
| Calls.Rounds | main.py:277-317 | the outer loop from a given round on: each pass, then the pops of the dropped targets, then a return if the caller left, until `n` rounds ran or a DM raised |
| Calls.SendNInvites | main.py:272-317 | `send_n_invites` itself: the rounds from round 0 with an empty message list |
| Calls.Dropped | main.py:278-308 | a target is dropped in a round iff it is in the table and it fails the test or refuses the DM |
| Calls.Kept | main.py:278-308 | a target stays iff it is in the table and neither fails the test nor refuses the DM |
| Calls.DroppedDistinct | main.py:308-311 | a duplicate-free table never schedules a key to be popped twice |
| Calls.PassWithoutRaise | main.py:278-308 | a round with no raising DM adds exactly one message per dropped target, drops exactly the targets that leave, and tries exactly the targets that pass the test |
| Calls.PassRaise | main.py:284-291 | a round raises iff some target's DM fails with another error, and the target it names is such a target |
| Calls.RaisedSticks | main.py:284-285 | once a DM has raised, the rest of the round does nothing |
| Calls.ReportsName | main.py:287-308 | the messages of a round name exactly the targets it drops, in order |
| Calls.DroppedKeptPartition | main.py:278-312 | the dropped and the kept targets split the table, and popping the dropped ones leaves the kept ones |
| Calls.RoundTable | main.py:279-312 | a target stays for the next round iff it passed the test and its DM arrived |
| Calls.PassDrops | main.py:310-311 | the targets to pop are distinct and all in the table, so no pop misses its key |
| Calls.RoundConserves | main.py:278-312 | over one round, the messages added plus the table left equal, as multisets, the table the round started with |
| Calls.RoundsConserve | main.py:277-317 | the same conservation holds from any round to the end of the run |
| Calls.SendNInvitesConserves | main.py:272-317 | when the loop returns, every target was reported or is still in the table, none is reported twice, and the counts add up |
| Calls.AttemptForIsProper | main.py:320-324 | an invite sent under the test is single use, lasts 300 seconds, is for the caller's channel, and its DM names the caller |
| Calls.PassAttempts | main.py:279-285 | the invites a round adds go only to targets that pass that round's test |
| Calls.SendNInvitesAttempts | main.py:277-324 | each invite ever sent went to an online target outside the caller's channel holding no uncallable role (so no uncallable member gets a DM); each is the caller's single-use five-minute invite; each is from a round `< n` that every earlier caller check passed |
| Calls.FirstRoundRuns | main.py:277-316 | with `n >= 1` and no raising DM, every target passing the test in round 0 gets an invite in round 0, wherever the caller goes afterwards |
| Calls.RoundsKeepAttempts | main.py:277-317 | later rounds only add invites |
| Calls.CallerLeftStops | main.py:314-316 | if the caller is gone after round `k`, no invite belongs to a later round, and the run returns exactly the messages, table and invites of rounds `0..k` (a run of `n > k` rounds equals a run of `k + 1`) |
| Calls.Lines | main.py:148-150 | the report is empty iff there are no messages |
| Calls.LinesJoin | main.py:149-150 | the report is "\n" followed by the message texts joined by "\n" |
| Calls.DidntCall | main.py:156-160 | the "Didn't call:" follow-up exists iff there is some message |
| Calls.DidntCallLists | main.py:148-160 | the "Didn't call:" follow-up is sent iff some message exists, and it lists every message after a line break |
| Bot.WithEntry | main.py:355-356 | the lazy step (repeated in each command) adds an empty entry for an absent guild and changes no other guild |
| Bot.WithEntryIdempotent | main.py:355-356 | creating the entry twice is creating it once |
| Bot.GrownTwice | main.py:279-308 | two calls of `has_uncallable_role` in a row still only add the one lazy entry, and the guild's roles stay as they were |
| Bot.Pop | main.py:311 | popping a key held once removes exactly that key and keeps the table duplicate-free |
| Bot.ApplyAllKeepsDistinct | main.py:186-238 | both commands keep a duplicate-free role list duplicate-free |
| Bot.CallInServer.constructor | main.py:28 | the bot starts with an empty registry, which satisfies the registry invariant |
| Bot.CallInServer.EnsureEntry | main.py:180-181 | the registry becomes the lazy `WithEntry` step of the old one, and stays duplicate-free |
| Bot.CallInServer.HasUncallableRole | main.py:354-360 | the result is true iff the guild's list and the user's roles share a role; the only change is the lazy empty entry |
| Bot.CallInServer.ApplyOne | main.py:186-238 | one role's update to the guild's list, and exactly the reply for whether it was listed before |
| Bot.CallInServer.ApplyEach | main.py:186-238 | the loop's replies and new list are those of `Policy.ApplyAll`, and the registry invariant is kept |
| Bot.CallInServer.Uncallable | main.py:172-199 | with no `resolved` data the reply is the "no role" text and nothing changes; with no `roles` key it raises after the lazy entry; otherwise the replies and the list are `Policy.ApplyAll`'s and the saved file encodes the new registry |
| Bot.CallInServer.Recallable | main.py:211-240 | with no `resolved` data the reply is the "no role" text and nothing changes; otherwise a missing `roles` key is no role, the replies and list are `Policy.ApplyAll`'s, and the file is saved |
| Bot.CallInServer.Uncallables | main.py:251-270 | the reply is the text for the guild's list (none, the one role's name, or the mentions), and only the lazy entry is added |
| Bot.CallInServer.WriteUncallableRolesJson | main.py:362-369 | the written object is `Store.Encode` of the registry |
| Bot.CallInServer.ReadUncallableRolesJson | main.py:371-379 | the read succeeds iff every key is a decimal id, and the registry is then the decoded file; on failure every guild read so far holds its list from the file |
| Bot.CallInServer.VisitTarget | main.py:279-308 | one target's step of the inner loop is `Calls.Visit` |
| Bot.CallInServer.PassOver | main.py:278-308 | the inner loop over the snapshot of the table is `Calls.VisitAll`, and it stops at a raising DM |
| Bot.CallInServer.PlayRound | main.py:278-312 | one round is the pass, followed, when nothing raised, by the pops of the dropped targets, leaving a duplicate-free table |
| Bot.CallInServer.PopAll | main.py:310-312 | popping each dropped target leaves a duplicate-free table that is the old one without them, shorter by their number |
| Bot.CallInServer.SendNInvites | main.py:272-317 | the outcome and the invites sent are those of `Calls.SendNInvites` for the guild's uncallable roles; only the lazy entry is added |
| Bot.CallInServer.Report | main.py:148-150 | the report concatenation is `Calls.Lines` |
| Bot.CallInServer.RunCall | main.py:141-160 | after the checks: "Starting to call."; then, if the loop returns, "Finishing to call." and the "Didn't call:" text exactly when some target was reported; the registry changes only by the lazy entry for the guild |
| Bot.CallInServer.Call | main.py:118-160 | no `resolved` data: the "no user/role" reply and no invite; caller not in voice: that reply and no invite; otherwise five rounds for the resolved targets, with the caller's starting channel, and the replies of `RunCall`, while the registry changes only by the lazy entry for the guild |

## Left out

- Bot construction, intents, the command tree, `on_ready` and the broken
  `on_command_error` (main.py:11-45) are platform setup, not logic.
- The `/help` dispatch (main.py:52-103) only chooses fixed strings.
- File access, `json.dump`/`json.load` and `os.path.exists` (main.py:35-38,
  368-373) are I/O. The model keeps the id-level object that is written and
  read, as a map from key text to role ids.
- `get_guild`, `get_role`, `get_user`, `discord.utils.get` and
  `guild.get_member` are taken to invert `.id`. The model does not capture
  a lookup returning `None` for an id the platform does not know, nor the
  `AttributeError` that would follow.
- Decimal.ParseNat: Python's `int` also accepts a sign, surrounding spaces,
  underscores and leading zeros. The model accepts only canonical decimal,
  which is what `str` writes; a file edited by hand is not modelled.
- The permission decorator `commands.has_permissions` on `/uncallable` and
  `/recallable` is platform glue, so every caller is treated as allowed.
- `async`/`await`, `create_dm` (main.py:127-129), `interaction.response`
  and `followup`, logging and the blocking `sleep(1)` (main.py:314) are left
  out. Replies are returned as a sequence, and DMs as the list of attempts.
- Other sessions can change the registry between awaits. The model runs
  one command at a time and leaves this concurrency out.
- Mentions.GetPingedUsers: Python's `set` has no defined order. The model
  keeps first-appearance order. `Mentions.PingedUsersAre` and the
  duplicate-freedom of the result do not depend on it.
- `Calls.Env` records the caller's channel only after each round's pause.
  The invites of a round are for the caller's starting channel, because the
  caller is only observed between rounds. A move during a round is not
  modelled.
- In the source, the reason lines end in UTF-8 emoji that were stored
  mis-decoded (main.py:289, 296, 301, 306). The model uses the intended
  emoji.
- Bot.CallInServer.Uncallable: follows the corrected `Policy.ApplyAll`, so
  every mentioned role is marked and the file is saved. The behaviour of
  main.py:186-199, which raises at the second reply and skips the save, is
  modelled only by `Policy.ApplyAllAsWritten`.
- Bot.CallInServer.Recallable: follows the corrected `Policy.ApplyAll`, so
  every mentioned role is unmarked and the file is saved. The behaviour of
  main.py:227-240 is modelled only by `Policy.ApplyAllAsWritten`.
- Bot.CallInServer.Call: it uses the first-appearance order of
  `Mentions.GetPingedUsers`, so its contract fixes the order of the invites
  and of the "Didn't call:" lines. Python's `set` (main.py:349-352) leaves
  that order unspecified, so this order is the model's choice. The
  properties of the loop itself (`Calls.SendNInvitesConserves`,
  `Calls.SendNInvitesAttempts`, `Calls.RoundTable`) hold for every
  duplicate-free order of the targets.

## Findings

| source | as written | input that shows it | evidently intended | confidence | as-written member | corrected member |
|---|---|---|---|---|---|---|
| main.py:186-199 | `/uncallable` answers each mentioned role through `interaction.response.send_message`. An interaction accepts one response, so the second send raises after the second role was already appended. Later roles and `write_uncallable_roles_json` are skipped. | `/uncallable @a @b @c` on a guild with no uncallable role | mark every role, one reply each, then save | not executed | Policy.ApplyAllAsWritten, Policy.UncallableAsWrittenStopsAtSecondRole | Policy.ApplyAll, Policy.ApplyAllMarksEvery |
| main.py:227-240 | `/recallable` does the same, so the second role is unmarked, the send raises, and the remaining roles stay listed. The save is skipped too. | `/recallable @a @b @c` on a guild listing `a`, `b` and `c` | unmark every role, one reply each, then save | not executed | Policy.ApplyAllAsWritten, Policy.RecallableAsWrittenStopsAtSecondRole | Policy.ApplyAll, Policy.ApplyAllUnmarksEvery |
