/**
 * The bot as main.js wires it: one map of subscriptions and one probe
 * timestamp, changed by a sequence of direct messages each carrying one of
 * the four enrollment commands. The lemmas state what holds across any
 * such sequence.
 */
module Workflow {
  import opened Wrappers
  import opened Text
  import opened Records
  import opened Store
  import opened CodeGen
  import opened Probe
  import opened Clock
  import opened Commands

  /** `config.restrictionDate` and `config.taskCooldown` (milliseconds). */
  datatype Config = Config(restrictionDate: int, taskCooldown: int)

  datatype Command = SubscribeCmd(args: seq<string>) | FinalizeCmd | TaskCmd | VerifyTaskCmd

  /**
   * One incoming command: who sent it and where, the clock, what Twitter
   * would answer for the sender's handle, and the random bytes drawn.
   */
  datatype Event = Event(msg: Message, cmd: Command, now: int, lookup: TwitterLookup, random: seq<byte>)

  /** `subscriptionCodes` and `lastTwitterCallTime`. */
  datatype BotState = BotState(codes: Codes, lastTwitterCallTime: int)

  /** One command handled against the bot state; `isAddress` is `ethers.utils.isAddress`. */
  function Apply(cfg: Config, isAddress: string -> bool, s: BotState, e: Event): (BotState, Reply) {
    var open := IsAfterRestrictionDate(e.now, cfg.restrictionDate);
    var throttled := Throttled(s.lastTwitterCallTime, e.now);
    match e.cmd
    case SubscribeCmd(args) =>
      var o := Subscribe(s.codes, e.msg, args, open, isAddress, HexEncode(e.random));
      (BotState(o.codes, s.lastTwitterCallTime), o.reply)
    case FinalizeCmd =>
      var o := Finalize(s.codes, e.msg, open, throttled, e.lookup);
      var last := if FinalizeProbes(s.codes, e.msg, open)
                  then NextCallTime(s.lastTwitterCallTime, e.now) else s.lastTwitterCallTime;
      (BotState(o.codes, last), o.reply)
    case TaskCmd =>
      var o := Task(s.codes, e.msg, open, e.now, cfg.taskCooldown, HexEncode(e.random));
      (BotState(o.codes, s.lastTwitterCallTime), o.reply)
    case VerifyTaskCmd =>
      var o := VerifyTask(s.codes, e.msg, open, e.now, cfg.taskCooldown, throttled, e.lookup);
      var last := if VerifyTaskProbes(s.codes, e.msg, open, e.now, cfg.taskCooldown)
                  then NextCallTime(s.lastTwitterCallTime, e.now) else s.lastTwitterCallTime;
      (BotState(o.codes, last), o.reply)
  }

  /** The state after handling `events` in order. */
  function Run(cfg: Config, isAddress: string -> bool, s: BotState, events: seq<Event>): BotState
    decreases |events|
  {
    if events == [] then s
    else Run(cfg, isAddress, Apply(cfg, isAddress, s, events[0]).0, events[1..])
  }

  /** The replies to `events`, in order. */
  function Replies(cfg: Config, isAddress: string -> bool, s: BotState, events: seq<Event>): (rs: seq<Reply>)
    ensures |rs| == |events|
    decreases |events|
  {
    if events == [] then []
    else
      var (s1, reply) := Apply(cfg, isAddress, s, events[0]);
      [reply] + Replies(cfg, isAddress, s1, events[1..])
  }

  /**
   * What no command undoes: no user disappears, balances and trivia
   * balances never go down, the handle and address bound at subscribe time
   * never change, and a verified user stays verified.
   */
  ghost predicate Preserved(before: Codes, after: Codes) {
    forall u :: u in before ==>
      && u in after
      && Balance(before[u]) <= Balance(after[u])
      && after[u].triviaBalance == before[u].triviaBalance
      && after[u].twitterHandle == before[u].twitterHandle
      && after[u].address == before[u].address
      && (before[u].verified ==> after[u].verified)
  }

  lemma PreservedTransitive(a: Codes, b: Codes, c: Codes)
    requires Preserved(a, b) && Preserved(b, c)
    ensures Preserved(a, c)
  {
  }

  /** A rejected command changes nothing at all; an accepted one changes at most the sender's record. */
  lemma ApplyTouchesOnlySender(cfg: Config, isAddress: string -> bool, s: BotState, e: Event)
    ensures var (s', reply) := Apply(cfg, isAddress, s, e);
      && (!reply.Succeeded() ==> s'.codes == s.codes)
      && (forall u :: u in s.codes && u != e.msg.authorId ==> u in s'.codes && s'.codes[u] == s.codes[u])
      && s'.codes.Keys <= s.codes.Keys + {e.msg.authorId}
  {
  }

  /** Replacing one record by one that keeps what `Preserved` protects keeps `Preserved`. */
  lemma UpdatePreserves(codes: Codes, id: string, r: Record)
    requires id in codes ==>
      && Balance(codes[id]) <= Balance(r)
      && r.triviaBalance == codes[id].triviaBalance
      && r.twitterHandle == codes[id].twitterHandle
      && r.address == codes[id].address
      && (codes[id].verified ==> r.verified)
    ensures Preserved(codes, codes[id := r])
  {
  }

  /** Every command keeps `Preserved`. */
  lemma ApplyPreserves(cfg: Config, isAddress: string -> bool, s: BotState, e: Event)
    ensures Preserved(s.codes, Apply(cfg, isAddress, s, e).0.codes)
  {
    var open := IsAfterRestrictionDate(e.now, cfg.restrictionDate);
    var throttled := Throttled(s.lastTwitterCallTime, e.now);
    var id := e.msg.authorId;
    var after := Apply(cfg, isAddress, s, e).0.codes;
    match e.cmd
    case SubscribeCmd(args) =>
      var o := Subscribe(s.codes, e.msg, args, open, isAddress, HexEncode(e.random));
      assert after == o.codes;
      if o.reply.Succeeded() {
        UpdatePreserves(s.codes, id, NewRecord(StripAt(args[0]), args[1], HexEncode(e.random)));
      }
    case FinalizeCmd =>
      var o := Finalize(s.codes, e.msg, open, throttled, e.lookup);
      assert after == o.codes;
      if o.reply.Succeeded() {
        UpdatePreserves(s.codes, id, s.codes[id].(verified := true));
      }
    case TaskCmd =>
      var o := Task(s.codes, e.msg, open, e.now, cfg.taskCooldown, HexEncode(e.random));
      assert after == o.codes;
      if o.reply.Succeeded() {
        UpdatePreserves(s.codes, id, s.codes[id].(code := HexEncode(e.random)));
      }
    case VerifyTaskCmd =>
      var o := VerifyTask(s.codes, e.msg, open, e.now, cfg.taskCooldown, throttled, e.lookup);
      assert after == o.codes;
      if o.reply.Succeeded() {
        UpdatePreserves(s.codes, id, Rewarded(s.codes[id], e.now));
      }
  }

  /** Across any sequence of commands, no balance ever decreases and nothing bound is rebound. */
  lemma {:induction false} RunPreserves(cfg: Config, isAddress: string -> bool, s: BotState, events: seq<Event>)
    ensures Preserved(s.codes, Run(cfg, isAddress, s, events).codes)
    decreases |events|
  {
    if events != [] {
      var s1 := Apply(cfg, isAddress, s, events[0]).0;
      ApplyPreserves(cfg, isAddress, s, events[0]);
      RunPreserves(cfg, isAddress, s1, events[1..]);
      PreservedTransitive(s.codes, s1.codes, Run(cfg, isAddress, s1, events[1..]).codes);
    }
  }

  /** A successful `subscribe` keeps string addresses unique, ignoring case. */
  lemma SubscribePreservesUniqueAddresses(codes: Codes, msg: Message, args: seq<string>, open: bool,
                                          isAddress: string -> bool, code: string)
    requires UniqueAddresses(codes)
    ensures UniqueAddresses(Subscribe(codes, msg, args, open, isAddress, code).codes)
  {
    var o := Subscribe(codes, msg, args, open, isAddress, code);
    if o.reply.Succeeded() {
      var a := args[1];
      var m := o.codes;
      forall u, v | u in m && v in m && u != v && m[u].address.Str?
        ensures !AddressMatches(m[v], m[u].address.text)
      {
        if u == msg.authorId {
          assert m[u].address.text == a;
          assert v in codes && m[v] == codes[v];
          assert !AddressMatches(codes[v], a);
        } else if v == msg.authorId {
          assert u in codes && m[u] == codes[u];
          if AddressMatches(m[v], m[u].address.text) {
            assert EqualsIgnoreCase(a, m[u].address.text);
            assert AddressMatches(codes[u], a);
            assert false;
          }
        } else {
          assert m[u] == codes[u] && m[v] == codes[v];
        }
      }
    }
  }

  /** Every command keeps string addresses unique, ignoring case. */
  lemma ApplyPreservesUniqueAddresses(cfg: Config, isAddress: string -> bool, s: BotState, e: Event)
    requires UniqueAddresses(s.codes)
    ensures UniqueAddresses(Apply(cfg, isAddress, s, e).0.codes)
  {
    var s' := Apply(cfg, isAddress, s, e).0;
    match e.cmd
    case SubscribeCmd(args) =>
      SubscribePreservesUniqueAddresses(s.codes, e.msg, args, IsAfterRestrictionDate(e.now, cfg.restrictionDate),
                                        isAddress, HexEncode(e.random));
    case _ =>
      assert forall u :: u in s'.codes ==> u in s.codes && s'.codes[u].address == s.codes[u].address;
  }

  /** The address-uniqueness invariant holds across any sequence of commands. */
  lemma {:induction false} RunPreservesUniqueAddresses(cfg: Config, isAddress: string -> bool, s: BotState,
                                                        events: seq<Event>)
    requires UniqueAddresses(s.codes)
    ensures UniqueAddresses(Run(cfg, isAddress, s, events).codes)
    decreases |events|
  {
    if events != [] {
      ApplyPreservesUniqueAddresses(cfg, isAddress, s, events[0]);
      RunPreservesUniqueAddresses(cfg, isAddress, Apply(cfg, isAddress, s, events[0]).0, events[1..]);
    }
  }

  /** Before the restriction date, every command is refused and nothing changes, the probe included. */
  lemma ClosedGateRefusesEverything(cfg: Config, isAddress: string -> bool, s: BotState, e: Event)
    requires !IsAfterRestrictionDate(e.now, cfg.restrictionDate)
    ensures Apply(cfg, isAddress, s, e) == (s, NotYetAvailable)
  {
  }

  /** From the restriction date on, no command is answered "not yet available", whatever the state. */
  lemma OpenGateAnswers(cfg: Config, isAddress: string -> bool, s: BotState, e: Event)
    requires IsAfterRestrictionDate(e.now, cfg.restrictionDate)
    ensures Apply(cfg, isAddress, s, e).1 != NotYetAvailable
  {
  }

  /**
   * Once the gate is open it stays open: in a run whose clock never goes
   * back, no command from the first one at or past the restriction date
   * on is answered "not yet available".
   */
  lemma {:induction false} GateStaysOpen(cfg: Config, isAddress: string -> bool, s: BotState, events: seq<Event>, i: nat)
    requires i < |events| && IsAfterRestrictionDate(events[i].now, cfg.restrictionDate)
    requires forall a, b :: 0 <= a <= b < |events| ==> events[a].now <= events[b].now
    ensures forall j :: i <= j < |events| ==> Replies(cfg, isAddress, s, events)[j] != NotYetAvailable
    decreases |events|
  {
    var s1 := Apply(cfg, isAddress, s, events[0]).0;
    var rest := events[1..];
    var rs := Replies(cfg, isAddress, s, events);
    assert rs[1..] == Replies(cfg, isAddress, s1, rest);
    if i == 0 {
      OpenGateAnswers(cfg, isAddress, s, events[0]);
      if |rest| > 0 {
        assert events[0].now <= events[1].now;
        GateStaysOpen(cfg, isAddress, s1, rest, 0);
      }
    } else {
      GateStaysOpen(cfg, isAddress, s1, rest, i - 1);
    }
    forall j | i <= j < |events| ensures rs[j] != NotYetAvailable {
      if j > 0 {
        assert rs[j] == rs[1..][j - 1];
      }
    }
  }

  /** In a server channel, every command is refused and nothing changes, the probe included. */
  lemma GuildMessageRefused(cfg: Config, isAddress: string -> bool, s: BotState, e: Event)
    requires IsAfterRestrictionDate(e.now, cfg.restrictionDate) && e.msg.inGuild
    ensures Apply(cfg, isAddress, s, e) == (s, DirectMessageOnly)
  {
  }

  /** `verify task` pays exactly the reward when it succeeds, and nothing otherwise. */
  lemma VerifyTaskPaysReward(cfg: Config, isAddress: string -> bool, s: BotState, e: Event)
    requires e.cmd == VerifyTaskCmd && e.msg.authorId in s.codes
    ensures var (s', reply) := Apply(cfg, isAddress, s, e);
      var u := e.msg.authorId;
      && (reply == TaskVerified ==>
            Balance(s'.codes[u]) == Balance(s.codes[u]) + TaskReward && s'.codes[u].lastTask == Some(e.now))
      && (reply != TaskVerified ==> s'.codes == s.codes)
  {
  }

  /**
   * Subscribing twice: the second attempt is refused as already registered
   * and leaves the map as the first left it.
   */
  lemma {:induction false} SecondSubscribeRefused(cfg: Config, isAddress: string -> bool, s: BotState, e1: Event, e2: Event)
    requires e1.cmd.SubscribeCmd? && e2.cmd.SubscribeCmd? && e1.msg.authorId == e2.msg.authorId
    requires IsAfterRestrictionDate(e2.now, cfg.restrictionDate) && !e2.msg.inGuild
    requires Apply(cfg, isAddress, s, e1).1.Succeeded()
    ensures var s1 := Apply(cfg, isAddress, s, e1).0;
      Apply(cfg, isAddress, s1, e2) == (s1, AlreadyRegistered)
  {
    var s1 := Apply(cfg, isAddress, s, e1).0;
    assert e1.msg.authorId in s1.codes;
  }

  /**
   * Once one user holds an address, another user's `subscribe` with the same
   * address in any letter case is refused and changes nothing.
   */
  lemma AddressTakenInAnyCase(cfg: Config, isAddress: string -> bool, s: BotState, e: Event, holder: string)
    requires e.cmd.SubscribeCmd? && |e.cmd.args| >= 2
    requires holder in s.codes && s.codes[holder].address.Str?
    requires EqualsIgnoreCase(s.codes[holder].address.text, e.cmd.args[1])
    ensures Apply(cfg, isAddress, s, e).0 == s
    ensures !Apply(cfg, isAddress, s, e).1.Succeeded()
  {
    assert AddressMatches(s.codes[holder], e.cmd.args[1]);
  }

  /**
   * `task` never starts the cooldown: right after a successful `task`, a
   * second `task` at the same instant also succeeds and replaces the code again.
   */
  lemma TaskDoesNotStartCooldown(cfg: Config, isAddress: string -> bool, s: BotState, e1: Event, e2: Event)
    requires e1.cmd == TaskCmd && e2.cmd == TaskCmd && e2.msg == e1.msg && e2.now == e1.now
    requires Apply(cfg, isAddress, s, e1).1.Succeeded()
    ensures var s1 := Apply(cfg, isAddress, s, e1).0;
      Apply(cfg, isAddress, s1, e2).1 == PostTaskCode(HexEncode(e2.random))
  {
    var s1 := Apply(cfg, isAddress, s, e1).0;
    assert s1.codes[e1.msg.authorId].lastTask == s.codes[e1.msg.authorId].lastTask;
  }

  /**
   * After a verified task at a non-zero time, both `task` and `verify task`
   * are refused until `taskCooldown` milliseconds have passed.
   */
  lemma VerifiedTaskStartsCooldown(cfg: Config, isAddress: string -> bool, s: BotState, e1: Event, e2: Event)
    requires e1.cmd == VerifyTaskCmd && e1.now != 0
    requires Apply(cfg, isAddress, s, e1).1 == TaskVerified
    requires (e2.cmd == TaskCmd || e2.cmd == VerifyTaskCmd) && e2.msg == e1.msg
    requires IsAfterRestrictionDate(e2.now, cfg.restrictionDate) && e2.now - e1.now < cfg.taskCooldown
    ensures var s1 := Apply(cfg, isAddress, s, e1).0;
      Apply(cfg, isAddress, s1, e2) == (s1, OneTaskPerDay)
  {
    var s1 := Apply(cfg, isAddress, s, e1).0;
    assert s1.codes[e1.msg.authorId].lastTask == Some(e1.now);
  }

  /**
   * `task` and `verify task` never look at `verified`: a user who subscribed
   * but never finalized is paid for a task all the same, and stays unverified.
   */
  lemma UnverifiedUserPaid(cfg: Config, isAddress: string -> bool, s: BotState, e: Event)
    requires e.cmd == VerifyTaskCmd && e.msg.authorId in s.codes && !s.codes[e.msg.authorId].verified
    requires IsAfterRestrictionDate(e.now, cfg.restrictionDate) && !e.msg.inGuild
    requires !TaskCoolingDown(s.codes[e.msg.authorId], e.now, cfg.taskCooldown)
    requires !Throttled(s.lastTwitterCallTime, e.now) && PostContainsCode(e.lookup, s.codes[e.msg.authorId].code)
    ensures var (s', reply) := Apply(cfg, isAddress, s, e);
      var u := e.msg.authorId;
      && reply == TaskVerified
      && Balance(s'.codes[u]) == Balance(s.codes[u]) + TaskReward
      && !s'.codes[u].verified
  {
  }

  /**
   * `verify task` keeps the task code, so once the cooldown has passed the
   * same tweet is paid for again.
   */
  lemma SameTweetPaysAgain(cfg: Config, isAddress: string -> bool, s: BotState, e1: Event, e2: Event)
    requires e1.cmd == VerifyTaskCmd && e2.cmd == VerifyTaskCmd && e2.msg == e1.msg && e2.lookup == e1.lookup
    requires Apply(cfg, isAddress, s, e1).1 == TaskVerified
    requires e2.now >= e1.now + cfg.taskCooldown && e2.now >= e1.now + ThrottleInterval
    ensures var s1 := Apply(cfg, isAddress, s, e1).0;
      var u := e1.msg.authorId;
      && s1.codes[u].code == s.codes[u].code
      && Apply(cfg, isAddress, s1, e2).1 == TaskVerified
      && Balance(Apply(cfg, isAddress, s1, e2).0.codes[u]) == Balance(s.codes[u]) + 2 * TaskReward
  {
    var u := e1.msg.authorId;
    var s1 := Apply(cfg, isAddress, s, e1).0;
    assert s1.codes[u] == Rewarded(s.codes[u], e1.now);
    assert s1.lastTwitterCallTime == e1.now;
    assert !TaskCoolingDown(s1.codes[u], e2.now, cfg.taskCooldown);
  }
}
