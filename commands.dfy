/**
 * The four enrollment commands of cmd.js: `subscribe`, `finalize`, `task`
 * and `verify task`. Each is a chain of guards that reply and return, then
 * an update of `subscriptionCodes` and a save.
 *
 * Each command has a pure transition function (reply and new map from the
 * old map) and an imperative handler on the shared store that is proved to
 * follow it; module Workflow composes the transitions.
 */
module Commands {
  import opened Wrappers
  import opened Text
  import opened Records
  import opened Store
  import opened CodeGen
  import opened Probe
  import opened Clock

  /** The reward for a verified task (cmd.js adds the literal 1000). */
  const TaskReward: int := 1000

  /** The parts of a Discord message the handlers look at. */
  datatype Message = Message(authorId: string, inGuild: bool)

  /** The handlers' replies, one per `message.reply` in cmd.js. */
  datatype Reply =
    | NotYetAvailable
    | DirectMessageOnly
    | AlreadyRegistered
    | SubscribeUsage
    | InvalidHandle
    | InvalidAddress
    | AddressTaken
    | PostSubscriptionCode(code: string)
    | NotSubscribed
    | AlreadyVerified
    | Whitelisted
    | VerificationFailed
    | OneTaskPerDay
    | PostTaskCode(code: string)
    | TaskVerified
  {
    /** The replies sent after the map was updated and saved. */
    predicate Succeeded() {
      PostSubscriptionCode? || Whitelisted? || PostTaskCode? || TaskVerified?
    }
  }

  datatype Outcome = Outcome(reply: Reply, codes: Codes)

  /** `args[0].startsWith('@') ? args[0].slice(1) : args[0]`. */
  function StripAt(arg: string): string {
    if |arg| > 0 && arg[0] == '@' then arg[1..] else arg
  }

  /** `/^[A-Za-z0-9_]{1,15}$/.test(handle)`. */
  predicate ValidHandle(handle: string) {
    1 <= |handle| <= 15 && forall c <- handle :: IsWordChar(c)
  }

  /**
   * `if (subscription.lastTask)` and `now - lastTask < taskCooldown`: the
   * cooldown applies only when `lastTask` is set and truthy (not 0).
   */
  predicate TaskCoolingDown(r: Record, now: int, taskCooldown: int) {
    r.lastTask.Some? && r.lastTask.value != 0 && now - r.lastTask.value < taskCooldown
  }

  /** The record after a verified task. */
  function Rewarded(r: Record, now: int): (r': Record)
    ensures Balance(r') == Balance(r) + TaskReward && r'.lastTask == Some(now)
    ensures r'.(balance := r.balance, lastTask := r.lastTask) == r
  {
    r.(lastTask := Some(now), balance := Some(Balance(r) + TaskReward))
  }

  // ---------------------------------------------------------------------
  // Transition functions

  /** `handleSubscribeCommand` with `code` the freshly generated code. */
  function Subscribe(codes: Codes, msg: Message, args: seq<string>, open: bool,
                     isAddress: string -> bool, code: string): (o: Outcome)
    ensures o.reply.Succeeded() <==>
      && open && !msg.inGuild && msg.authorId !in codes && |args| >= 2
      && ValidHandle(StripAt(args[0])) && isAddress(args[1])
      && !IsAddressAlreadyRegistered(codes, args[1])
    ensures o.reply.Succeeded() ==>
      && o.reply == PostSubscriptionCode(code)
      && o.codes == codes[msg.authorId := NewRecord(StripAt(args[0]), args[1], code)]
      && o.codes.Keys == codes.Keys + {msg.authorId}
    ensures !o.reply.Succeeded() ==> o.codes == codes
  {
    if !open then Outcome(NotYetAvailable, codes)
    else if msg.inGuild then Outcome(DirectMessageOnly, codes)
    else if msg.authorId in codes then Outcome(AlreadyRegistered, codes)
    else if |args| < 2 then Outcome(SubscribeUsage, codes)
    else if !ValidHandle(StripAt(args[0])) then Outcome(InvalidHandle, codes)
    else if !isAddress(args[1]) then Outcome(InvalidAddress, codes)
    else if IsAddressAlreadyRegistered(codes, args[1]) then Outcome(AddressTaken, codes)
    else Outcome(PostSubscriptionCode(code), codes[msg.authorId := NewRecord(StripAt(args[0]), args[1], code)])
  }

  /** The guards of `finalize` pass, so the probe is consulted. */
  predicate FinalizeProbes(codes: Codes, msg: Message, open: bool) {
    open && !msg.inGuild && msg.authorId in codes && !codes[msg.authorId].verified
  }

  /** `handleFinalizeCommand`, the probe being throttled or not and Twitter answering `lookup`. */
  function Finalize(codes: Codes, msg: Message, open: bool, throttled: bool, lookup: TwitterLookup): (o: Outcome)
    ensures o.reply.Succeeded() <==>
      FinalizeProbes(codes, msg, open) && !throttled && PostContainsCode(lookup, codes[msg.authorId].code)
    ensures o.reply.Succeeded() ==>
      o.reply == Whitelisted && o.codes == codes[msg.authorId := codes[msg.authorId].(verified := true)]
    ensures !o.reply.Succeeded() ==> o.codes == codes
  {
    if !open then Outcome(NotYetAvailable, codes)
    else if msg.inGuild then Outcome(DirectMessageOnly, codes)
    else if msg.authorId !in codes then Outcome(NotSubscribed, codes)
    else if codes[msg.authorId].verified then Outcome(AlreadyVerified, codes)
    else if !throttled && PostContainsCode(lookup, codes[msg.authorId].code) then
      Outcome(Whitelisted, codes[msg.authorId := codes[msg.authorId].(verified := true)])
    else Outcome(VerificationFailed, codes)
  }

  /** `handleTaskCommand` at time `now`, with `code` the freshly generated code. */
  function Task(codes: Codes, msg: Message, open: bool, now: int, taskCooldown: int, code: string): (o: Outcome)
    ensures o.reply.Succeeded() <==>
      open && !msg.inGuild && msg.authorId in codes && !TaskCoolingDown(codes[msg.authorId], now, taskCooldown)
    ensures o.reply.Succeeded() ==>
      o.reply == PostTaskCode(code) && o.codes == codes[msg.authorId := codes[msg.authorId].(code := code)]
    ensures !o.reply.Succeeded() ==> o.codes == codes
  {
    if !open then Outcome(NotYetAvailable, codes)
    else if msg.inGuild then Outcome(DirectMessageOnly, codes)
    else if msg.authorId !in codes then Outcome(NotSubscribed, codes)
    else if TaskCoolingDown(codes[msg.authorId], now, taskCooldown) then Outcome(OneTaskPerDay, codes)
    else Outcome(PostTaskCode(code), codes[msg.authorId := codes[msg.authorId].(code := code)])
  }

  /** The guards of `verify task` pass, so the probe is consulted. */
  predicate VerifyTaskProbes(codes: Codes, msg: Message, open: bool, now: int, taskCooldown: int) {
    open && !msg.inGuild && msg.authorId in codes && !TaskCoolingDown(codes[msg.authorId], now, taskCooldown)
  }

  /** `handleVerifyTaskCommand` at time `now`. */
  function VerifyTask(codes: Codes, msg: Message, open: bool, now: int, taskCooldown: int,
                      throttled: bool, lookup: TwitterLookup): (o: Outcome)
    ensures o.reply.Succeeded() <==>
      && VerifyTaskProbes(codes, msg, open, now, taskCooldown)
      && !throttled && PostContainsCode(lookup, codes[msg.authorId].code)
    ensures o.reply.Succeeded() ==>
      o.reply == TaskVerified && o.codes == codes[msg.authorId := Rewarded(codes[msg.authorId], now)]
    ensures !o.reply.Succeeded() ==> o.codes == codes
  {
    if !open then Outcome(NotYetAvailable, codes)
    else if msg.inGuild then Outcome(DirectMessageOnly, codes)
    else if msg.authorId !in codes then Outcome(NotSubscribed, codes)
    else if TaskCoolingDown(codes[msg.authorId], now, taskCooldown) then Outcome(OneTaskPerDay, codes)
    else if !throttled && PostContainsCode(lookup, codes[msg.authorId].code) then
      Outcome(TaskVerified, codes[msg.authorId := Rewarded(codes[msg.authorId], now)])
    else Outcome(VerificationFailed, codes)
  }

  // ---------------------------------------------------------------------
  // Handlers on the shared store

  /**
   * `handleSubscribeCommand(message, args, context)`. `open` is what the
   * context's `isAfterRestrictionDate()` answers; `random` the four bytes
   * `crypto.randomBytes(4)` draws.
   */
  method HandleSubscribeCommand(store: SubscriptionStore, msg: Message, args: seq<string>, open: bool,
                                isAddress: string -> bool, random: seq<byte>) returns (reply: Reply)
    requires |random| == 4
    modifies store
    ensures Outcome(reply, store.codes) ==
      Subscribe(old(store.codes), msg, args, open, isAddress, GenerateUniqueCode(random))
    ensures store.file == if reply.Succeeded() then Persisted(store.codes) else old(store.file)
  {
    if !open {
      return NotYetAvailable;
    }
    if msg.inGuild {
      return DirectMessageOnly;
    }
    if msg.authorId in store.codes {
      return AlreadyRegistered;
    }
    if |args| < 2 {
      return SubscribeUsage;
    }
    var twitterHandle := StripAt(args[0]);
    var ethereumAddress := args[1];
    if !ValidHandle(twitterHandle) {
      return InvalidHandle;
    }
    if !isAddress(ethereumAddress) {
      return InvalidAddress;
    }
    if IsAddressAlreadyRegistered(store.codes, ethereumAddress) {
      return AddressTaken;
    }
    var uniqueCode := GenerateUniqueCode(random);
    store.codes := store.codes[msg.authorId := NewRecord(twitterHandle, ethereumAddress, uniqueCode)];
    store.Save();
    reply := PostSubscriptionCode(uniqueCode);
  }

  /** `handleFinalizeCommand(message, args, context)`, probing through `probe` at time `now`. */
  method HandleFinalizeCommand(store: SubscriptionStore, probe: TwitterProbe, msg: Message, open: bool,
                               now: int, lookup: TwitterLookup) returns (reply: Reply)
    modifies store, probe
    ensures Outcome(reply, store.codes) ==
      Finalize(old(store.codes), msg, open, Throttled(old(probe.lastTwitterCallTime), now), lookup)
    ensures store.file == if reply.Succeeded() then Persisted(store.codes) else old(store.file)
    ensures probe.lastTwitterCallTime ==
      if FinalizeProbes(old(store.codes), msg, open)
      then NextCallTime(old(probe.lastTwitterCallTime), now)
      else old(probe.lastTwitterCallTime)
  {
    if !open {
      return NotYetAvailable;
    }
    if msg.inGuild {
      return DirectMessageOnly;
    }
    if msg.authorId !in store.codes {
      return NotSubscribed;
    }
    var subscription := store.codes[msg.authorId];
    if subscription.verified {
      return AlreadyVerified;
    }
    var isVerified := probe.CheckTwitterPostForCode(subscription.twitterHandle, subscription.code, now, lookup);
    if isVerified {
      store.codes := store.codes[msg.authorId := subscription.(verified := true)];
      store.Save();
      reply := Whitelisted;
    } else {
      reply := VerificationFailed;
    }
  }

  /** `handleTaskCommand(message, args, context)` at time `now`. */
  method HandleTaskCommand(store: SubscriptionStore, msg: Message, open: bool, now: int, taskCooldown: int,
                           random: seq<byte>) returns (reply: Reply)
    requires |random| == 4
    modifies store
    ensures Outcome(reply, store.codes) ==
      Task(old(store.codes), msg, open, now, taskCooldown, GenerateUniqueCode(random))
    ensures store.file == if reply.Succeeded() then Persisted(store.codes) else old(store.file)
  {
    if !open {
      return NotYetAvailable;
    }
    if msg.inGuild {
      return DirectMessageOnly;
    }
    if msg.authorId !in store.codes {
      return NotSubscribed;
    }
    var subscription := store.codes[msg.authorId];
    if subscription.lastTask.Some? && subscription.lastTask.value != 0 {
      var timeSinceLastTask := now - subscription.lastTask.value;
      if timeSinceLastTask < taskCooldown {
        return OneTaskPerDay;
      }
    }
    var newTaskCode := GenerateUniqueCode(random);
    store.codes := store.codes[msg.authorId := subscription.(code := newTaskCode)];
    store.Save();
    reply := PostTaskCode(newTaskCode);
  }

  /** `handleVerifyTaskCommand(message, args, context)` at time `now`, probing through `probe`. */
  method HandleVerifyTaskCommand(store: SubscriptionStore, probe: TwitterProbe, msg: Message, open: bool,
                                 now: int, taskCooldown: int, lookup: TwitterLookup) returns (reply: Reply)
    modifies store, probe
    ensures Outcome(reply, store.codes) ==
      VerifyTask(old(store.codes), msg, open, now, taskCooldown, Throttled(old(probe.lastTwitterCallTime), now), lookup)
    ensures store.file == if reply.Succeeded() then Persisted(store.codes) else old(store.file)
    ensures probe.lastTwitterCallTime ==
      if VerifyTaskProbes(old(store.codes), msg, open, now, taskCooldown)
      then NextCallTime(old(probe.lastTwitterCallTime), now)
      else old(probe.lastTwitterCallTime)
  {
    if !open {
      return NotYetAvailable;
    }
    if msg.inGuild {
      return DirectMessageOnly;
    }
    if msg.authorId !in store.codes {
      return NotSubscribed;
    }
    var subscription := store.codes[msg.authorId];
    if subscription.lastTask.Some? && subscription.lastTask.value != 0 {
      var timeSinceLastTask := now - subscription.lastTask.value;
      if timeSinceLastTask < taskCooldown {
        return OneTaskPerDay;
      }
    }
    var isVerified := probe.CheckTwitterPostForCode(subscription.twitterHandle, subscription.code, now, lookup);
    if isVerified {
      subscription := subscription.(lastTask := Some(now), balance := Some(subscription.balance.GetOr(0) + 1000));
      store.codes := store.codes[msg.authorId := subscription];
      store.Save();
      reply := TaskVerified;
    } else {
      reply := VerificationFailed;
    }
  }
}
