/**
 * Short runs of the handlers on concrete users: enrollment, a second
 * subscription and an address conflict, a failed and a rewarded task.
 * Each step's outcome follows from the handlers' contracts alone.
 */
module Scenarios {
  import opened Wrappers
  import opened Text
  import opened Records
  import opened Store
  import opened CodeGen
  import opened Probe
  import opened Commands

  lemma ScenarioLiterals()
    ensures StripAt("@alice") == "alice" && ValidHandle("alice")
    ensures StripAt("bob") == "bob" && ValidHandle("bob")
    ensures EqualsIgnoreCase("0xAB12", "0xab12")
  {
    assert "@alice"[1..] == "alice";
    assert Lower("0xAB12") == "0xab12" == Lower("0xab12");
  }

  /** `U1` subscribes as `@alice` and finalizes with a post that carries the code. */
  method EnrollmentScenario(isAddress: string -> bool, r1: seq<byte>, now: int)
    requires |r1| == 4
    requires isAddress("0xAB12")
    requires now >= ThrottleInterval
  {
    var store := new SubscriptionStore.Load(None);
    var probe := new TwitterProbe();
    var u1 := Message("U1", false);
    var code := GenerateUniqueCode(r1);

    ScenarioLiterals();
    var reply := HandleSubscribeCommand(store, u1, ["@alice", "0xAB12"], true, isAddress, r1);
    assert reply == PostSubscriptionCode(code);
    assert store.codes == map["U1" := NewRecord("alice", "0xAB12", code)];
    assert !store.codes["U1"].verified && store.file == Some(store.codes);

    var post := "joining with " + code;
    assert post[13..13 + |code|] == code;
    IncludesAt(post, code, 13);
    reply := HandleFinalizeCommand(store, probe, u1, true, now, Timeline([post]));
    assert reply == Whitelisted;
    assert store.codes["U1"].verified && store.file == Some(store.codes);
  }

  /** Once `U1` holds `0xAB12`, `U1` cannot subscribe again and `U2` cannot take the address in lower case. */
  method ConflictScenario(isAddress: string -> bool, r2: seq<byte>, code: string)
    requires |r2| == 4
    requires isAddress("0xAB12") && isAddress("0xab12")
  {
    var enrolled := NewRecord("alice", "0xAB12", code).(verified := true);
    var store := new SubscriptionStore.Load(Some(map["U1" := enrolled]));
    var u1 := Message("U1", false);
    var u2 := Message("U2", false);

    ScenarioLiterals();
    var reply := HandleSubscribeCommand(store, u1, ["alice", "0xAB12"], true, isAddress, r2);
    assert reply == AlreadyRegistered;

    assert AddressMatches(store.codes["U1"], "0xab12");
    reply := HandleSubscribeCommand(store, u2, ["bob", "0xab12"], true, isAddress, r2);
    assert reply == AddressTaken;
    assert store.codes.Keys == {"U1"};
  }

  /** A verified user asks for a task and fails to verify it: no reward, no cooldown. */
  method TaskScenario(record: Record, r: seq<byte>, now: int, taskCooldown: int)
    requires |r| == 4
    requires record.verified && record.balance == Some(0) && record.lastTask.None?
    requires now >= ThrottleInterval
  {
    var store := new SubscriptionStore.Load(Some(map["U1" := record]));
    var probe := new TwitterProbe();
    var u1 := Message("U1", false);

    var reply := HandleTaskCommand(store, u1, true, now, taskCooldown, r);
    var c1 := GenerateUniqueCode(r);
    assert reply == PostTaskCode(c1);
    assert store.codes["U1"].code == c1 && store.codes["U1"].lastTask.None?;

    reply := HandleVerifyTaskCommand(store, probe, u1, true, now, taskCooldown, Timeline([]));
    assert reply == VerificationFailed;
    assert Balance(store.codes["U1"]) == 0 && store.codes["U1"].lastTask.None?;
  }

  /**
   * A user holding task code `c1` verifies it for the reward and is refused
   * a new task within the cooldown.
   */
  method RewardScenario(record: Record, r: seq<byte>, now: int, taskCooldown: int)
    requires |r| == 4
    requires record.verified && record.balance == Some(0) && record.lastTask.None?
    requires now >= ThrottleInterval && taskCooldown > 1
  {
    var c1 := record.code;
    var store := new SubscriptionStore.Load(Some(map["U1" := record]));
    var probe := new TwitterProbe();
    var u1 := Message("U1", false);

    assert c1[0..|c1|] == c1;
    IncludesAt(c1, c1, 0);
    var reply := HandleVerifyTaskCommand(store, probe, u1, true, now, taskCooldown, Timeline([c1]));
    assert reply == TaskVerified;
    assert Balance(store.codes["U1"]) == TaskReward && store.codes["U1"].lastTask == Some(now);

    reply := HandleTaskCommand(store, u1, true, now + 1, taskCooldown, r);
    assert reply == OneTaskPerDay;
    assert store.codes["U1"].code == c1;
  }
}
