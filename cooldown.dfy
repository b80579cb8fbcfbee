/**
 * Per-command, per-user cooldowns: each configured command has a cooldown in
 * seconds, and the table holds, per command, the instant (in milliseconds) until
 * which each user must wait before using it again.
 */
module Cooldown {
  type Command = string
  type UserId = string

  /** The configured cooldown of each command, in seconds. */
  const CommandCooldowns: map<Command, nat> := map[
    "+poll" := 10, "+tictactoe" := 5, "+warn" := 3, "+timeout" := 3, "+ban" := 3,
    "+afk" := 2, "+dnd" := 2, "+av" := 2, "+user" := 2, "+help" := 2
  ]

  /** Every configured command has a cooldown between 2 and 10 seconds; `+poll` has the longest. */
  lemma ConfiguredCooldowns()
    ensures forall c :: c in CommandCooldowns ==> 2 <= Limit(CommandCooldowns, c) <= Limit(CommandCooldowns, "+poll") == 10
  {
  }

  /** Expiry instants in milliseconds, per command and then per user. */
  type Table = map<Command, map<UserId, nat>>

  /** The cooldown of `cmd` in seconds; 0 (falsy, so no cooldown) when it is not configured. */
  function Limit(limits: map<Command, nat>, cmd: Command): nat {
    if cmd in limits then limits[cmd] else 0
  }

  /** The stored expiry of `user` for `cmd`, 0 when none is stored. */
  function Expiry(t: Table, cmd: Command, user: UserId): nat {
    if cmd in t && user in t[cmd] then t[cmd][user] else 0
  }

  /** The smallest whole number of `d`-sized units that covers `n`: the ceiling of `n / d`. */
  function CeilDiv(n: nat, d: nat): (q: nat)
    requires d > 0
    ensures (q - 1) * d < n <= q * d
  {
    (n + d - 1) / d
  }

  /** `t` with the expiry of `user` for `cmd` set to `until`; the inner table of `cmd` is created if absent. */
  function Arm(t: Table, cmd: Command, user: UserId, until: nat): (t': Table)
    ensures t'.Keys == t.Keys + {cmd}
    ensures forall c, u :: Expiry(t', c, u) == if c == cmd && u == user then until else Expiry(t, c, u)
  {
    var inner := if cmd in t then t[cmd] else map[];
    t[cmd := inner[user := until]]
  }

  /** What one check returns: the seconds still to wait (0 when the command may run) and the new table. */
  datatype Outcome = Outcome(wait: nat, table: Table)

  /** One cooldown check of `user` running `cmd` at instant `now` (milliseconds). */
  function Check(limits: map<Command, nat>, t: Table, cmd: Command, user: UserId, now: nat): Outcome {
    if Limit(limits, cmd) == 0 then Outcome(0, t)
    else if now < Expiry(t, cmd, user) then Outcome(CeilDiv(Expiry(t, cmd, user) - now, 1000), t)
    else Outcome(0, Arm(t, cmd, user, now + Limit(limits, cmd) * 1000))
  }

  /** A command without a configured (or with a zero) cooldown never waits and is never recorded. */
  lemma UnconfiguredIsFree(limits: map<Command, nat>, t: Table, cmd: Command, user: UserId, now: nat)
    requires Limit(limits, cmd) == 0
    ensures Check(limits, t, cmd, user, now) == Outcome(0, t)
  {
  }

  /** Before the stored expiry the check reports the remaining whole seconds, at least 1, and changes nothing. */
  lemma WaitingChangesNothing(limits: map<Command, nat>, t: Table, cmd: Command, user: UserId, now: nat)
    requires Limit(limits, cmd) > 0 && now < Expiry(t, cmd, user)
    ensures var o := Check(limits, t, cmd, user, now);
      o.table == t && 1 <= o.wait &&
      (o.wait - 1) * 1000 < Expiry(t, cmd, user) - now <= o.wait * 1000
  {
  }

  /**
   * Once the expiry has passed the check lets the command run, starts a new
   * cooldown for that user and command, and leaves every other entry alone.
   */
  lemma ExpiredRearms(limits: map<Command, nat>, t: Table, cmd: Command, user: UserId, now: nat)
    requires Limit(limits, cmd) > 0 && now >= Expiry(t, cmd, user)
    ensures var o := Check(limits, t, cmd, user, now);
      o.wait == 0 && Expiry(o.table, cmd, user) == now + Limit(limits, cmd) * 1000 &&
      forall c, u :: (c, u) != (cmd, user) ==> Expiry(o.table, c, u) == Expiry(t, c, u)
  {
  }

  /**
   * After a check at `t0` lets `cmd` run, a later check at `t1` by the same user
   * must wait exactly when `t1` falls inside the cooldown window, and then for at
   * most the configured number of seconds.
   */
  lemma CooldownWindow(limits: map<Command, nat>, t: Table, cmd: Command, user: UserId, t0: nat, t1: nat)
    requires Limit(limits, cmd) > 0
    requires Check(limits, t, cmd, user, t0).wait == 0
    requires t0 <= t1
    ensures var o := Check(limits, Check(limits, t, cmd, user, t0).table, cmd, user, t1);
      (o.wait > 0 <==> t1 < t0 + Limit(limits, cmd) * 1000) && o.wait <= Limit(limits, cmd)
  {
    var o0 := Check(limits, t, cmd, user, t0);
    var o := Check(limits, o0.table, cmd, user, t1);
    ExpiredRearms(limits, t, cmd, user, t0);
    if t1 < t0 + Limit(limits, cmd) * 1000 {
      WaitingChangesNothing(limits, o0.table, cmd, user, t1);
      assert (o.wait - 1) * 1000 < Limit(limits, cmd) * 1000;
    }
  }

  /** A check by one user for one command does not change what a check of any other pair reports. */
  lemma Independent(limits: map<Command, nat>, t: Table, cmd: Command, user: UserId, now: nat,
                    cmd': Command, user': UserId, now': nat)
    requires (cmd, user) != (cmd', user')
    ensures Check(limits, Check(limits, t, cmd, user, now).table, cmd', user', now').wait ==
            Check(limits, t, cmd', user', now').wait
  {
  }

  /** With the configured table: `+tictactoe` (5 s) runs at 0 ms, must wait 1 s at 4001 ms, runs again at 5000 ms; `+ping` is free. */
  lemma TicTacToeCooldownExample(user: UserId)
    ensures var o0 := Check(CommandCooldowns, map[], "+tictactoe", user, 0);
      var o1 := Check(CommandCooldowns, o0.table, "+tictactoe", user, 4001);
      var o2 := Check(CommandCooldowns, o1.table, "+tictactoe", user, 5000);
      o0.wait == 0 && o1.wait == 1 && o2.wait == 0 &&
      Check(CommandCooldowns, o2.table, "+ping", user, 5000) == Outcome(0, o2.table)
  {
    var o0 := Check(CommandCooldowns, map[], "+tictactoe", user, 0);
    assert Expiry(o0.table, "+tictactoe", user) == 5000;
  }

  /** The cooldown table, updated in place by each check. */
  class CooldownTable {
    var cooldowns: Table

    constructor ()
      ensures cooldowns == map[]
    {
      cooldowns := map[];
    }

    /**
     * Checks whether `user` may run `cmd` at instant `now` (milliseconds), returning
     * the seconds still to wait, or 0 after starting a new cooldown.
     */
    method IsOnCooldown(cmd: Command, user: UserId, now: nat) returns (wait: nat)
      modifies this
      ensures Outcome(wait, cooldowns) == Check(CommandCooldowns, old(cooldowns), cmd, user, now)
    {
      if cmd !in CommandCooldowns || CommandCooldowns[cmd] == 0 { return 0; }
      if cmd !in cooldowns { cooldowns := cooldowns[cmd := map[]]; }
      var inner := cooldowns[cmd];
      var expire := if user in inner then inner[user] else 0;
      if now < expire { return CeilDiv(expire - now, 1000); }
      cooldowns := cooldowns[cmd := inner[user := now + CommandCooldowns[cmd] * 1000]];
      return 0;
    }
  }
}
