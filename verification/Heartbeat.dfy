/**
  The heartbeat thread and `unregister` as two threads over one Redis key with a
  time to live. Every interleaving is a sequence of the steps below; time passes
  in `Tick` steps and the thread is never later than `delay`.
 */
module Heartbeat {
  import opened Wrappers

  /** Seconds: time to live of the key, sleep of the loop, and the longest lag of the thread after its sleep. */
  datatype Config = Config(ttl: real, check: real, delay: real)

  predicate ValidConfig(c: Config) {
    c.ttl > 0.0 && c.check >= 0.0 && c.delay >= 0.0
  }

  /** Where the loop is; `due` is the latest time of its next SET. */
  datatype Loop = Testing(due: real) | Setting(due: real) | Sleeping(until: real, due: real) | Left

  /** How far `unregister` is. */
  datatype Unregister = Waiting | Deleted | Returned

  datatype State = State(now: real, expiry: Option<real>, loop: Loop, unregister: Unregister, sets: nat, lastSet: real)

  predicate FlagSet(s: State) { s.unregister.Returned? }

  predicate Present(s: State) { s.expiry.Some? && s.now < s.expiry.value }

  function Start(c: Config): State { State(0.0, None, Testing(c.delay), Waiting, 0, 0.0) }

  datatype Step = Test | Set | Wake | Delete | SetFlag | Tick(d: real)

  /** One step; a step that is not enabled changes nothing. */
  function Next(c: Config, s: State, step: Step): State {
    match step
    case Test =>
      if s.loop.Testing? then s.(loop := if FlagSet(s) then Left else Setting(s.loop.due)) else s
    case Set =>
      if s.loop.Setting? then
        s.(expiry := Some(s.now + c.ttl), sets := s.sets + 1, lastSet := s.now,
           loop := Sleeping(s.now + c.check, s.now + c.check + c.delay))
      else s
    case Wake =>
      if s.loop.Sleeping? && s.now >= s.loop.until then s.(loop := Testing(s.loop.due)) else s
    case Delete =>
      if s.unregister.Waiting? then s.(expiry := None, unregister := Deleted) else s
    case SetFlag =>
      if s.unregister.Deleted? then s.(unregister := Returned) else s
    case Tick(d) =>
      if d > 0.0 && (s.loop.Left? || s.now + d <= s.loop.due) then s.(now := s.now + d) else s
  }

  function Run(c: Config, s: State, steps: seq<Step>): State {
    if steps == [] then s else Next(c, Run(c, s, steps[..|steps| - 1]), steps[|steps| - 1])
  }

  // ---------- the invariant ----------

  predicate Inv(c: Config, s: State) {
    && (!s.loop.Left? ==> s.now <= s.loop.due)
    && (s.loop.Testing? || s.loop.Setting? ==> s.loop.due <= s.now + c.delay)
    && (s.loop.Sleeping? ==> s.loop.due == s.loop.until + c.delay)
    && (s.expiry.Some? ==> s.sets > 0 && s.expiry.value == s.lastSet + c.ttl)
    && (s.unregister.Waiting? ==> !s.loop.Left? && (s.sets > 0 ==> s.expiry.Some?))
    && (s.unregister.Waiting? && s.sets > 0 ==> s.loop.due == s.lastSet + c.check + c.delay)
    && s.lastSet <= s.now
    && (s.loop.Sleeping? ==> s.sets > 0 && s.loop.until == s.lastSet + c.check)
    && ((s.loop.Testing? || s.loop.Setting?) && s.sets > 0 ==> s.now >= s.lastSet + c.check)
  }

  lemma NextKeeps(c: Config, s: State, step: Step)
    requires ValidConfig(c) && Inv(c, s)
    ensures Inv(c, Next(c, s, step))
  {
  }

  lemma {:induction false} RunKeeps(c: Config, s: State, steps: seq<Step>)
    requires ValidConfig(c) && Inv(c, s)
    ensures Inv(c, Run(c, s, steps))
  {
    if steps != [] {
      RunKeeps(c, s, steps[..|steps| - 1]);
      NextKeeps(c, Run(c, s, steps[..|steps| - 1]), steps[|steps| - 1]);
    }
  }

  // ---------- while the agent lives ----------

  /** In every state of every run the key is there from the first SET until `unregister` deletes it. */
  ghost predicate NeverMissed(c: Config) {
    forall steps: seq<Step> ::
      var s := Run(c, Start(c), steps);
      s.sets > 0 && s.unregister.Waiting? ==> Present(s)
  }

  /** A live agent is never missed exactly when its sleep and lag together stay below the time to live. */
  lemma NeverMissedExactly(c: Config)
    requires ValidConfig(c)
    ensures NeverMissed(c) <==> c.check + c.delay < c.ttl
  {
    if c.check + c.delay < c.ttl {
      forall steps: seq<Step>
        ensures var s := Run(c, Start(c), steps); s.sets > 0 && s.unregister.Waiting? ==> Present(s)
      {
        RunKeeps(c, Start(c), steps);
      }
    } else {
      var steps := [Test, Set, Tick(c.ttl)];
      assert steps[..2] == [Test, Set] && steps[..2][..1] == [Test] && steps[..1][..0] == [];
      assert Run(c, Start(c), [Test]) == Next(c, Start(c), Test);
      assert Run(c, Start(c), [Test, Set]) == Next(c, Next(c, Start(c), Test), Set);
      var s := Run(c, Start(c), steps);
      assert s.sets > 0 && s.unregister.Waiting? && !Present(s);
    }
  }

  /** The thread's own defaults allow a lag below five seconds; the server's settings allow none. */
  lemma ShippedSettings(delay: real)
    requires delay >= 0.0
    ensures NeverMissed(Config(15.0, 10.0, delay)) <==> delay < 5.0
    ensures !NeverMissed(Config(240.0, 300.0, delay))
  {
    NeverMissedExactly(Config(15.0, 10.0, delay));
    NeverMissedExactly(Config(240.0, 300.0, delay));
  }

  /** Two SETs are at least the sleep apart, and while the agent lives at most the sleep and the lag. */
  lemma SetsKeepTheirDistance(c: Config, steps: seq<Step>)
    requires ValidConfig(c)
    ensures var s := Run(c, Start(c), steps);
            var s' := Next(c, s, Set);
            s'.sets > s.sets > 0 ==>
              && s.lastSet + c.check <= s'.lastSet
              && (s.unregister.Waiting? ==> s'.lastSet <= s.lastSet + c.check + c.delay)
              && s'.expiry == Some(s'.lastSet + c.ttl)
  {
    RunKeeps(c, Start(c), steps);
  }

  // ---------- after unregister ----------

  /** Once the flag is set the thread writes at most once more, and only if it was about to. */
  lemma {:induction false} OneLateSet(c: Config, s: State, steps: seq<Step>)
    requires ValidConfig(c) && Inv(c, s) && FlagSet(s)
    ensures var s' := Run(c, s, steps);
            && FlagSet(s')
            && s'.sets + (if s'.loop.Setting? then 1 else 0) <= s.sets + (if s.loop.Setting? then 1 else 0)
            && (s'.sets > s.sets ==> s'.lastSet <= s.now + c.delay)
            && (s'.sets == s.sets ==> s'.lastSet == s.lastSet && s'.expiry == s.expiry)
            && (s'.loop.Setting? ==> s.loop.Setting? && s'.loop.due == s.loop.due)
            && s'.now >= s.now && s'.sets >= s.sets
  {
    if steps != [] {
      OneLateSet(c, s, steps[..|steps| - 1]);
      RunKeeps(c, s, steps[..|steps| - 1]);
    }
  }

  /** The key is gone for good once the lag and the time to live have passed after the flag was set. */
  lemma GoneInTime(c: Config, before: seq<Step>, after: seq<Step>)
    requires ValidConfig(c)
    requires FlagSet(Run(c, Start(c), before))
    requires Run(c, Run(c, Start(c), before), after).now >= Run(c, Start(c), before).now + c.delay + c.ttl
    ensures !Present(Run(c, Run(c, Start(c), before), after))
  {
    var s := Run(c, Start(c), before);
    RunKeeps(c, Start(c), before);
    RunKeeps(c, s, after);
    OneLateSet(c, s, after);
  }

  /** `unregister` has returned only after it deleted the key, and then set the flag. */
  lemma {:induction false} DeletedBeforeFlag(c: Config, steps: seq<Step>) returns (i: nat, j: nat)
    requires FlagSet(Run(c, Start(c), steps))
    ensures i < j < |steps| && steps[i] == Delete && steps[j] == SetFlag
    ensures Run(c, Start(c), steps[..i + 1]).expiry == None
    ensures Run(c, Start(c), steps[..j]).unregister.Deleted? && FlagSet(Run(c, Start(c), steps[..j + 1]))
  {
    var n := |steps| - 1;
    assert steps != [];
    if FlagSet(Run(c, Start(c), steps[..n])) {
      i, j := DeletedBeforeFlag(c, steps[..n]);
      assert steps[..n][..i + 1] == steps[..i + 1] && steps[..n][..j] == steps[..j];
      assert steps[..n][..j + 1] == steps[..j + 1];
    } else {
      j := n;
      assert steps[..n + 1] == steps;
      i := DeletedAt(c, steps[..n]);
      assert steps[..n][..i + 1] == steps[..i + 1];
    }
  }

  lemma {:induction false} DeletedAt(c: Config, steps: seq<Step>) returns (i: nat)
    requires Run(c, Start(c), steps).unregister.Deleted?
    ensures i < |steps| && steps[i] == Delete && Run(c, Start(c), steps[..i + 1]).expiry == None
  {
    var n := |steps| - 1;
    assert steps != [];
    if Run(c, Start(c), steps[..n]).unregister.Deleted? {
      i := DeletedAt(c, steps[..n]);
      assert steps[..n][..i + 1] == steps[..i + 1];
    } else {
      i := n;
      assert steps[..n + 1] == steps;
    }
  }

  /** The thread ends: once the sleep and two lags have passed after the flag was set, the loop is left. */
  lemma ThreadLeaves(c: Config, before: seq<Step>, after: seq<Step>)
    requires ValidConfig(c) && FlagSet(Run(c, Start(c), before))
    ensures var s := Run(c, Start(c), before);
            var s' := Run(c, s, after);
            s'.now > s.now + c.check + 2.0 * c.delay ==> s'.loop.Left?
  {
    var s := Run(c, Start(c), before);
    RunKeeps(c, Start(c), before);
    RunKeeps(c, s, after);
    DueBound(c, s, after);
  }

  lemma {:induction false} DueBound(c: Config, s: State, steps: seq<Step>)
    requires ValidConfig(c) && Inv(c, s) && FlagSet(s)
    ensures var s' := Run(c, s, steps);
            !s'.loop.Left? ==> s'.loop.due <= s.now + c.check + 2.0 * c.delay
  {
    if steps != [] {
      var before := steps[..|steps| - 1];
      DueBound(c, s, before);
      OneLateSet(c, s, before);
      RunKeeps(c, s, before);
    }
  }

  /** From the moment `unregister` returned the key is never seen again. */
  ghost predicate GoneForGood(c: Config, s: State) {
    forall steps: seq<Step> :: !Present(Run(c, s, steps))
  }

  /**
    `unregister` deletes before it sets the flag: the key stays away exactly when
    it is absent on return and the thread is not between its test and its SET.
   */
  lemma GoneForGoodExactly(c: Config, before: seq<Step>)
    requires ValidConfig(c) && FlagSet(Run(c, Start(c), before))
    ensures var s := Run(c, Start(c), before);
            GoneForGood(c, s) <==> !Present(s) && !s.loop.Setting?
  {
    var s := Run(c, Start(c), before);
    RunKeeps(c, Start(c), before);
    if !Present(s) && !s.loop.Setting? {
      forall steps: seq<Step> ensures !Present(Run(c, s, steps)) {
        RunKeeps(c, s, steps);
        OneLateSet(c, s, steps);
      }
    } else if s.loop.Setting? {
      assert Run(c, s, [Set]) == Next(c, s, Set);
      assert Present(Run(c, s, [Set]));
    } else {
      assert Run(c, s, []) == s;
    }
  }

  /** The steps that bring the thread from where it is to just before its SET. */
  function ToSetting(s: State): seq<Step> {
    match s.loop
    case Testing(_) => [Test]
    case Setting(_) => []
    case Sleeping(until, _) => if s.now < until then [Tick(until - s.now), Wake, Test] else [Wake, Test]
    case Left => []
  }

  lemma {:induction false} RunAppend(c: Config, s: State, a: seq<Step>, b: seq<Step>)
    ensures Run(c, s, a + b) == Run(c, Run(c, s, a), b)
  {
    if b == [] {
      assert a + b == a;
    } else {
      assert (a + b)[..|a + b| - 1] == a + b[..|b| - 1];
      RunAppend(c, s, a, b[..|b| - 1]);
    }
  }

  lemma RunOne(c: Config, s: State, step: Step)
    ensures Run(c, s, [step]) == Next(c, s, step)
  {
    assert [step][..0] == [];
    assert Run(c, s, []) == s;
  }

  lemma RunTwo(c: Config, s: State, a: Step, b: Step)
    ensures Run(c, s, [a, b]) == Next(c, Next(c, s, a), b)
  {
    RunAppend(c, s, [a], [b]);
    RunOne(c, s, a);
    RunOne(c, Next(c, s, a), b);
    assert [a] + [b] == [a, b];
  }

  lemma ReachesSetting(c: Config, s: State)
    requires ValidConfig(c) && Inv(c, s) && s.unregister.Waiting?
    ensures Run(c, s, ToSetting(s)).loop.Setting? && Run(c, s, ToSetting(s)).unregister.Waiting?
  {
    hide Run;
    match s.loop
    case Testing(_) => RunOne(c, s, Test);
    case Setting(_) => RunNothing(c, s);
    case Sleeping(until, _) =>
      if s.now < until {
        var d := until - s.now;
        RunAppend(c, s, [Tick(d)], [Wake, Test]);
        RunOne(c, s, Tick(d));
        RunTwo(c, Next(c, s, Tick(d)), Wake, Test);
        assert [Tick(d)] + [Wake, Test] == [Tick(d), Wake, Test];
      } else {
        RunTwo(c, s, Wake, Test);
      }
    case Left =>
  }

  lemma RunNothing(c: Config, s: State)
    ensures Run(c, s, []) == s
  {
  }

  /**
    That race is always open: from every reachable state in which `unregister` has not begun,
    some interleaving has it return with the key absent and then brings the key back.
   */
  lemma ResurrectedKey(c: Config, before: seq<Step>) returns (during: seq<Step>, after: seq<Step>)
    requires ValidConfig(c) && Run(c, Start(c), before).unregister.Waiting?
    ensures var returned := Run(c, Run(c, Start(c), before), during);
            && FlagSet(returned) && !Present(returned)
            && Present(Run(c, returned, after))
  {
    var s := Run(c, Start(c), before);
    RunKeeps(c, Start(c), before);
    hide Run;
    ReachesSetting(c, s);
    during, after := ToSetting(s) + [Delete, SetFlag], [Set];
    RunAppend(c, s, ToSetting(s), [Delete, SetFlag]);
    var setting := Run(c, s, ToSetting(s));
    RunTwo(c, setting, Delete, SetFlag);
    RunOne(c, Run(c, s, during), Set);
  }
}
