/** What the call manager promises over whole runs, and of single grants, starts
    and management passes. */
module CallsTheorems {
  import opened Common
  import opened Recorders
  import opened Calls
  import opened CallsSafe

  // ---------------------------------------------------------------- every run

  /** Over every run, a deleted call was concluded exactly once if it ever recorded
      and never if it did not; a call still listed was concluded only if it was
      superseded; and every call ever made is listed or deleted. */
  lemma ConcludedExactlyOnce(w: World, events: seq<Event>, n: nat)
    requires Initial(w)
    ensures var v := Run(w, events);
      && (n in v.deleted ==> v.concluded[n] == if n in v.recorded then 1 else 0)
      && (n < v.counter ==> n in v.deleted || exists i :: 0 <= i < |v.calls| && v.calls[i].num == n)
      && (forall i :: 0 <= i < |v.calls| && v.calls[i].num == n ==>
            (n !in v.deleted && v.concluded[n] == if Ended(v.calls[i]) then 1 else 0))
  {
    hide Initial, Run, AllHold, AllApart, PoolsFull;
    RunKeeps(w, events);
    var v := Run(w, events);
    if n in v.deleted { assert ConcludedRight(v, n); }
    if n < v.counter && n !in v.deleted { assert Listed(v.calls, n); }
    assert forall i :: 0 <= i < |v.calls| ==> HistoryOf(v, v.calls[i]);
  }

  /** After shutdown no call is left, and every call that ever recorded was
      concluded exactly once. */
  lemma ShutDownConcludesAll(w: World, events: seq<Event>, n: nat)
    requires Initial(w)
    ensures var v := Run(w, events + [Exit]);
      v.calls == [] && v.concluded[n] == if n in v.recorded then 1 else 0
  {
    hide Initial, Inv, Run, ShutDown;
    RunKeeps(w, events);
    RunKeeps(w, events + [Exit]);
    RunLast(w, events, Exit);
    ShutDownKeeps(Run(w, events));
    NothingListed(Run(w, events + [Exit]), n);
  }

  lemma RunLast(w: World, events: seq<Event>, e: Event)
    ensures Run(w, events + [e]) == Step(Run(w, events), e)
  {
    assert (events + [e])[..|events|] == events;
  }

  lemma NothingListed(v: World, n: nat)
    requires Inv(v) && v.calls == []
    ensures v.concluded[n] == if n in v.recorded then 1 else 0
  {
    if n < v.counter {
      assert !Listed(v.calls, n);
      assert ConcludedRight(v, n);
    }
  }

  /** In every reachable state each recording call holds a recorder that is not
      available, no two hold the same one, no two calls have the same talkgroup,
      system, frequency, slot and TDMA flag, and calls only monitor or record. */
  lemma RecordersHeld(w: World, events: seq<Event>, i: nat, j: nat)
    requires Initial(w)
    requires var v := Run(w, events); i < |v.calls| && j < |v.calls|
    ensures var v := Run(w, events); var c, d := v.calls[i], v.calls[j];
      && (c.state == MONITORING || c.state == RECORDING)
      && (c.state == RECORDING ==> c.recorder.Some? && Exists(v.sources, c.recorder.value)
                                   && !Free(v.sources, c.recorder.value))
      && (i != j && c.state == RECORDING && d.state == RECORDING ==> c.recorder != d.recorder)
      && (i != j ==> !(c.talkgroup == d.talkgroup && c.sysNum == d.sysNum && c.freq == d.freq
                       && c.slot == d.slot && c.phase2 == d.phase2))
  {
    hide Initial, Run, PoolsFull, Accounted, LiveHistory, DeletedHistory, FutureHistory;
    RunKeeps(w, events);
    var v := Run(w, events);
    assert Holds(v.sources, v.calls[i]);
    if i != j { assert Apart(v.calls[if i < j then i else j], v.calls[if i < j then j else i]); }
  }

  ghost predicate SameSizes(a: seq<Source>, b: seq<Source>) {
    |a| == |b| && forall s :: 0 <= s < |a| ==>
      |a[s].digital| == |b[s].digital| && |a[s].analog| == |b[s].analog|
  }

  lemma StartSizes(env: Env, sys: System, sources: seq<Source>, c: Call)
    requires c.state == MONITORING && c.monitoring == UNSPECIFIED
    ensures SameSizes(StartRecorder(env, sys, sources, c).sources, sources)
  {
    hide StartRecorder;
    StartShaped(env, sys, sources, c);
  }

  lemma GrantSizes(w: World, env: Env, m: Message)
    ensures SameSizes(HandleGrant(w, env, m).sources, w.sources)
  {
    hide StartRecorder, Superseding, Found, UpdateAll;
    var c := NewCall(w.counter, m, env.now);
    StartSizes(env, env.systems(c.sysNum), w.sources, c);
  }

  lemma {:induction false} ManageSizes(w: World, t: Timing, i: nat)
    requires i <= |w.calls|
    ensures SameSizes(ManageFrom(w, t, i).sources, w.sources)
    decreases |w.calls| - i
  {
    hide TimedOut;
    if i < |w.calls| {
      if TimedOut(t, w.calls[i]) { ManageSizes(Remove(w, i), t, i); } else { ManageSizes(w, t, i + 1); }
    }
  }

  lemma {:induction false} ShutDownSizes(w: World)
    ensures SameSizes(ShutDown(w).sources, w.sources)
    decreases |w.calls|
  {
    if w.calls != [] { ShutDownSizes(Remove(w, 0)); }
  }

  lemma {:induction false} RunSizes(w: World, events: seq<Event>)
    ensures SameSizes(Run(w, events).sources, w.sources)
    decreases |events|
  {
    hide HandleGrant, ManageFrom, ShutDown;
    if events != [] {
      var v := Run(w, events[..|events| - 1]);
      RunSizes(w, events[..|events| - 1]);
      match events[|events| - 1]
      case Grant(env, m) => GrantSizes(v, env, m);
      case Update(env, m) =>
      case Manage(t) => ManageSizes(v, t, 0);
      case Exit => ShutDownSizes(v);
    }
  }

  /** In every reachable state and every pool, the free recorders and the calls
      recording there make up the pool that the source began with. */
  lemma RecordersConserved(w: World, events: seq<Event>, s: nat, analog: bool)
    requires Initial(w) && s < |w.sources|
    ensures var v := Run(w, events);
      |v.sources| == |w.sources| &&
      Available(v.sources, s, analog) + CountIn(v.calls, s, analog) == |PoolOf(w.sources, s, analog)|
  {
    hide Initial, Run, Available, CountIn, AllHold, AllApart, LiveHistory, Accounted;
    RunKeeps(w, events);
    RunSizes(w, events);
    assert PoolFull(Run(w, events), s, analog);
  }

  // ---------------------------------------------------------------- duplicate and superseding grants

  /** A grant that duplicates a recording call does not raise the number of
      recording calls; a superseding one leaves it as it is, whether or not its
      recorder starts. */
  lemma GrantsRecording(w: World, env: Env, m: Message)
    requires Inv(w)
    ensures var n, k := CountRecording(w.calls), CountRecording(HandleGrant(w, env, m).calls);
      && (Original(env, w.calls, m, |w.calls|).Some? ==> k == n)
      && n <= k <= n + 1
      && (Found(w.calls, m) ==> k == n)
  {
    hide Inv, Found, Superseding, StartRecorder, Duplicates, Superseded, CountRecording, UpdateAll, Original;
    var v := w.(calls := UpdateAll(w.calls, m, env.now));
    UpdateAlike(w.calls, m, env.now);
    CountAlike(w.calls, v.calls, 0, false);
    if !Found(w.calls, m) {
      var c := NewCall(w.counter, m, env.now);
      StartShaped(env, env.systems(c.sysNum), v.sources, c);
      EnteredKeeps(w, env, m);
      var original := Original(env, w.calls, m, |w.calls|);
      var start := Superseding(env, w.calls, m) || original == None;
      var (u, d, ok) := Begun(v.(counter := w.counter + 1), env, c, start);
      CountAppend(u.calls, d, 0, false);
      if Superseding(env, w.calls, m) { SupersedingHasOriginal(env, w.calls, m); }
      if Superseding(env, w.calls, m) && ok {
        OriginalRecords(env, w.calls, m, |w.calls|);
        SupersededThenEntered(u, d, original.value);
        SupersededKeeps(Entered(w, env, m), original.value);
      }
    }
  }

  /** The grant makes a new call, and its recorder starts. */
  predicate NewCallStarts(w: World, env: Env, m: Message) {
    var v := w.(calls := UpdateAll(w.calls, m, env.now), counter := w.counter + 1);
    !Found(w.calls, m) && Begun(v, env, NewCall(w.counter, m, env.now), true).2
  }

  /** After a superseding grant has started, none of the calls that it duplicates
      records any more exactly when it duplicates only one: the call that is stopped
      is the last of them, whichever of them the grant is preferred to. */
  lemma SupersedesAllExactly(w: World, env: Env, m: Message)
    requires Superseding(env, w.calls, m) && NewCallStarts(w, env, m)
    ensures var after := HandleGrant(w, env, m).calls;
      |after| == |w.calls| + 1 &&
      ((forall i :: 0 <= i < |w.calls| && Duplicates(env, w.calls[i], m) ==> after[i].state != RECORDING)
       <==> (forall i, j :: 0 <= i < j < |w.calls| ==> !Duplicates(env, w.calls[i], m) || !Duplicates(env, w.calls[j], m)))
  {
    hide Superseding, Found, StartRecorder, Matches, MultiSite, SameBySite, SameByName;
    var after := HandleGrant(w, env, m).calls;
    SupersedingHasOriginal(env, w.calls, m);
    var k := Original(env, w.calls, m, |w.calls|).value;
    assert forall i :: 0 <= i < |w.calls| ==>
      after[i].state == if i == k then MONITORING else w.calls[i].state;
    OriginalLast(env, w.calls, m, |w.calls|);
    if i :| 0 <= i < |w.calls| && i != k && Duplicates(env, w.calls[i], m) {
      assert after[i].state == RECORDING;
    }
  }

  lemma {:induction false} OriginalLast(env: Env, calls: seq<Call>, m: Message, n: nat)
    requires n <= |calls|
    ensures var o := Original(env, calls, m, n); o.Some? ==>
      forall j :: o.value < j < n ==> !Duplicates(env, calls[j], m)
  {
    hide Duplicates;
    if n > 0 && !Duplicates(env, calls[n - 1], m) { OriginalLast(env, calls, m, n - 1); }
  }

  // ---------------------------------------------------------------- two duplicates of one grant

  /** Two sites of one network, of which the second is preferred. */
  function TwoSites(n: int): System {
    System(true, 1, 0, if n == 0 then 1 else 2, if n == 0 then 5 else 0, "", 0, true, false, map[], [])
  }

  const TWO_SITES: Env := Env(TwoSites, false, 0, true)

  function OnChannel(site: int, freq: real): Message { Message(7, site, freq, 0, false, 1, false) }

  function OneSource(pool: Pool): seq<Source> { [Source(0.0, 9.0, pool, [])] }

  const NO_CALLS: World := World(OneSource([true, true, true]), [], 0, {}, multiset{}, {})

  const FIRST_CHANNEL: Message := OnChannel(0, 1.0)
  const SECOND_CHANNEL: Message := OnChannel(0, 2.0)
  const OTHER_SITE: Message := OnChannel(1, 3.0)

  lemma StartsOnFirst(w: World, c: Call, pool: Pool, i: nat)
    requires w.sources == OneSource(pool) && FirstFree(pool, 0) == Some(i) && 0.0 <= c.freq <= 9.0 && !c.encrypted
    ensures var b := Begun(w, TWO_SITES, c, true);
      && b.0 == w.(sources := OneSource(pool[i := false]), recorded := w.recorded + {c.num})
      && b.1 == c.(recorder := Some(Recorder(0, false, i)), state := RECORDING) && b.2
  {
    hide SetFree;
    var sys := TwoSites(c.sysNum);
    assert FirstCovering(w.sources, c.freq, 0) == Some(0);
    assert StartRecorder(TWO_SITES, sys, w.sources, c) == StartOn(TWO_SITES, sys, w.sources, c, 0);
    TakenOnly(pool, i);
  }

  lemma TakenOnly(pool: Pool, i: nat)
    requires i < |pool|
    ensures Taken(OneSource(pool), Recorder(0, false, i)) == OneSource(pool[i := false])
  {
  }

  /** A call of that talkgroup that records at the first site. */
  predicate RecordsThere(c: Call, freq: real) {
    c.talkgroup == 7 && c.sysNum == 0 && c.state == RECORDING && c.freq == freq
  }

  lemma FirstGrant()
    ensures var u := HandleGrant(NO_CALLS, TWO_SITES, FIRST_CHANNEL);
      |u.calls| == 1 && RecordsThere(u.calls[0], 1.0) && u.sources == OneSource([false, true, true])
  {
    hide Begun;
    var w := NO_CALLS;
    StartsOnFirst(w.(calls := UpdateAll([], FIRST_CHANNEL, 0), counter := 1), NewCall(0, FIRST_CHANNEL, 0),
                  [true, true, true], 0);
    assert [true, true, true][0 := false] == [false, true, true];
  }

  lemma SecondGrant(w: World)
    requires |w.calls| == 1 && RecordsThere(w.calls[0], 1.0) && w.sources == OneSource([false, true, true])
    ensures var u := HandleGrant(w, TWO_SITES, SECOND_CHANNEL);
      && |u.calls| == 2 && RecordsThere(u.calls[0], 1.0) && RecordsThere(u.calls[1], 2.0)
      && u.sources == OneSource([false, false, true])
  {
    hide Begun;
    StartsOnFirst(w.(calls := UpdateAll(w.calls, SECOND_CHANNEL, 0), counter := w.counter + 1),
                  NewCall(w.counter, SECOND_CHANNEL, 0), [false, true, true], 1);
    assert [false, true, true][1 := false] == [false, false, true];
  }

  /** After grants on two channels of the first site, a grant at the second starts
      and supersedes, and one of the two calls goes on recording. */
  lemma OneGoesOn()
    ensures var w := Run(NO_CALLS, [Grant(TWO_SITES, FIRST_CHANNEL), Grant(TWO_SITES, SECOND_CHANNEL)]);
      && Superseding(TWO_SITES, w.calls, OTHER_SITE) && NewCallStarts(w, TWO_SITES, OTHER_SITE)
      && exists i :: 0 <= i < |w.calls| && Duplicates(TWO_SITES, w.calls[i], OTHER_SITE)
           && HandleGrant(w, TWO_SITES, OTHER_SITE).calls[i].state == RECORDING
  {
    hide HandleGrant, Begun;
    var es := [Grant(TWO_SITES, FIRST_CHANNEL), Grant(TWO_SITES, SECOND_CHANNEL)];
    assert es[..1][..0] == [] && es[..1] == [Grant(TWO_SITES, FIRST_CHANNEL)];
    var u := HandleGrant(NO_CALLS, TWO_SITES, FIRST_CHANNEL);
    assert Run(NO_CALLS, es[..1]) == u;
    FirstGrant();
    SecondGrant(u);
    var w := HandleGrant(u, TWO_SITES, SECOND_CHANNEL);
    assert Run(NO_CALLS, es) == w;
    StartsOnFirst(w.(calls := UpdateAll(w.calls, OTHER_SITE, 0), counter := w.counter + 1),
                  NewCall(w.counter, OTHER_SITE, 0), [false, false, true], 2);
    assert Supersedes(TWO_SITES, w.calls[0], OTHER_SITE) && Duplicates(TWO_SITES, w.calls[1], OTHER_SITE);
    SupersedesAllExactly(w, TWO_SITES, OTHER_SITE);
  }

  // ---------------------------------------------------------------- priority

  lemma {:induction false} MinPriorityIsLeast(sys: System, ids: seq<int>, p: int)
    ensures var q := MinPriority(sys, ids, p);
      && q <= p && (forall t :: t in ids && t in sys.talkgroups ==> q <= sys.talkgroups[t].priority)
      && (q == p || exists t :: t in ids && t in sys.talkgroups && q == sys.talkgroups[t].priority)
    decreases |ids|
  {
    if ids != [] {
      var id := ids[0];
      var best := if id in sys.talkgroups && sys.talkgroups[id].priority < p then sys.talkgroups[id].priority else p;
      MinPriorityIsLeast(sys, ids[1..], best);
      assert forall t :: t in ids <==> t == id || t in ids[1..];
    }
  }

  /** The talkgroups that count for a call: its own, and those listed that are in a patch with it. */
  ghost predicate Counts(sys: System, tg: int, t: int) {
    t in sys.talkgroups && (t == tg || exists p :: p in sys.patches && tg in p && t in p)
  }

  /** The effective priority is the least priority of the talkgroups that count. */
  lemma EffectivePriorityIsLeast(sys: System, tg: int)
    requires tg in sys.talkgroups
    ensures forall t :: Counts(sys, tg, t) ==> EffectivePriority(sys, tg) <= sys.talkgroups[t].priority
    ensures exists t :: Counts(sys, tg, t) && EffectivePriority(sys, tg) == sys.talkgroups[t].priority
  {
    MinPriorityIsLeast(sys, Patched(sys.patches, tg), sys.talkgroups[tg].priority);
    assert Counts(sys, tg, tg);
    forall t | t in Patched(sys.patches, tg) && t in sys.talkgroups ensures Counts(sys, tg, t) {
    }
  }

  /** A call of effective priority p that starts leaves at least p - 1 recorders
      of its pool free, and takes exactly one; its source is the first that covers it. */
  lemma PriorityReserve(env: Env, sys: System, sources: seq<Source>, c: Call)
    requires c.talkgroup in sys.talkgroups && c.state == MONITORING
    requires StartRecorder(env, sys, sources, c).ok
    ensures var r := StartRecorder(env, sys, sources, c); var rec := r.call.recorder.value;
      && r.call.recorder.Some? && Exists(sources, rec) && Free(sources, rec)
      && FirstCovering(sources, c.freq, 0) == Some(rec.source)
      && Available(r.sources, rec.source, rec.analog) == Available(sources, rec.source, rec.analog) - 1
      && Available(r.sources, rec.source, rec.analog) >= EffectivePriority(sys, c.talkgroup) - 1
      && EffectivePriority(sys, c.talkgroup) != -1
  {
    hide EffectivePriority, EncryptedMode, Available, SetFree;
    var s := FirstCovering(sources, c.freq, 0).value;
    StartReserve(env, sys, sources, c, s);
  }

  lemma StartReserve(env: Env, sys: System, sources: seq<Source>, c: Call, s: nat)
    requires c.talkgroup in sys.talkgroups && c.state == MONITORING && s < |sources|
    requires StartOn(env, sys, sources, c, s).ok
    ensures var r := StartOn(env, sys, sources, c, s); var rec := r.call.recorder.value;
      && r.call.recorder.Some? && Exists(sources, rec) && Free(sources, rec) && rec.source == s
      && Available(r.sources, s, rec.analog) == Available(sources, s, rec.analog) - 1
      && EffectivePriority(sys, c.talkgroup) <= Available(sources, s, rec.analog)
      && EffectivePriority(sys, c.talkgroup) != -1
  {
    hide EffectivePriority, SetFree;
    var rec := StartOn(env, sys, sources, c, s).call.recorder.value;
    AvailableAfter(sources, rec, false, s, rec.analog);
  }

  // ---------------------------------------------------------------- management

  function Survivors(calls: seq<Call>, t: Timing): seq<Call> {
    if calls == [] then []
    else (if TimedOut(t, calls[0]) then [] else [calls[0]]) + Survivors(calls[1..], t)
  }

  /** A management pass leaves exactly the calls that have not timed out, in order. */
  lemma {:induction false} ManageLeavesSurvivors(w: World, t: Timing, i: nat)
    requires i <= |w.calls|
    ensures ManageFrom(w, t, i).calls == w.calls[..i] + Survivors(w.calls[i..], t)
    decreases |w.calls| - i
  {
    hide TimedOut;
    if i < |w.calls| {
      assert w.calls[i..][1..] == w.calls[i + 1..];
      if TimedOut(t, w.calls[i]) {
        var v := Remove(w, i);
        ManageLeavesSurvivors(v, t, i);
        assert v.calls[..i] == w.calls[..i] && v.calls[i..] == w.calls[i + 1..];
      } else {
        ManageLeavesSurvivors(w, t, i + 1);
        assert w.calls[..i + 1] == w.calls[..i] + [w.calls[i]];
      }
    }
  }

  /** In every reachable state, a call that a management pass neither deletes as
      monitoring nor finds recording has been updated in time: the last branch of
      the loop is never taken. */
  lemma LastBranchUnreachable(w: World, events: seq<Event>, t: Timing, i: nat)
    requires Initial(w) && i < |Run(w, events).calls|
    ensures var c := Run(w, events).calls[i];
      (!(c.state == MONITORING && t.now - c.lastUpdate > t.timeout) && c.state != RECORDING)
      ==> t.now - c.lastUpdate <= t.timeout
  {
    hide Initial, Run;
    RunKeeps(w, events);
    HeldAt(Run(w, events), i);
  }
}
