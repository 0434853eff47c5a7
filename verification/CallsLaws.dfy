/** What the call manager does, said in the fields of calls, systems, sources and
    messages alone: which grants start, which duplicate or stop a call, and when a
    call is taken off the list. */
module CallsLaws {
  import opened Common
  import opened Recorders
  import opened Calls
  import opened CallsSafe
  import opened CallsTheorems

  // ---------------------------------------------------------------- starting a recorder

  function FreeOnes(pool: Pool): set<nat> { set i: nat | i < |pool| && pool[i] }

  /** The availability counter counts the recorders that are free. */
  lemma {:induction false} CountFreeIs(pool: Pool)
    ensures CountFree(pool) == |FreeOnes(pool)|
    decreases |pool|
  {
    if pool != [] {
      var n := |pool| - 1;
      CountFreeIs(pool[..n]);
      assert FreeOnes(pool) == FreeOnes(pool[..n]) + if pool[n] then {n} else {};
    }
  }

  /** Source s is the first that covers the frequency; none does if s is their number. */
  predicate FirstSource(sources: seq<Source>, freq: real, s: nat) {
    && s <= |sources| && (forall j :: 0 <= j < s ==> !(sources[j].minHz <= freq <= sources[j].maxHz))
    && (s < |sources| ==> sources[s].minHz <= freq <= sources[s].maxHz)
  }

  /** p is the least priority of a listed talkgroup and those listed in a patch with it. */
  ghost predicate LeastPriority(sys: System, tg: int, p: int) {
    && tg in sys.talkgroups && p <= sys.talkgroups[tg].priority
    && (forall q, t :: q in sys.patches && tg in q && t in q && t in sys.talkgroups ==> p <= sys.talkgroups[t].priority)
    && (p == sys.talkgroups[tg].priority
        || exists q, t :: q in sys.patches && tg in q && t in q && t in sys.talkgroups && p == sys.talkgroups[t].priority)
  }

  lemma LeastIsEffective(sys: System, tg: int, p: int)
    requires LeastPriority(sys, tg, p)
    ensures p == EffectivePriority(sys, tg)
  {
    hide EffectivePriority;
    EffectivePriorityIsLeast(sys, tg);
    var e := EffectivePriority(sys, tg);
    var t :| Counts(sys, tg, t) && e == sys.talkgroups[t].priority;
    assert p <= e;
    assert Counts(sys, tg, tg);
    if p != sys.talkgroups[tg].priority {
      var q, u :| q in sys.patches && tg in q && u in q && u in sys.talkgroups && p == sys.talkgroups[u].priority;
      assert Counts(sys, tg, u);
    }
  }

  lemma FirstSourceIs(sources: seq<Source>, freq: real, s: nat)
    requires FirstSource(sources, freq, s)
    ensures s <= |sources| && FirstCovering(sources, freq, 0) == if s < |sources| then Some(s) else None
  {
  }

  /** The pool that a call is given a recorder of: analog for talkgroups of mode A,
      and for those not listed if that is the default of a SmartNet system. */
  predicate AnalogFor(env: Env, sys: System, tg: int) {
    (tg in sys.talkgroups && sys.talkgroups[tg].mode == "A") || (tg !in sys.talkgroups && env.defaultAnalog && sys.smartnet)
  }

  /** A recorder starts if and only if the call is not encrypted, nor its talkgroup
      marked so, the talkgroup is listed or others are recorded, a source covers the
      frequency, a recorder of the pool is free and as many as the priority says, the
      priority is not -1, and the recorder does start. */
  lemma StartsExactly(env: Env, sys: System, sources: seq<Source>, c: Call, s: nat, p: int)
    requires FirstSource(sources, c.freq, s) && (c.talkgroup in sys.talkgroups ==> LeastPriority(sys, c.talkgroup, p))
    ensures var known := c.talkgroup in sys.talkgroups;
      StartRecorder(env, sys, sources, c).ok <==>
        && !c.encrypted && (known || sys.recordUnknown)
        && (known ==> sys.talkgroups[c.talkgroup].mode !in ["E", "TE", "DE"])
        && s < |sources|
        && (var pool := if AnalogFor(env, sys, c.talkgroup) then sources[s].analog else sources[s].digital;
            FreeOnes(pool) != {} && (known ==> p != -1 && p <= |FreeOnes(pool)|))
        && env.starts
  {
    hide EffectivePriority, SetFree, LeastPriority, FirstSource, FreeOnes;
    FirstSourceIs(sources, c.freq, s);
    if c.talkgroup in sys.talkgroups { LeastIsEffective(sys, c.talkgroup, p); }
    if s < |sources| {
      var pool := PoolOf(sources, s, WantsAnalog(env, sys, c.talkgroup));
      CountFreeIs(pool);
      NoneFreeIs(pool);
    }
  }

  lemma NoneFreeIs(pool: Pool)
    ensures FirstFree(pool, 0) == None <==> FreeOnes(pool) == {}
  {
    match FirstFree(pool, 0)
    case None =>
    case Some(k) => assert k in FreeOnes(pool);
  }

  /** A new call that is not recorded monitors, with the reason: its talkgroup is not
      listed, it is encrypted, no source covers it, its priority is -1, or asks for
      more free recorders than there are. For want of a recorder, or if that does not
      start, it has no reason. Nothing else changes, but that it wants an analog one. */
  lemma RefusedExactly(env: Env, sys: System, sources: seq<Source>, c: Call, s: nat, p: int)
    requires c.state == MONITORING && c.monitoring == UNSPECIFIED && FirstSource(sources, c.freq, s)
    requires c.talkgroup in sys.talkgroups ==> LeastPriority(sys, c.talkgroup, p)
    requires !StartRecorder(env, sys, sources, c).ok
    ensures var known, r := c.talkgroup in sys.talkgroups, StartRecorder(env, sys, sources, c);
      var secret := c.encrypted || (known && sys.talkgroups[c.talkgroup].mode in ["E", "TE", "DE"]);
      var asked := (known || sys.recordUnknown) && !secret && s < |sources|;
      var free := if s == |sources| then 0
                  else |FreeOnes(if AnalogFor(env, sys, c.talkgroup) then sources[s].analog else sources[s].digital)|;
      && r.sources == sources
      && r.call == c.(monitoring := r.call.monitoring,
                      isAnalog := c.isAnalog || (asked && AnalogFor(env, sys, c.talkgroup)))
      && (r.call.monitoring == UNKNOWN_TG <==> !known && !sys.recordUnknown)
      && (r.call.monitoring == ENCRYPTED <==> (known || sys.recordUnknown) && secret)
      && (r.call.monitoring == NO_SOURCE <==> (known || sys.recordUnknown) && !secret && s == |sources|)
      && (r.call.monitoring == IGNORED_TG <==> asked && known && p == -1)
      && (r.call.monitoring == NO_RECORDER <==> asked && known && p != -1 && p > free)
      && (r.call.monitoring == UNSPECIFIED <==> asked && (known ==> p != -1 && p <= free))
  {
    hide EffectivePriority, SetFree, LeastPriority, FirstSource, FreeOnes, StartOn, FirstCovering;
    FirstSourceIs(sources, c.freq, s);
    var known := c.talkgroup in sys.talkgroups;
    var secret := c.encrypted || (known && EncryptedMode(sys.talkgroups[c.talkgroup].mode));
    if (known || sys.recordUnknown) && !secret && s < |sources| { RefusedThere(env, sys, sources, c, s, p); }
  }

  lemma RefusedThere(env: Env, sys: System, sources: seq<Source>, c: Call, s: nat, p: int)
    requires c.state == MONITORING && c.monitoring == UNSPECIFIED && s < |sources|
    requires c.talkgroup in sys.talkgroups ==> LeastPriority(sys, c.talkgroup, p)
    requires !StartOn(env, sys, sources, c, s).ok
    ensures var known, analog, r := c.talkgroup in sys.talkgroups, AnalogFor(env, sys, c.talkgroup),
                                    StartOn(env, sys, sources, c, s);
      var free := |FreeOnes(if analog then sources[s].analog else sources[s].digital)|;
      && r.sources == sources && r.call == c.(monitoring := r.call.monitoring, isAnalog := c.isAnalog || analog)
      && r.call.monitoring == if known && p == -1 then IGNORED_TG else if known && p > free then NO_RECORDER else UNSPECIFIED
  {
    hide EffectivePriority, SetFree, LeastPriority, FreeOnes, FirstFree;
    if c.talkgroup in sys.talkgroups { LeastIsEffective(sys, c.talkgroup, p); }
    CountFreeIs(PoolOf(sources, s, WantsAnalog(env, sys, c.talkgroup)));
  }

  /** A call that starts records with the first free recorder of its pool in the first
      source that covers it, and only that recorder is not free any more. */
  lemma TakesFirstFree(env: Env, sys: System, sources: seq<Source>, c: Call, s: nat)
    requires FirstSource(sources, c.freq, s) && StartRecorder(env, sys, sources, c).ok
    ensures var r, analog := StartRecorder(env, sys, sources, c), AnalogFor(env, sys, c.talkgroup);
      && s < |sources|
      && (var pool := if analog then sources[s].analog else sources[s].digital;
          exists i :: 0 <= i < |pool| && pool[i] && (forall j :: 0 <= j < i ==> !pool[j])
            && r.call == c.(state := RECORDING, recorder := Some(Recorder(s, analog, i)), isAnalog := c.isAnalog || analog)
            && r.sources == sources[s := if analog then sources[s].(analog := pool[i := false])
                                         else sources[s].(digital := pool[i := false])])
  {
    hide EffectivePriority, FirstSource;
    FirstSourceIs(sources, c.freq, s);
    assert StartRecorder(env, sys, sources, c) == StartOn(env, sys, sources, c, s);
    var i := StartRecorder(env, sys, sources, c).call.recorder.value.index;
    var pool := PoolOf(sources, s, AnalogFor(env, sys, c.talkgroup));
    assert FirstFree(pool, 0) == Some(i);
  }

  /** No call that records is encrypted. */
  ghost predicate NoneSecret(calls: seq<Call>) {
    forall i :: 0 <= i < |calls| && calls[i].state == RECORDING ==> !calls[i].encrypted
  }

  lemma StartedIsClear(env: Env, sys: System, sources: seq<Source>, c: Call)
    requires c.state == MONITORING
    ensures var d := StartRecorder(env, sys, sources, c).call; d.state == RECORDING ==> !d.encrypted
  {
    hide Choose, EncryptedMode, FirstCovering, EffectivePriority, SetFree;
    FirstCoveringIn(sources, c.freq);
  }

  lemma FirstCoveringIn(sources: seq<Source>, freq: real)
    ensures FirstCovering(sources, freq, 0).Some? ==> FirstCovering(sources, freq, 0).value < |sources|
  {
  }

  lemma GrantClear(w: World, env: Env, m: Message)
    requires NoneSecret(w.calls)
    ensures NoneSecret(HandleGrant(w, env, m).calls)
  {
    hide StartRecorder, Superseding, Original, Found, Matches;
    OriginalWithin(env, w.calls, m);
    StartedIsClear(env, env.systems(m.sysNum), w.sources, NewCall(w.counter, m, env.now));
  }

  lemma OriginalWithin(env: Env, calls: seq<Call>, m: Message)
    ensures Original(env, calls, m, |calls|).Some? ==> Original(env, calls, m, |calls|).value < |calls|
  {
  }

  lemma {:induction false} ManageClear(w: World, t: Timing, i: nat)
    requires i <= |w.calls| && NoneSecret(w.calls)
    ensures NoneSecret(ManageFrom(w, t, i).calls)
    decreases |w.calls| - i
  {
    hide TimedOut, Remove;
    if i < |w.calls| {
      if TimedOut(t, w.calls[i]) { ManageClear(Remove(w, i), t, i); } else { ManageClear(w, t, i + 1); }
    }
  }

  /** In every reachable state no call that records is encrypted. */
  lemma NoEncryptedRecording(w: World, events: seq<Event>, i: nat)
    requires Initial(w) && i < |Run(w, events).calls|
    ensures var c := Run(w, events).calls[i]; c.state == RECORDING ==> !c.encrypted
  {
    RunClear(w, events);
  }

  lemma {:induction false} RunClear(w: World, events: seq<Event>)
    requires Initial(w)
    ensures NoneSecret(Run(w, events).calls)
    decreases |events|
  {
    hide HandleGrant, ManageFrom, ShutDown, Inv, UpdateAll;
    if events != [] {
      var before := events[..|events| - 1];
      var u := Run(w, before);
      RunClear(w, before);
      match events[|events| - 1]
      case Grant(env, m) => GrantClear(u, env, m);
      case Update(env, m) =>
      case Manage(t) => ManageClear(u, t, 0);
      case Exit => RunKeeps(w, before); ShutDownKeeps(u);
    }
  }

  // ---------------------------------------------------------------- duplicates

  /** A call of the message's talkgroup that records at another site of its network:
      another system with one WACN, both multi-site, and of its site's name, or at
      another RFSS and site if it has no name. */
  predicate HeardElsewhere(env: Env, c: Call, m: Message) {
    var a, b := env.systems(c.sysNum), env.systems(m.sysNum);
    && c.state == RECORDING && c.talkgroup == m.talkgroup && c.sysNum != m.sysNum
    && a.multiSite && b.multiSite && a.wacn == b.wacn
    && if a.siteName == "" then a.rfss * 10000 + a.siteId != b.rfss * 10000 + b.siteId else a.siteName == b.siteName
  }

  lemma HeardIsDuplicate(env: Env, c: Call, m: Message)
    ensures HeardElsewhere(env, c, m) <==> Duplicates(env, c, m)
  {
  }

  predicate KeyIs(c: Call, m: Message) {
    c.talkgroup == m.talkgroup && c.sysNum == m.sysNum && c.freq == m.freq && c.slot == m.slot && c.phase2 == m.phase2
  }

  /** No call on the list is the message's. */
  ghost predicate Unknown(calls: seq<Call>, m: Message) {
    forall i :: 0 <= i < |calls| ==> !KeyIs(calls[i], m)
  }

  /** The i-th call is the last that is heard elsewhere. */
  ghost predicate LastHeard(env: Env, calls: seq<Call>, m: Message, i: nat) {
    && i < |calls| && HeardElsewhere(env, calls[i], m)
    && forall j :: i < j < |calls| ==> !HeardElsewhere(env, calls[j], m)
  }

  lemma LastIsOriginal(env: Env, calls: seq<Call>, m: Message, i: nat)
    requires i < |calls|
    ensures LastHeard(env, calls, m, i) <==> Original(env, calls, m, |calls|) == Some(i)
  {
    hide Duplicates, HeardElsewhere;
    OriginalLast(env, calls, m, |calls|);
    OriginalWithin(env, calls, m);
    forall j | 0 <= j < |calls| ensures HeardElsewhere(env, calls[j], m) <==> Duplicates(env, calls[j], m) {
      HeardIsDuplicate(env, calls[j], m);
    }
    assert Original(env, calls, m, |calls|) == None ==> forall j :: 0 <= j < |calls| ==> !Duplicates(env, calls[j], m);
  }

  lemma UnknownNotFound(calls: seq<Call>, m: Message)
    ensures Unknown(calls, m) <==> !Found(calls, m)
  {
    assert forall i :: 0 <= i < |calls| ==> (KeyIs(calls[i], m) <==> Matches(calls[i], m));
  }

  /** The calls of an unknown grant afterwards: a new one at the end, with the message's
      key, source and time, and the others, of which the last heard elsewhere stops if
      the site of the message is preferred and the new call records. */
  lemma GrantCalls(w: World, env: Env, m: Message, i: nat)
    requires Unknown(w.calls, m) && i < |w.calls|
    ensures var v := HandleGrant(w, env, m); var n := |w.calls|;
      |v.calls| == n + 1 &&
      v.calls[i] == if LastHeard(env, w.calls, m, i) && Superseding(env, w.calls, m) && v.calls[n].state == RECORDING
                    then w.calls[i].(state := MONITORING, monitoring := SUPERSEDED) else w.calls[i]
  {
    hide Superseding, Found, StartRecorder, Matches, Original, LastHeard, Unknown, KeyIs;
    UnknownNotFound(w.calls, m);
    NotFoundAt(w.calls, m);
    OriginalWithin(env, w.calls, m);
    LastIsOriginal(env, w.calls, m, i);
    StartShaped(env, env.systems(m.sysNum), w.sources, NewCall(w.counter, m, env.now));
  }

  lemma NotFoundAt(calls: seq<Call>, m: Message)
    requires !Found(calls, m)
    ensures forall i :: 0 <= i < |calls| ==> !Matches(calls[i], m)
  {
  }

  function Fresh(w: World, env: Env, m: Message): Call {
    Call(w.counter, m.talkgroup, m.sysNum, m.freq, m.slot, m.phase2, m.encrypted, MONITORING, UNSPECIFIED,
         None, false, env.now, m.source)
  }

  /** The new call of an unknown grant only monitors as a duplicate if one is heard
      elsewhere and its own site is not preferred; else its recorder starts if it can. */
  lemma GrantNew(w: World, env: Env, m: Message)
    requires Unknown(w.calls, m)
    ensures var v := HandleGrant(w, env, m); var n := |w.calls|;
      var r := StartRecorder(env, env.systems(m.sysNum), w.sources, Fresh(w, env, m));
      && |v.calls| == n + 1 && v.counter == w.counter + 1
      && v.calls[n] == if (exists i :: 0 <= i < n && HeardElsewhere(env, w.calls[i], m)) && !Superseding(env, w.calls, m)
                       then Fresh(w, env, m).(monitoring := DUPLICATE) else r.call
  {
    hide Superseding, Found, StartRecorder, Matches, Original, Unknown, KeyIs, Duplicates, HeardElsewhere;
    UnknownNotFound(w.calls, m);
    OriginalWithin(env, w.calls, m);
    forall i | 0 <= i < |w.calls| ensures HeardElsewhere(env, w.calls[i], m) <==> Duplicates(env, w.calls[i], m) {
      HeardIsDuplicate(env, w.calls[i], m);
    }
    NoneOriginal(env, w.calls, m);
  }

  lemma NoneOriginal(env: Env, calls: seq<Call>, m: Message)
    ensures Original(env, calls, m, |calls|) == None <==> forall i :: 0 <= i < |calls| ==> !Duplicates(env, calls[i], m)
  {
    hide Duplicates;
  }

  // ---------------------------------------------------------------- preferred sites

  predicate Prefers(sys: System, tg: int, n: nat) {
    n == if tg in sys.talkgroups then sys.talkgroups[tg].preferredNAC else 0
  }

  /** Site b is preferred in its system and site a is not in its own: by their numbers
      if a has a name, and else by NAC, or by RFSS and site. */
  predicate Outdoes(b: System, a: System, tg: int) {
    if a.siteName != "" then
      a.siteNumber != 0 && b.siteNumber != 0 && Prefers(b, tg, b.siteNumber) && !Prefers(a, tg, a.siteNumber)
    else
      || (Prefers(b, tg, b.nac) && !Prefers(a, tg, a.nac))
      || (Prefers(b, tg, b.rfss * 10000 + b.siteId) && !Prefers(a, tg, a.rfss * 10000 + a.siteId))
  }

  /** The message's site outdoes that of a call heard elsewhere. */
  ghost predicate Wins(env: Env, calls: seq<Call>, m: Message) {
    exists j :: 0 <= j < |calls| && HeardElsewhere(env, calls[j], m)
      && Outdoes(env.systems(m.sysNum), env.systems(calls[j].sysNum), m.talkgroup)
  }

  lemma OutdoesIs(env: Env, c: Call, m: Message)
    ensures Supersedes(env, c, m)
      <==> HeardElsewhere(env, c, m) && Outdoes(env.systems(m.sysNum), env.systems(c.sysNum), m.talkgroup)
  {
  }

  lemma WinsIs(env: Env, calls: seq<Call>, m: Message)
    ensures Superseding(env, calls, m) <==> Wins(env, calls, m)
  {
    hide Supersedes, HeardElsewhere, Outdoes;
    forall i | 0 <= i < |calls|
      ensures Supersedes(env, calls[i], m) <==> (HeardElsewhere(env, calls[i], m)
        && Outdoes(env.systems(m.sysNum), env.systems(calls[i].sysNum), m.talkgroup))
    {
      OutdoesIs(env, calls[i], m);
    }
  }

  /** What an unknown grant does to a call on the list: nothing, unless it is the last
      that is heard elsewhere, a site of those heard is outdone, and the new call records. */
  lemma GrantStops(w: World, env: Env, m: Message, i: nat)
    requires Unknown(w.calls, m) && i < |w.calls|
    ensures var v := HandleGrant(w, env, m);
      |v.calls| == |w.calls| + 1 &&
      v.calls[i] == if LastHeard(env, w.calls, m, i) && Wins(env, w.calls, m) && v.calls[|w.calls|].state == RECORDING
                    then w.calls[i].(state := MONITORING, monitoring := SUPERSEDED) else w.calls[i]
  {
    hide Superseding, Wins, HandleGrant, LastHeard, Unknown;
    WinsIs(env, w.calls, m);
    GrantCalls(w, env, m, i);
  }

  /** A call that an unknown grant changes records the message's talkgroup at another
      system of its network, both multi-site with one WACN, of its name, or of none and
      at another RFSS and site. */
  lemma StoppedIs(w: World, env: Env, m: Message, i: nat)
    requires Unknown(w.calls, m) && i < |w.calls|
    requires var v := HandleGrant(w, env, m); |v.calls| > |w.calls| && v.calls[i] != w.calls[i]
    ensures var c := w.calls[i]; var a, b := env.systems(c.sysNum), env.systems(m.sysNum);
      && c.state == RECORDING && c.talkgroup == m.talkgroup && c.sysNum != m.sysNum
      && a.multiSite && b.multiSite && a.wacn == b.wacn
      && (a.siteName == b.siteName != "" || (a.siteName == "" && a.rfss * 10000 + a.siteId != b.rfss * 10000 + b.siteId))
      && HandleGrant(w, env, m).calls[i] == c.(state := MONITORING, monitoring := SUPERSEDED)
      && HandleGrant(w, env, m).calls[|w.calls|].state == RECORDING
  {
    hide HandleGrant, Wins, Unknown;
    GrantStops(w, env, m, i);
  }

  /** The new call of an unknown grant has the message's key, source and time. It only
      monitors as a duplicate if a call is heard elsewhere and no site of those heard
      is outdone; else its recorder starts if it can. */
  lemma GrantEnters(w: World, env: Env, m: Message)
    requires Unknown(w.calls, m)
    ensures var v, n := HandleGrant(w, env, m), |w.calls|;
      && |v.calls| == n + 1 && v.counter == w.counter + 1
      && v.calls[n] == if (exists i :: 0 <= i < n && HeardElsewhere(env, w.calls[i], m)) && !Wins(env, w.calls, m)
                       then Fresh(w, env, m).(monitoring := DUPLICATE)
                       else StartRecorder(env, env.systems(m.sysNum), w.sources, Fresh(w, env, m)).call
  {
    hide Superseding, Wins, HandleGrant, Unknown, HeardElsewhere;
    WinsIs(env, w.calls, m);
    GrantNew(w, env, m);
  }

  lemma NotDuplicate(env: Env, sys: System, sources: seq<Source>, c: Call)
    requires c.state == MONITORING && c.monitoring == UNSPECIFIED
    ensures StartRecorder(env, sys, sources, c).call.monitoring != DUPLICATE
  {
    hide EffectivePriority, SetFree, FirstFree, FirstCovering;
    FirstCoveringIn(sources, c.freq);
  }

  /** Of sites that go by one name, in systems that all prefer number p for the
      talkgroup, a grant at site p stops the last call heard when a call was heard at
      another number and the new one records; any other grant stops none and is a duplicate. */
  lemma AgreedNumber(w: World, env: Env, m: Message, i: nat, p: nat)
    requires Unknown(w.calls, m) && LastHeard(env, w.calls, m, i) && Prefers(env.systems(m.sysNum), m.talkgroup, p)
    requires forall j :: 0 <= j < |w.calls| && HeardElsewhere(env, w.calls[j], m) ==>
      env.systems(w.calls[j].sysNum).siteName != "" && Prefers(env.systems(w.calls[j].sysNum), m.talkgroup, p)
    ensures var v := HandleGrant(w, env, m); var d := v.calls[|w.calls|];
      var wins := p != 0 && env.systems(m.sysNum).siteNumber == p
                  && exists j :: 0 <= j < |w.calls| && HeardElsewhere(env, w.calls[j], m)
                       && env.systems(w.calls[j].sysNum).siteNumber !in [0, p];
      && (d.monitoring == DUPLICATE <==> !wins)
      && v.calls[i] == if wins && d.state == RECORDING then w.calls[i].(state := MONITORING, monitoring := SUPERSEDED)
                       else w.calls[i]
  {
    hide HandleGrant, StartRecorder, HeardElsewhere, Unknown;
    GrantStops(w, env, m, i);
    GrantEnters(w, env, m);
    NotDuplicate(env, env.systems(m.sysNum), w.sources, Fresh(w, env, m));
  }

  /** The same of sites without a name, by their NAC, or by their RFSS and site. */
  lemma AgreedSite(w: World, env: Env, m: Message, i: nat, p: nat)
    requires Unknown(w.calls, m) && LastHeard(env, w.calls, m, i) && Prefers(env.systems(m.sysNum), m.talkgroup, p)
    requires forall j :: 0 <= j < |w.calls| && HeardElsewhere(env, w.calls[j], m) ==>
      env.systems(w.calls[j].sysNum).siteName == "" && Prefers(env.systems(w.calls[j].sysNum), m.talkgroup, p)
    ensures var v, b := HandleGrant(w, env, m), env.systems(m.sysNum); var d := v.calls[|w.calls|];
      var wins := (exists j :: 0 <= j < |w.calls| && HeardElsewhere(env, w.calls[j], m)
                     && (var a := env.systems(w.calls[j].sysNum);
                         || (b.nac == p && a.nac != p)
                         || (b.rfss * 10000 + b.siteId == p && a.rfss * 10000 + a.siteId != p)));
      && (d.monitoring == DUPLICATE <==> !wins)
      && v.calls[i] == if wins && d.state == RECORDING then w.calls[i].(state := MONITORING, monitoring := SUPERSEDED)
                       else w.calls[i]
  {
    hide HandleGrant, StartRecorder, HeardElsewhere, Unknown;
    GrantStops(w, env, m, i);
    GrantEnters(w, env, m);
    NotDuplicate(env, env.systems(m.sysNum), w.sources, Fresh(w, env, m));
  }

  /** Two sites that go by one name, with the numbers 1 and 2; talkgroup 7 prefers site 2. */
  function NamedSites(n: int): System {
    System(true, 1, 0, 0, 0, "County", if n == 1 then 1 else 2, false, false,
           map[7 := Talkgroup(1, "D", 2)], [])
  }

  const NAMED_SITES: Env := Env(NamedSites, false, 0, true)

  lemma StartsAtNamed(sources: seq<Source>, c: Call, pool: Pool, i: nat)
    requires sources == OneSource(pool) && c.talkgroup == 7 && 0.0 <= c.freq <= 9.0 && !c.encrypted
    requires i < |pool| && pool[i] && forall j :: 0 <= j < i ==> !pool[j]
    ensures var r := StartRecorder(NAMED_SITES, NamedSites(c.sysNum), sources, c);
      r.call.state == RECORDING && r.call.talkgroup == 7 && r.call.sysNum == c.sysNum && r.call.freq == c.freq
      && r.sources == OneSource(pool[i := false]) && r.call.monitoring == c.monitoring
  {
    hide StartRecorder, SetFree;
    var sys := NamedSites(c.sysNum);
    assert FirstSource(sources, c.freq, 0) && LeastPriority(sys, 7, 1);
    assert i in FreeOnes(pool);
    OneAtLeast(FreeOnes(pool), i);
    StartsExactly(NAMED_SITES, sys, sources, c, 0, 1);
    TakesFirstFree(NAMED_SITES, sys, sources, c, 0);
  }

  lemma OneAtLeast(s: set<nat>, i: nat)
    requires i in s
    ensures |s| >= 1
  {
  }

  /** The first of two grants starts. */
  lemma FirstAtNamed(site: int)
    ensures var u := HandleGrant(NO_CALLS, NAMED_SITES, OnChannel(site, 1.0));
      |u.calls| == 1 && u.calls[0].state == RECORDING && u.calls[0].talkgroup == 7 && u.calls[0].sysNum == site
      && u.calls[0].freq == 1.0 && u.sources == OneSource([false, true, true])
  {
    hide HandleGrant, StartRecorder, SetFree, Begun;
    var w, m := NO_CALLS, OnChannel(site, 1.0);
    GrantEnters(w, NAMED_SITES, m);
    StartsAtNamed(w.sources, Fresh(w, NAMED_SITES, m), [true, true, true], 0);
    GrantSources(w, NAMED_SITES, m);
    assert [true, true, true][0 := false] == [false, true, true];
  }

  /** If no call is heard elsewhere, the sources become what the start leaves. */
  lemma GrantSources(w: World, env: Env, m: Message)
    requires w.calls == []
    ensures HandleGrant(w, env, m).sources
      == StartRecorder(env, env.systems(m.sysNum), w.sources, Fresh(w, env, m)).sources
  {
    hide StartRecorder;
  }

  /** A call recording at site 1 stops for the grant at site 2, which is preferred and
      records; one recording at site 2 goes on, and the grant at site 1 is its duplicate. */
  lemma PreferredNumberWins()
    ensures var v := Run(NO_CALLS, [Grant(NAMED_SITES, OnChannel(1, 1.0)), Grant(NAMED_SITES, OnChannel(2, 2.0))]);
      |v.calls| == 2 && v.calls[0].state == MONITORING && v.calls[0].monitoring == SUPERSEDED
      && v.calls[1].state == RECORDING
    ensures var v := Run(NO_CALLS, [Grant(NAMED_SITES, OnChannel(2, 1.0)), Grant(NAMED_SITES, OnChannel(1, 2.0))]);
      |v.calls| == 2 && v.calls[0].state == RECORDING
      && v.calls[1].state == MONITORING && v.calls[1].monitoring == DUPLICATE
  {
    hide Run;
    SecondAtNamed(1);
    SecondAtNamed(2);
  }

  lemma SecondAtNamed(site: int)
    requires site == 1 || site == 2
    ensures var v := Run(NO_CALLS, [Grant(NAMED_SITES, OnChannel(site, 1.0)), Grant(NAMED_SITES, OnChannel(3 - site, 2.0))]);
      |v.calls| == 2 && if site == 1 then
        v.calls[0].state == MONITORING && v.calls[0].monitoring == SUPERSEDED && v.calls[1].state == RECORDING
      else v.calls[0].state == RECORDING && v.calls[1].state == MONITORING && v.calls[1].monitoring == DUPLICATE
  {
    hide HandleGrant, StartRecorder, SetFree, FreeOnes;
    var es := [Grant(NAMED_SITES, OnChannel(site, 1.0)), Grant(NAMED_SITES, OnChannel(3 - site, 2.0))];
    assert es[..1][..0] == [] && es[..1] == [Grant(NAMED_SITES, OnChannel(site, 1.0))];
    var u, m := HandleGrant(NO_CALLS, NAMED_SITES, OnChannel(site, 1.0)), OnChannel(3 - site, 2.0);
    assert Run(NO_CALLS, es[..1]) == u;
    FirstAtNamed(site);
    assert HeardElsewhere(NAMED_SITES, u.calls[0], m);
    assert Outdoes(NamedSites(3 - site), NamedSites(site), 7) <==> site == 1;
    StartsAtNamed(u.sources, Fresh(u, NAMED_SITES, m), [false, true, true], 1);
    GrantEnters(u, NAMED_SITES, m);
    GrantStops(u, NAMED_SITES, m, 0);
  }

  // ---------------------------------------------------------------- updates and management

  /** A grant or an update that a call is known for renews the time and source of every
      call with its key, and changes nothing else. */
  lemma KnownRenews(w: World, e: Event, env: Env, m: Message, i: nat)
    requires e == Update(env, m) || (e == Grant(env, m) && !Unknown(w.calls, m))
    requires i < |w.calls|
    ensures var v := Step(w, e);
      && v == w.(calls := v.calls) && |v.calls| == |w.calls|
      && v.calls[i] == if !KeyIs(w.calls[i], m) then w.calls[i]
                       else w.calls[i].(lastUpdate := env.now, srcId := if m.source == -1 then w.calls[i].srcId else m.source)
  {
    hide Unknown, Found, Begun, Superseding, Original, Superseded;
    UnknownNotFound(w.calls, m);
  }

  /** A call is overdue if it was not updated within the timeout, nor, if it records,
      did its recorder write. */
  predicate Overdue(t: Timing, c: Call) {
    && t.now - c.lastUpdate > t.timeout
    && (c.state == RECORDING ==> c.recorder.Some? && t.sinceWrite(c.recorder.value) > t.timeout)
  }

  lemma {:induction false} SurvivorsAre(calls: seq<Call>, t: Timing, c: Call)
    ensures c in Survivors(calls, t) <==> c in calls && !TimedOut(t, c)
    decreases |calls|
  {
    hide TimedOut;
    if calls != [] {
      SurvivorsAre(calls[1..], t, c);
      assert calls == [calls[0]] + calls[1..];
    }
  }

  lemma {:induction false} ManageCounter(w: World, t: Timing, i: nat)
    requires i <= |w.calls|
    ensures ManageFrom(w, t, i).counter == w.counter
    decreases |w.calls| - i
  {
    hide TimedOut;
    if i < |w.calls| {
      if TimedOut(t, w.calls[i]) { ManageCounter(Remove(w, i), t, i); } else { ManageCounter(w, t, i + 1); }
    }
  }

  /** In every reachable state, a management pass takes exactly the overdue calls off
      the list, and leaves the others as they are. */
  lemma OverdueGoExactly(w: World, events: seq<Event>, t: Timing, i: nat)
    requires Initial(w) && i < |Run(w, events).calls|
    ensures var u := Run(w, events); var c, v := u.calls[i], Run(w, events + [Manage(t)]);
      var overdue := t.now - c.lastUpdate > t.timeout
        && (c.state == RECORDING ==> c.recorder.Some? && t.sinceWrite(c.recorder.value) > t.timeout);
      && (overdue <==> c !in v.calls)
      && (overdue <==> c.num in v.deleted)
      && (overdue <==> forall j :: 0 <= j < |v.calls| ==> v.calls[j].num != c.num)
  {
    hide Initial, Run, Inv, ManageFrom;
    var u := Run(w, events);
    RunKeeps(w, events);
    RunLast(w, events, Manage(t));
    ManageLeavesSurvivors(u, t, 0);
    ManageCounter(u, t, 0);
    ManageKeeps(u, t, 0);
    GoneExactly(u, ManageFrom(u, t, 0), t, i);
  }

  lemma GoneExactly(u: World, v: World, t: Timing, i: nat)
    requires Inv(u) && Inv(v) && i < |u.calls| && v.counter == u.counter
    requires v.calls == u.calls[..0] + Survivors(u.calls[0..], t)
    ensures var c := u.calls[i];
      && (Overdue(t, c) <==> c !in v.calls) && (Overdue(t, c) <==> c.num in v.deleted)
      && (Overdue(t, c) <==> forall j :: 0 <= j < |v.calls| ==> v.calls[j].num != c.num)
  {
    hide Survivors, PoolsFull, DeletedHistory, FutureHistory, Share, SameKey, HasRecorder, Exists;
    var c := u.calls[i];
    assert v.calls == Survivors(u.calls, t);
    HeldAt(u, i);
    SurvivorsAre(u.calls, t, c);
    assert Overdue(t, c) <==> c !in v.calls;
    if c in v.calls {
      var j :| 0 <= j < |v.calls| && v.calls[j] == c;
      assert HistoryOf(v, v.calls[j]);
    } else {
      forall j | 0 <= j < |v.calls| ensures v.calls[j].num != c.num {
        SurvivorsAre(u.calls, t, v.calls[j]);
        var k :| 0 <= k < |u.calls| && u.calls[k] == v.calls[j];
        assert k != i;
        assert Apart(u.calls[if i < k then i else k], u.calls[if i < k then k else i]);
      }
      assert HistoryOf(u, c);
      assert !Listed(v.calls, c.num);
    }
  }

  /** A call that a grant or an update is for survives every pass up to the timeout after it. */
  lemma RenewedSurvives(w: World, events: seq<Event>, e: Event, env: Env, m: Message, t: Timing, i: nat)
    requires Initial(w) && (e == Update(env, m) || e == Grant(env, m)) && t.now <= env.now + t.timeout
    requires i < |Run(w, events).calls| && KeyIs(Run(w, events).calls[i], m)
    ensures var c := Run(w, events).calls[i];
      c.(lastUpdate := env.now, srcId := if m.source == -1 then c.srcId else m.source)
        in Run(w, events + [e] + [Manage(t)]).calls
  {
    hide Initial, Run, Step;
    var u := Run(w, events);
    RunLast(w, events, e);
    KnownRenews(u, e, env, m, i);
    OverdueGoExactly(w, events + [e], t, i);
  }
}
