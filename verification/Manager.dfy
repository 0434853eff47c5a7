/** The call manager as it runs: recorders, sources and calls as objects
    (trunk-recorder/source.cc, call_impl.cc and main.cc), method by method against
    the functions of Calls. */
module Manager {
  import opened Common
  import R = Recorders
  import C = Calls
  import S = CallsSafe
  import L = CallsLaws

  // ---------------------------------------------------------------- recorders

  class Recorder {
    const place: R.Recorder
    var available: bool

    constructor (place: R.Recorder)
      ensures this.place == place && available
    {
      this.place := place;
      available := true;
    }

    /** Whether a start succeeds is not up to this model. */
    method Start(starts: bool) returns (ok: bool)
      requires available
      modifies this
      ensures ok == starts && available == !ok
    {
      if starts { available := false; }
      ok := starts;
    }

    method Stop()
      modifies this
      ensures available
    {
      available := true;
    }
  }

  ghost function Pool(rs: seq<Recorder>): (p: R.Pool)
    reads rs
    ensures |p| == |rs| && forall i :: 0 <= i < |rs| ==> p[i] == rs[i].available
  {
    seq(|rs|, i requires 0 <= i < |rs| reads rs => rs[i].available)
  }

  // ---------------------------------------------------------------- calls

  class Call {
    const num: nat
    const talkgroup: int
    const sysNum: int
    const slot: int
    const phase2: bool
    const encrypted: bool
    var freq: real
    var state: C.State
    var monitoring: C.MonitoringState
    var recorder: Recorder?
    var isAnalog: bool
    var lastUpdate: int
    var srcId: int

    ghost function Value(): C.Call
      reads this
    {
      C.Call(num, talkgroup, sysNum, freq, slot, phase2, encrypted, state, monitoring,
             if recorder == null then None else Some(recorder.place), isAnalog, lastUpdate, srcId)
    }

    constructor (num: nat, m: C.Message, now: int)
      ensures Value() == C.NewCall(num, m, now) && recorder == null
    {
      this.num := num;
      srcId := -1;
      freq := 0.0;
      talkgroup, sysNum := m.talkgroup, m.sysNum;
      lastUpdate := now;
      state, monitoring, recorder := C.MONITORING, C.UNSPECIFIED, null;
      phase2, slot, encrypted := m.phase2, m.slot, m.encrypted;
      isAnalog := false;
      new;
      SetFreq(m.freq);
      var added := AddSource(m.source);
    }

    method SetFreq(f: real)
      modifies this`freq
      ensures freq == f
    {
      if f != freq { freq := f; }
    }

    method AddSource(src: int) returns (added: bool)
      modifies this`srcId
      ensures srcId == (if src == -1 then old(srcId) else src)
      ensures added <==> srcId != old(srcId)
    {
      if src == -1 {
        return false;
      }
      if src == srcId {
        return false;
      }
      srcId := src;
      return true;
    }

    method Update(m: C.Message, now: int) returns (sourceUpdated: bool)
      modifies this`lastUpdate, this`srcId
      ensures C.Matches(old(Value()), m) ==> Value() == C.Updated(old(Value()), m, now)
      ensures m.freq != freq || m.talkgroup != talkgroup ==> Value() == old(Value()).(lastUpdate := now)
      ensures sourceUpdated <==> srcId != old(srcId)
    {
      lastUpdate := now;
      if m.freq != freq || m.talkgroup != talkgroup {
        return false;
      }
      sourceUpdated := AddSource(m.source);
    }

    method Monitor(why: C.MonitoringState)
      modifies this`state, this`monitoring
      ensures Value() == C.Monitored(old(Value()), why)
    {
      state := C.MONITORING;
      monitoring := why;
    }

    /** Stops the recorder and hands the call over, if it records or was superseded. */
    method Conclude() returns (handedOver: bool)
      requires C.Concludes(Value()) ==> recorder != null
      modifies recorder
      ensures handedOver <==> C.Concludes(Value())
      ensures handedOver ==> recorder.available
      ensures !handedOver && recorder != null ==> recorder.available == old(recorder.available)
    {
      handedOver := state == C.RECORDING || (state == C.MONITORING && monitoring == C.SUPERSEDED);
      if handedOver {
        recorder.Stop();
      }
    }
  }

  // ---------------------------------------------------------------- sources

  class Source {
    const num: nat
    const minHz: real
    const maxHz: real
    var digital: seq<Recorder>
    var analog: seq<Recorder>

    ghost predicate Valid()
      reads this
    {
      && (forall i :: 0 <= i < |digital| ==> digital[i].place == R.Recorder(num, false, i))
      && (forall i :: 0 <= i < |analog| ==> analog[i].place == R.Recorder(num, true, i))
    }

    ghost function Value(): R.Source
      reads this, digital, analog
    {
      R.Source(minHz, maxHz, Pool(digital), Pool(analog))
    }

    constructor (num: nat, minHz: real, maxHz: real)
      ensures Valid() && this.num == num && Value() == R.Source(minHz, maxHz, [], [])
    {
      this.num, this.minHz, this.maxHz := num, minHz, maxHz;
      digital, analog := [], [];
    }

    method CreateRecorders(r: nat, isAnalog: bool)
      requires Valid() && (if isAnalog then analog else digital) == []
      modifies this
      ensures Valid() && C.AllFree(Pool(if isAnalog then analog else digital))
      ensures |if isAnalog then analog else digital| == r
      ensures if isAnalog then digital == old(digital) else analog == old(analog)
      ensures fresh(if isAnalog then analog else digital)
    {
      var made: seq<Recorder> := [];
      for i := 0 to r
        invariant |made| == i && fresh(made) && unchanged(this)
        invariant forall k :: 0 <= k < i ==> made[k].place == R.Recorder(num, isAnalog, k) && made[k].available
      {
        var log := new Recorder(R.Recorder(num, isAnalog, i));
        made := made + [log];
      }
      if isAnalog { analog := made; } else { digital := made; }
    }

    function List(isAnalog: bool): seq<Recorder>
      reads this
    {
      if isAnalog then analog else digital
    }

    method GetNumAvailable(isAnalog: bool) returns (n: nat)
      ensures n == R.CountFree(Pool(List(isAnalog)))
    {
      var list := List(isAnalog);
      n := 0;
      for i := 0 to |list|
        invariant n == R.CountFree(Pool(list)[..i])
      {
        assert Pool(list)[..i + 1][..i] == Pool(list)[..i];
        if list[i].available { n := n + 1; }
      }
      assert Pool(list)[..|list|] == Pool(list);
    }

    method FirstAvailable(isAnalog: bool) returns (r: Recorder?)
      requires Valid()
      ensures match R.FirstFree(Pool(List(isAnalog)), 0)
        case None => r == null
        case Some(i) => r == List(isAnalog)[i]
    {
      var list := List(isAnalog);
      for i := 0 to |list|
        invariant R.FirstFree(Pool(list), 0) == R.FirstFree(Pool(list), i)
      {
        if list[i].available { return list[i]; }
      }
      return null;
    }

    /** get_digital_recorder and get_analog_recorder; a refusal is written on the call. */
    method GetRecorder(isAnalog: bool, priority: Option<int>, call: Call) returns (r: Recorder?)
      requires Valid()
      modifies call`state, call`monitoring
      ensures var choice := C.Choose(Pool(List(isAnalog)), priority);
        && (r != null <==> choice.Chosen?)
        && (choice.Chosen? ==> r == List(isAnalog)[choice.index])
        && call.Value() == if choice.Refused? then C.Monitored(old(call.Value()), choice.why) else old(call.Value())
    {
      var available := GetNumAvailable(isAnalog);
      if priority == Some(-1) {
        call.Monitor(C.IGNORED_TG);
        return null;
      }
      if priority.Some? && priority.value > available {
        call.Monitor(C.NO_RECORDER);
        return null;
      }
      r := FirstAvailable(isAnalog);
    }
  }

  // ---------------------------------------------------------------- the manager

  class Manager {
    var sources: seq<Source>
    var calls: seq<Call>
    var counter: nat
    ghost var recs: set<Recorder>
    ghost var recorded: set<nat>
    ghost var concluded: multiset<nat>
    ghost var deleted: set<nat>

    /** Sources and recorders stand where their numbers say. */
    ghost predicate SourcesValid()
      reads this, sources
    {
      && (forall i :: 0 <= i < |sources| ==> sources[i].num == i && sources[i].Valid())
      && (forall i, k :: 0 <= i < |sources| && 0 <= k < |sources[i].digital| ==> sources[i].digital[k] in recs)
      && (forall i, k :: 0 <= i < |sources| && 0 <= k < |sources[i].analog| ==> sources[i].analog[k] in recs)
      && (forall r :: r in recs ==> (r.place.source < |sources|
            && var list := sources[r.place.source].List(r.place.analog); r.place.index < |list| && list[r.place.index] == r))
    }

    ghost function SourceValues(): (v: seq<R.Source>)
      requires SourcesValid()
      reads this, sources, recs
      ensures |v| == |sources| && forall i :: 0 <= i < |sources| ==> v[i] == sources[i].Value()
    {
      seq(|sources|, i requires 0 <= i < |sources| && SourcesValid() reads this, sources, recs => sources[i].Value())
    }

    ghost function CallValues(): (v: seq<C.Call>)
      reads this, calls
      ensures |v| == |calls| && forall i :: 0 <= i < |calls| ==> v[i] == calls[i].Value()
    {
      seq(|calls|, i requires 0 <= i < |calls| reads this, calls => calls[i].Value())
    }

    ghost function World(): C.World
      requires SourcesValid()
      reads this, sources, recs, calls
    {
      C.World(SourceValues(), CallValues(), counter, recorded, concluded, deleted)
    }

    /** A call's recorder is one of the sources' recorders. */
    ghost predicate CallsPlaced()
      reads this, calls
    {
      forall i :: 0 <= i < |calls| && calls[i].recorder != null ==> calls[i].recorder in recs
    }

    ghost predicate Valid()
      reads this, sources, recs, calls
    {
      SourcesValid() && CallsPlaced() && S.Inv(World())
    }

    lemma RecorderThere(r: Recorder)
      requires SourcesValid() && r in recs
      ensures R.Exists(SourceValues(), r.place) && R.Free(SourceValues(), r.place) == r.available
    {
    }

    lemma RecordersThere()
      requires SourcesValid()
      ensures forall r :: r in recs ==> R.Exists(SourceValues(), r.place) && R.Free(SourceValues(), r.place) == r.available
    {
      hide SourcesValid, SourceValues, R.Exists, R.Free;
      forall r | r in recs
        ensures R.Exists(SourceValues(), r.place) && R.Free(SourceValues(), r.place) == r.available
      {
        RecorderThere(r);
      }
    }

    /** The sources are as they were, but for the availability of their recorders. */
    ghost predicate SameSources(before: seq<R.Source>)
      reads this, sources
    {
      |before| == |sources| && forall i :: 0 <= i < |sources| ==>
        (before[i].minHz == sources[i].minHz && before[i].maxHz == sources[i].maxHz
        && |before[i].digital| == |sources[i].digital| && |before[i].analog| == |sources[i].analog|)
    }

    lemma SameNow()
      requires SourcesValid()
      ensures SameSources(SourceValues())
    {
    }

    lemma ListChanged(before: seq<R.Source>, r: Recorder, s: nat, analog: bool)
      requires SourcesValid() && SameSources(before) && r in recs && s < |sources|
      requires forall x :: x in recs && x != r ==> R.Exists(before, x.place) && R.Free(before, x.place) == x.available
      ensures Pool(sources[s].List(analog)) == ChangedPool(R.PoolOf(before, s, analog), s, analog, r.place, r.available)
    {
      var list, pool := sources[s].List(analog), R.PoolOf(before, s, analog);
      forall k | 0 <= k < |list|
        ensures list[k].available == ChangedPool(pool, s, analog, r.place, r.available)[k]
      {
        assert list[k] in recs && list[k].place == R.Recorder(s, analog, k);
      }
    }

    /** If only one recorder changed, so did only its place in the sources' values. */
    lemma RecorderChanged(before: seq<R.Source>, r: Recorder)
      requires SourcesValid() && SameSources(before) && r in recs && R.Exists(before, r.place)
      requires forall x :: x in recs && x != r ==> R.Exists(before, x.place) && R.Free(before, x.place) == x.available
      ensures SourceValues() == R.SetFree(before, r.place, r.available)
    {
      hide R.SetFree, ChangedPool, Pool, R.Exists, R.Free, SourcesValid;
      var after := SourceValues();
      forall i | 0 <= i < |sources|
        ensures after[i].minHz == before[i].minHz && after[i].maxHz == before[i].maxHz
        ensures after[i].digital == ChangedPool(before[i].digital, i, false, r.place, r.available)
        ensures after[i].analog == ChangedPool(before[i].analog, i, true, r.place, r.available)
      {
        ListChanged(before, r, i, false);
        ListChanged(before, r, i, true);
      }
      SetFreeIs(before, after, r.place, r.available);
    }

    // ------------------------------------------------------------- starting a recorder

    method GetTalkgroupPatch(sys: C.System, tg: int) returns (ids: seq<int>)
      ensures ids == C.Patched(sys.patches, tg)
    {
      ids := [];
      var i := 0;
      while i < |sys.patches|
        invariant 0 <= i <= |sys.patches|
        invariant ids + C.Patched(sys.patches[i..], tg) == C.Patched(sys.patches, tg)
      {
        assert sys.patches[i..][1..] == sys.patches[i + 1..];
        if tg in sys.patches[i] { ids := ids + sys.patches[i]; }
        i := i + 1;
      }
    }

    method GetPriority(sys: C.System, tg: int) returns (priority: int)
      requires tg in sys.talkgroups
      ensures priority == C.EffectivePriority(sys, tg)
    {
      priority := sys.talkgroups[tg].priority;
      var ids := GetTalkgroupPatch(sys, tg);
      var i := 0;
      while i < |ids|
        invariant 0 <= i <= |ids|
        invariant C.MinPriority(sys, ids[i..], priority) == C.EffectivePriority(sys, tg)
      {
        assert ids[i..][1..] == ids[i + 1..];
        if ids[i] in sys.talkgroups && sys.talkgroups[ids[i]].priority < priority {
          priority := sys.talkgroups[ids[i]].priority;
        }
        i := i + 1;
      }
    }

    ghost function ChoiceOn(call: Call, env: C.Env, sys: C.System, s: nat): C.Choice
      requires SourcesValid() && s < |sources|
      reads this, sources, recs
    {
      C.Choose(R.PoolOf(SourceValues(), s, C.WantsAnalog(env, sys, call.talkgroup)),
               if call.talkgroup in sys.talkgroups then Some(C.EffectivePriority(sys, call.talkgroup)) else None)
    }

    method AskPool(call: Call, s: nat, analog: bool, priority: Option<int>) returns (recorder: Recorder?)
      requires SourcesValid() && s < |sources|
      modifies call`state, call`monitoring
      ensures var choice := C.Choose(R.PoolOf(SourceValues(), s, analog), priority);
        && (recorder != null <==> choice.Chosen?)
        && (recorder != null ==> recorder in recs && recorder.place == R.Recorder(s, analog, choice.index))
        && (recorder != null ==> recorder.available)
        && call.Value() == if choice.Refused? then C.Monitored(old(call.Value()), choice.why) else old(call.Value())
    {
      hide R.FirstFree, R.CountFree;
      recorder := sources[s].GetRecorder(analog, priority, call);
    }

    /** Asks the source that covers the call for a recorder of the right kind. */
    method AskSource(call: Call, env: C.Env, sys: C.System, s: nat) returns (recorder: Recorder?)
      requires SourcesValid() && s < |sources|
      modifies call`state, call`monitoring, call`isAnalog
      ensures var choice, analog := ChoiceOn(call, env, sys, s), C.WantsAnalog(env, sys, call.talkgroup);
        && (recorder != null <==> choice.Chosen?)
        && (recorder != null ==> recorder in recs && recorder.place == R.Recorder(s, analog, choice.index))
        && (recorder != null ==> recorder.available)
        && (var d := if analog then old(call.Value()).(isAnalog := true) else old(call.Value());
            call.Value() == if choice.Refused? then C.Monitored(d, choice.why) else d)
    {
      hide C.Choose, R.PoolOf, C.EffectivePriority, Source.Value, Source.Valid, Source.List, SourceValues;
      if call.talkgroup in sys.talkgroups {
        var priority := GetPriority(sys, call.talkgroup);
        if sys.talkgroups[call.talkgroup].mode == "A" {
          recorder := AskPool(call, s, true, Some(priority));
          call.isAnalog := true;
        } else {
          recorder := AskPool(call, s, false, Some(priority));
        }
      } else if env.defaultAnalog && sys.smartnet {
        recorder := AskPool(call, s, true, None);
        call.isAnalog := true;
      } else {
        recorder := AskPool(call, s, false, None);
      }
    }

    method TryRecorder(recorder: Recorder, starts: bool) returns (started: bool)
      requires SourcesValid() && recorder in recs && recorder.available
      modifies recorder
      ensures SourcesValid() && started == starts
      ensures R.Exists(old(SourceValues()), recorder.place)
      ensures SourceValues() == if started then R.Taken(old(SourceValues()), recorder.place) else old(SourceValues())
    {
      hide R.SetFree, Pool, R.Exists, R.Free, SourcesValid, SourceValues, SameSources, Source.Value;
      ghost var before := SourceValues();
      RecordersThere();
      SameNow();
      started := recorder.Start(starts);
      RecorderChanged(before, recorder);
      if !started { SetFreeAgain(before, recorder.place); }
    }

    method StartWith(call: Call, recorder: Recorder, starts: bool) returns (started: bool)
      requires SourcesValid() && recorder in recs && recorder.available && call.recorder == null
      modifies call`recorder, call`state, recorder
      ensures SourcesValid() && started == starts && (call.recorder != null ==> call.recorder in recs)
      ensures R.Exists(old(SourceValues()), recorder.place)
      ensures SourceValues() == if started then R.Taken(old(SourceValues()), recorder.place) else old(SourceValues())
      ensures call.Value() == if started then old(call.Value()).(recorder := Some(recorder.place), state := C.RECORDING)
                              else old(call.Value()).(state := C.MONITORING)
    {
      hide R.SetFree, Pool, Source.Value, Source.List, Source.Valid, R.Exists;
      started := TryRecorder(recorder, starts);
      if started {
        call.recorder := recorder;
        call.state := C.RECORDING;
      } else {
        call.state := C.MONITORING;
      }
    }

    /** The body of start_recorder's loop for the source that covers the call. */
    method StartOn(call: Call, env: C.Env, sys: C.System, s: nat) returns (ok: bool)
      requires SourcesValid() && s < |sources| && call !in calls && call.recorder == null
      modifies call, recs
      ensures SourcesValid() && (call.recorder != null ==> call.recorder in recs)
      ensures var r := C.StartOn(env, sys, old(SourceValues()), old(call.Value()), s);
        SourceValues() == r.sources && call.Value() == r.call && ok == r.ok
    {
      hide C.Choose, C.EffectivePriority, C.WantsAnalog, R.SetFree, Pool, Source.Value, SourceValues, Source.List;
      hide Source.Valid, R.PoolOf, R.Exists, R.Taken, C.StartOn, C.Monitored, SourcesValid;
      ghost var before, c := SourceValues(), call.Value();
      StartOnCases(env, sys, before, c, s);
      var recorder := AskSource(call, env, sys, s);
      assert SourceValues() == before;
      if recorder == null {
        return false;
      }
      ok := StartWith(call, recorder, env.starts);
    }

    /** The first source that covers a frequency. */
    method FindSource(freq: real) returns (s: Option<nat>)
      requires SourcesValid()
      ensures s == C.FirstCovering(SourceValues(), freq, 0)
    {
      for i := 0 to |sources|
        invariant C.FirstCovering(SourceValues(), freq, 0) == C.FirstCovering(SourceValues(), freq, i)
      {
        if sources[i].minHz <= freq <= sources[i].maxHz { return Some(i); }
      }
      return None;
    }

    method StartRecorder(call: Call, env: C.Env, sys: C.System) returns (ok: bool)
      requires SourcesValid() && call !in calls && call.recorder == null
      modifies call, recs
      ensures SourcesValid() && (call.recorder != null ==> call.recorder in recs)
      ensures var r := C.StartRecorder(env, sys, old(SourceValues()), old(call.Value()));
        SourceValues() == r.sources && call.Value() == r.call && ok == r.ok
    {
      hide C.StartOn, C.FirstCovering, Source.Value, SourceValues, Source.List, Source.Valid;
      var known := call.talkgroup in sys.talkgroups;
      if !known && !sys.recordUnknown {
        call.Monitor(C.UNKNOWN_TG);
        return false;
      }
      if call.encrypted || (known && C.EncryptedMode(sys.talkgroups[call.talkgroup].mode)) {
        call.Monitor(C.ENCRYPTED);
        return false;
      }
      var s := FindSource(call.freq);
      if s == None {
        call.Monitor(C.NO_SOURCE);
        return false;
      }
      FirstCoveringInside(SourceValues(), call.freq);
      ok := StartOn(call, env, sys, s.value);
    }

    // ------------------------------------------------------------- calls

    ghost predicate Distinct()
      reads this
    {
      forall i, j :: 0 <= i < j < |calls| ==> calls[i] != calls[j]
    }

    /** Whether a call is recorded by another site of the message's network, and
        whether that site is preferred less. */
    method Judge(call: Call, m: C.Message, env: C.Env) returns (duplicate: bool, supersedes: bool)
      ensures duplicate == C.Duplicates(env, call.Value(), m) && supersedes == C.Supersedes(env, call.Value(), m)
      ensures duplicate == L.HeardElsewhere(env, call.Value(), m)
      ensures supersedes == (duplicate && L.Outdoes(env.systems(m.sysNum), env.systems(call.sysNum), m.talkgroup))
    {
      L.HeardIsDuplicate(env, call.Value(), m);
      L.OutdoesIs(env, call.Value(), m);
      duplicate, supersedes := false, false;
      var sys := env.systems(m.sysNum);
      var callSys := env.systems(call.sysNum);
      var messagePreferred := if m.talkgroup in sys.talkgroups then sys.talkgroups[m.talkgroup].preferredNAC else 0;
      var callPreferred :=
        if m.talkgroup in callSys.talkgroups then callSys.talkgroups[m.talkgroup].preferredNAC else 0;
      if call.talkgroup == m.talkgroup && call.sysNum != m.sysNum {
        if callSys.multiSite && sys.multiSite && callSys.wacn == sys.wacn {
          var sysSite := sys.rfss * 10000 + sys.siteId;
          var callSite := callSys.rfss * 10000 + callSys.siteId;
          if sysSite != callSite && callSys.siteName == "" {
            if call.state == C.RECORDING {
              duplicate := true;
              if callPreferred != callSys.nac && messagePreferred == sys.nac {
                supersedes := true;
              } else if callPreferred != callSite && messagePreferred == sysSite {
                supersedes := true;
              }
            }
          } else if callSys.siteName != "" && callSys.siteName == sys.siteName {
            if call.state == C.RECORDING {
              duplicate := true;
              if callSys.siteNumber != 0 && sys.siteNumber != 0 {
                if callPreferred != callSys.siteNumber && messagePreferred == sys.siteNumber {
                  supersedes := true;
                }
              }
            }
          }
        }
      }
    }

    /** The loop of handle_call_grant. */
    method ScanCalls(m: C.Message, env: C.Env) returns (found: bool, superseding: bool, original: Call?)
      requires Distinct()
      modifies calls
      ensures CallValues() == C.UpdateAll(old(CallValues()), m, env.now)
      ensures forall c :: c in calls ==> c.recorder == old(c.recorder)
      ensures found == C.Found(old(CallValues()), m) && superseding == C.Superseding(env, old(CallValues()), m)
      ensures match C.Original(env, old(CallValues()), m, |calls|)
        case None => original == null
        case Some(i) => original == calls[i]
    {
      hide C.Matches, C.Updated, C.Duplicates, C.Supersedes, C.Found, C.Superseding, C.Original;
      NoneScanned(env, CallValues(), m);
      ghost var before := CallValues();
      found, superseding, original := false, false, null;
      for i := 0 to |calls|
        invariant forall k :: 0 <= k < i ==>
          calls[k].Value() == if C.Matches(before[k], m) then C.Updated(before[k], m, env.now) else before[k]
        invariant forall k :: i <= k < |calls| ==> calls[k].Value() == before[k]
        invariant forall c :: c in calls ==> c.recorder == old(c.recorder)
        invariant found == C.Found(before[..i], m) && superseding == C.Superseding(env, before[..i], m)
        invariant match C.Original(env, before, m, i) case None => original == null case Some(k) => original == calls[k]
      {
        var call := calls[i];
        FoundStep(before, m, i);
        SupersedingStep(env, before, m, i);
        OriginalStep(env, before, m, i);
        var duplicate, supersedes := Judge(call, m, env);
        if duplicate { original := call; }
        if supersedes { superseding := true; }
        if Same(call, m) {
          found := true;
          var updated := call.Update(m, env.now);
        }
      }
      assert before[..|calls|] == before;
    }

    function Same(call: Call, m: C.Message): (same: bool)
      reads call
      ensures same == C.Matches(call.Value(), m)
    {
      call.talkgroup == m.talkgroup && call.sysNum == m.sysNum && call.freq == m.freq && call.slot == m.slot
      && call.phase2 == m.phase2
    }

    /** If only one call changed, so did only its place in the calls' values. */
    lemma CallChanged(before: seq<C.Call>, i: nat)
      requires |before| == |calls| && i < |calls|
      requires forall k :: 0 <= k < |calls| && k != i ==> calls[k].Value() == before[k]
      ensures CallValues() == before[i := calls[i].Value()]
    {
    }

    method StopRecorder(call: Call) returns (handedOver: bool)
      requires SourcesValid() && call.recorder in recs && C.Concludes(call.Value())
      modifies call.recorder
      ensures SourcesValid() && handedOver && R.Exists(old(SourceValues()), call.recorder.place)
      ensures SourceValues() == R.Stopped(old(SourceValues()), call.recorder.place)
    {
      hide R.SetFree, Pool, Source.List, Source.Valid, R.Exists, R.PoolOf, C.Concludes;
      ghost var before := SourceValues();
      RecordersThere();
      handedOver := call.Conclude();
      RecorderChanged(before, call.recorder);
    }

    /** Concludes a call that records or was superseded, and notes it. */
    method Conclude(call: Call)
      requires SourcesValid() && call.recorder in recs && C.Concludes(call.Value())
      modifies call.recorder, this`concluded
      ensures SourcesValid() && World() == C.ConcludeCall(old(World()), call.Value())
    {
      hide R.SetFree, Pool, Source.Value, Source.Valid, Source.List, R.Exists, C.Concludes;
      var handedOver := StopRecorder(call);
      ghost var sources := SourceValues();
      concluded := concluded + multiset{call.num};
      assert CallValues() == old(CallValues()) && SourceValues() == sources;
    }

    /** The original call gives way to the one of a superseding grant. */
    method Supersede(original: Call, ghost i: nat)
      requires SourcesValid() && CallsPlaced() && Distinct() && i < |calls| && calls[i] == original
      requires original.recorder != null
      modifies original, original.recorder, this`concluded
      ensures SourcesValid() && CallsPlaced() && World() == C.Superseded(old(World()), i)
    {
      hide R.SetFree, Pool, Source.Value, Source.List, Source.Valid, R.Exists;
      ghost var before := CallValues();
      original.Monitor(C.SUPERSEDED);
      CallChanged(before, i);
      Conclude(original);
    }

    method EraseAt(i: nat)
      requires SourcesValid() && CallsPlaced() && i < |calls|
      modifies this`calls, this`deleted
      ensures SourcesValid() && CallsPlaced() && World() == C.Erase(old(World()), i)
      ensures calls == old(calls[..i] + calls[i + 1..])
    {
      hide Pool, Source.Value, Source.List, Source.Valid;
      ghost var v := CallValues();
      deleted := deleted + {calls[i].num};
      calls := calls[..i] + calls[i + 1..];
      assert CallValues() == v[..i] + v[i + 1..];
    }

    /** A call is concluded if it records, and taken off the list. */
    method RemoveAt(i: nat)
      requires SourcesValid() && CallsPlaced() && i < |calls|
      requires calls[i].state == C.MONITORING || (calls[i].state == C.RECORDING && calls[i].recorder != null)
      modifies this`calls, this`concluded, this`deleted, calls[i].recorder
      ensures SourcesValid() && CallsPlaced() && World() == C.Remove(old(World()), i)
      ensures calls == old(calls[..i] + calls[i + 1..])
    {
      hide R.SetFree, Pool, Source.Value, Source.List, Source.Valid, R.Exists;
      if calls[i].state != C.MONITORING {
        Conclude(calls[i]);
      }
      EraseAt(i);
    }

    // ------------------------------------------------------------- the manager's events

    constructor (sources: seq<Source>, ghost recs: set<Recorder>)
      requires forall i :: 0 <= i < |sources| ==> sources[i].num == i && sources[i].Valid()
      requires forall i, k :: 0 <= i < |sources| && 0 <= k < |sources[i].digital| ==> sources[i].digital[k] in recs
      requires forall i, k :: 0 <= i < |sources| && 0 <= k < |sources[i].analog| ==> sources[i].analog[k] in recs
      requires forall r :: r in recs ==> (r.available && r.place.source < |sources|
        && var list := sources[r.place.source].List(r.place.analog); r.place.index < |list| && list[r.place.index] == r)
      ensures Valid() && C.Initial(World()) && this.sources == sources
    {
      this.sources, this.recs := sources, recs;
      calls, counter := [], 0;
      recorded, concluded, deleted := {}, multiset{}, {};
      new;
      hide S.Inv, Source.Value, SourceValues, Source.Valid, Source.List, Pool, C.AllFree;
      assert SourcesValid();
      FreeAtFirst();
      S.InitialInv(World());
    }

    lemma FreeAtFirst()
      requires SourcesValid() && forall r :: r in recs ==> r.available
      ensures var v := SourceValues();
        forall s :: 0 <= s < |v| ==> C.AllFree(v[s].digital) && C.AllFree(v[s].analog)
    {
    }

    /** The start of a new call, noted if its recorder starts. */
    method BeginCall(call: Call, env: C.Env, start: bool) returns (ok: bool)
      requires SourcesValid() && CallsPlaced() && call !in calls && call.recorder == null
      modifies call, recs, this`recorded
      ensures SourcesValid() && CallsPlaced() && (call.recorder != null ==> call.recorder in recs)
      ensures var b := C.Begun(old(World()), env, old(call.Value()), start);
        World() == b.0 && call.Value() == b.1 && ok == b.2
    {
      hide C.StartRecorder, C.Monitored, Source.Value, Pool, Source.Valid, Source.List;
      ghost var v := CallValues();
      if start {
        ok := StartRecorder(call, env, env.systems(call.sysNum));
        if ok { Note(call.num); }
      } else {
        call.Monitor(C.DUPLICATE);
        ok := false;
      }
      assert CallValues() == v;
    }

    ghost method Note(num: nat)
      requires SourcesValid() && CallsPlaced()
      modifies this`recorded
      ensures SourcesValid() && CallsPlaced()
      ensures World() == old(World()).(recorded := old(World()).recorded + {num})
    {
      hide Pool, Source.Value, Source.List, Source.Valid;
      recorded := recorded + {num};
      assert CallValues() == old(CallValues()) && SourceValues() == old(SourceValues());
    }

    lemma NumbersDistinct()
      requires Valid()
      ensures Distinct()
    {
      hide Source.Value, Source.Valid, S.AllHold, S.PoolsFull;
      hide S.LiveHistory, S.DeletedHistory, S.FutureHistory, S.Accounted;
      forall i, j | 0 <= i < j < |calls| ensures calls[i] != calls[j] {
        assert S.Apart(World().calls[i], World().calls[j]);
      }
    }

    method PushBack(call: Call)
      requires SourcesValid() && CallsPlaced() && (call.recorder != null ==> call.recorder in recs)
      modifies this`calls
      ensures SourcesValid() && CallsPlaced()
      ensures World() == old(World()).(calls := old(World()).calls + [call.Value()])
    {
      hide Pool, Source.Value, Source.List, Source.Valid;
      ghost var v := CallValues();
      calls := calls + [call];
      assert CallValues() == v + [call.Value()];
    }

    /** The grant's new call, when no call on the list is the grant's. */
    method AddCall(m: C.Message, env: C.Env, superseding: bool, original: Call?, ghost found: Option<nat>)
      requires SourcesValid() && CallsPlaced() && Distinct()
      requires match found
        case None => original == null && !superseding
        case Some(i) => i < |calls| && original == calls[i]
      requires superseding ==> original != null && original.recorder != null && original.recorder in recs
      modifies this`calls, this`counter, this`recorded, this`concluded, calls, recs
      ensures SourcesValid() && CallsPlaced()
      ensures World() == Granted(old(World()), env, m, superseding, found)
    {
      hide C.Begun, C.Superseded, C.NewCall, Pool, Source.Value;
      hide Source.List, Source.Valid, SourcesValid, CallsPlaced, SourceValues, CallValues;
      var call := new Call(counter, m, env.now);
      CountUp();
      ghost var v := World();
      var ok := BeginCall(call, env, superseding || original == null);
      if superseding && ok {
        Supersede(original, found.value);
      }
      PushBack(call);
    }

    method CountUp()
      requires SourcesValid() && CallsPlaced()
      modifies this`counter
      ensures SourcesValid() && CallsPlaced() && World() == old(World()).(counter := old(World()).counter + 1)
    {
      hide Pool, Source.Value, Source.List, Source.Valid;
      counter := counter + 1;
      assert CallValues() == old(CallValues()) && SourceValues() == old(SourceValues());
    }

    method Scan(m: C.Message, env: C.Env) returns (found: bool, superseding: bool, original: Call?)
      requires SourcesValid() && CallsPlaced() && Distinct()
      modifies calls
      ensures SourcesValid() && CallsPlaced()
      ensures var w := old(World());
        && World() == w.(calls := C.UpdateAll(w.calls, m, env.now))
        && found == C.Found(w.calls, m) && superseding == C.Superseding(env, w.calls, m)
      ensures match C.Original(env, old(World()).calls, m, |calls|)
        case None => original == null
        case Some(i) => original == calls[i] && (original.recorder != null <==> old(World()).calls[i].recorder.Some?)
    {
      hide C.Original, C.Superseding, C.Found, C.UpdateAll, Pool, Source.Value, Source.List, Source.Valid;
      OriginalInside(env, CallValues(), m, |calls|);
      found, superseding, original := ScanCalls(m, env);
      assert SourceValues() == old(SourceValues());
    }

    method HandleCallGrant(m: C.Message, env: C.Env)
      requires Valid()
      modifies this, calls, recs
      ensures Valid() && World() == C.HandleGrant(old(World()), env, m)
    {
      hide C.Original, C.Superseding, C.Found, C.UpdateAll, C.HandleGrant, S.Inv, Granted;
      hide Pool, Source.Value, SourcesValid, SourceValues, Distinct;
      ghost var w := World();
      NumbersDistinct();
      S.GrantKeeps(w, env, m);
      OriginalHeld(w, env, m);
      OriginalInside(env, w.calls, m, |w.calls|);
      var found, superseding, original := Scan(m, env);
      GrantIsGranted(w, env, m);
      if !found {
        AddCall(m, env, superseding, original, C.Original(env, w.calls, m, |w.calls|));
      }
    }

    method HandleCallUpdate(m: C.Message, env: C.Env)
      requires Valid()
      modifies calls
      ensures Valid() && World() == C.HandleUpdate(old(World()), env, m)
    {
      hide S.Inv, C.UpdateAll, SourcesValid, CallsPlaced, World;
      ghost var w := World();
      NumbersDistinct();
      UpdateKeeps(env, m);
      UpdateCalls(m, env.now);
    }

    lemma UpdateKeeps(env: C.Env, m: C.Message)
      requires Valid()
      ensures S.Inv(C.HandleUpdate(World(), env, m))
    {
      S.UpdateAlike(World().calls, m, env.now);
      S.AlikeKeeps(World(), C.UpdateAll(World().calls, m, env.now));
    }

    /** The loop of handle_call_update. */
    method UpdateCalls(m: C.Message, now: int)
      requires SourcesValid() && CallsPlaced() && Distinct()
      modifies calls
      ensures SourcesValid() && CallsPlaced()
      ensures World() == old(World()).(calls := C.UpdateAll(old(World()).calls, m, now))
    {
      hide C.Matches, C.Updated, SourcesValid, SourceValues;
      ghost var before := CallValues();
      for i := 0 to |calls|
        invariant forall k :: 0 <= k < i ==>
          calls[k].Value() == if C.Matches(before[k], m) then C.Updated(before[k], m, now) else before[k]
        invariant forall k :: i <= k < |calls| ==> calls[k].Value() == before[k]
        invariant forall c :: c in calls ==> c.recorder == old(c.recorder)
      {
        if Same(calls[i], m) {
          var updated := calls[i].Update(m, now);
        }
      }
      assert CallValues() == C.UpdateAll(before, m, now);
    }

    /** What a management pass does with one call. */
    method ManageOne(t: C.Timing, i: nat) returns (ended: bool)
      requires Valid() && i < |calls|
      modifies this`calls, this`concluded, this`deleted, recs
      ensures Valid() && ended == C.TimedOut(t, old(World()).calls[i])
      ensures World() == if ended then C.Remove(old(World()), i) else old(World())
      ensures ended ==> |calls| == |old(calls)| - 1
      ensures !ended ==> calls == old(calls)
    {
      hide S.Inv, C.Remove, Pool, Source.Value, Source.List, Source.Valid;
      InvHolds(World());
      S.HeldAt(World(), i);
      S.RemoveKeeps(World(), i);
      var call := calls[i];
      ended := (call.state == C.MONITORING && t.now - call.lastUpdate > t.timeout)
            || (call.state == C.RECORDING && t.sinceWrite(call.recorder.place) > t.timeout
                && t.now - call.lastUpdate > t.timeout);
      if ended { RemoveAt(i); }
    }

    /** Erases calls while it goes through them. */
    method ManageCalls(t: C.Timing)
      requires Valid()
      modifies this`calls, this`concluded, this`deleted, recs
      ensures Valid() && World() == C.ManageFrom(old(World()), t, 0)
    {
      hide S.Inv, C.Remove, C.TimedOut, Pool, Source.Value, SourcesValid, CallsPlaced;
      ghost var w := World();
      var i := 0;
      while i < |calls|
        invariant i <= |calls| && Valid() && C.ManageFrom(World(), t, i) == C.ManageFrom(w, t, 0)
        decreases |calls| - i
      {
        var ended := ManageOne(t, i);
        if !ended { i := i + 1; }
      }
    }

    /** The shutdown loop of monitor_messages. */
    method ShutDown()
      requires Valid()
      modifies this`calls, this`concluded, this`deleted, recs
      ensures Valid() && World() == C.ShutDown(old(World())) && calls == []
    {
      hide S.Inv, C.Remove, Pool, Source.Value, Source.List, Source.Valid;
      ghost var w := World();
      while calls != []
        invariant Valid() && C.ShutDown(World()) == C.ShutDown(w)
        decreases |calls|
      {
        InvHolds(World());
        S.HeldAt(World(), 0);
        S.RemoveKeeps(World(), 0);
        RemoveAt(0);
      }
    }
  }

  lemma InvHolds(w: C.World)
    requires S.Inv(w)
    ensures S.AllHold(w)
  {
  }

  ghost function Granted(v: C.World, env: C.Env, m: C.Message, superseding: bool, found: Option<nat>): C.World
    requires found.Some? ==> found.value < |v.calls|
  {
    var c := C.NewCall(v.counter, m, env.now);
    var b := C.Begun(v.(counter := v.counter + 1), env, c, superseding || found == None);
    var t := if superseding && b.2 && found.Some? then C.Superseded(b.0, found.value) else b.0;
    t.(calls := t.calls + [b.1])
  }

  lemma GrantIsGranted(w: C.World, env: C.Env, m: C.Message)
    ensures var v := w.(calls := C.UpdateAll(w.calls, m, env.now));
      C.HandleGrant(w, env, m) == if C.Found(w.calls, m) then v
        else Granted(v, env, m, C.Superseding(env, w.calls, m), C.Original(env, w.calls, m, |w.calls|))
  {
    hide C.Superseding, C.Found, C.Superseded, C.Begun;
  }

  lemma OriginalInside(env: C.Env, calls: seq<C.Call>, m: C.Message, n: nat)
    requires n <= |calls|
    ensures C.Original(env, calls, m, n).Some? ==> C.Original(env, calls, m, n).value < n
  {
  }

  /** The original call of a superseding grant records, and so has a recorder. */
  lemma OriginalHeld(w: C.World, env: C.Env, m: C.Message)
    requires S.Inv(w)
    ensures match C.Original(env, w.calls, m, |w.calls|)
      case None => !C.Superseding(env, w.calls, m)
      case Some(i) => i < |w.calls| && w.calls[i].recorder.Some?
  {
    hide S.AllApart, S.PoolsFull, S.LiveHistory, S.DeletedHistory, S.FutureHistory, S.Accounted;
    match C.Original(env, w.calls, m, |w.calls|)
    case None => if C.Superseding(env, w.calls, m) { S.SupersedingHasOriginal(env, w.calls, m); }
    case Some(i) => S.HeldAt(w, i);
  }

  lemma NoneScanned(env: C.Env, v: seq<C.Call>, m: C.Message)
    ensures !C.Found(v[..0], m) && !C.Superseding(env, v[..0], m) && C.Original(env, v, m, 0) == None
  {
  }

  lemma OriginalStep(env: C.Env, v: seq<C.Call>, m: C.Message, i: nat)
    requires i < |v|
    ensures C.Original(env, v, m, i + 1) == if C.Duplicates(env, v[i], m) then Some(i) else C.Original(env, v, m, i)
    ensures C.Original(env, v, m, i).Some? ==> C.Original(env, v, m, i).value < i
  {
    hide C.Duplicates;
  }

  lemma FoundStep(v: seq<C.Call>, m: C.Message, i: nat)
    requires i < |v|
    ensures C.Found(v[..i + 1], m) == (C.Found(v[..i], m) || C.Matches(v[i], m))
  {
    hide C.Matches;
    var a, b := v[..i], v[..i + 1];
    assert b[i] == v[i];
    if C.Found(b, m) {
      var k :| 0 <= k < |b| && C.Matches(b[k], m);
      if k < i { assert a[k] == b[k]; }
    }
    if C.Found(a, m) {
      var k :| 0 <= k < |a| && C.Matches(a[k], m);
      assert b[k] == a[k];
    }
  }

  lemma SupersedingStep(env: C.Env, v: seq<C.Call>, m: C.Message, i: nat)
    requires i < |v|
    ensures C.Superseding(env, v[..i + 1], m) == (C.Superseding(env, v[..i], m) || C.Supersedes(env, v[i], m))
  {
    hide C.Supersedes;
    var a, b := v[..i], v[..i + 1];
    assert b[i] == v[i];
    if C.Superseding(env, b, m) {
      var k :| 0 <= k < |b| && C.Supersedes(env, b[k], m);
      if k < i { assert a[k] == b[k]; }
    }
    if C.Superseding(env, a, m) {
      var k :| 0 <= k < |a| && C.Supersedes(env, a[k], m);
      assert b[k] == a[k];
    }
  }

  lemma FirstCoveringInside(sources: seq<R.Source>, freq: real)
    ensures C.FirstCovering(sources, freq, 0).Some? ==> C.FirstCovering(sources, freq, 0).value < |sources|
  {
  }

  /** StartOn by what the source answers. */
  lemma StartOnCases(env: C.Env, sys: C.System, sources: seq<R.Source>, c: C.Call, s: nat)
    requires s < |sources|
    ensures var r, analog := C.StartOn(env, sys, sources, c, s), C.WantsAnalog(env, sys, c.talkgroup);
      var d := if analog then c.(isAnalog := true) else c;
      match C.Choose(R.PoolOf(sources, s, analog),
                     if c.talkgroup in sys.talkgroups then Some(C.EffectivePriority(sys, c.talkgroup)) else None)
      case Refused(why) => r == C.Start(sources, C.Monitored(d, why), false)
      case NoneFree => r == C.Start(sources, d, false)
      case Chosen(i) =>
        var p := R.Recorder(s, analog, i);
        R.Exists(sources, p) &&
        r == if env.starts then C.Start(R.Taken(sources, p), d.(recorder := Some(p), state := C.RECORDING), true)
             else C.Start(sources, d.(state := C.MONITORING), false)
  {
    hide C.EffectivePriority, R.SetFree, C.WantsAnalog;
  }

  lemma SetFreeAgain(a: seq<R.Source>, p: R.Recorder)
    requires R.Exists(a, p) && R.Free(a, p)
    ensures R.SetFree(a, p, true) == a
  {
    var pool := R.PoolOf(a, p.source, p.analog);
    assert pool[p.index := true] == pool;
  }

  function ChangedPool(pool: R.Pool, s: nat, analog: bool, p: R.Recorder, free: bool): R.Pool {
    if s == p.source && analog == p.analog && p.index < |pool| then pool[p.index := free] else pool
  }

  lemma SetFreeIs(a: seq<R.Source>, b: seq<R.Source>, p: R.Recorder, free: bool)
    requires |a| == |b| && R.Exists(a, p)
    requires forall i :: 0 <= i < |a| ==> b[i].minHz == a[i].minHz && b[i].maxHz == a[i].maxHz
    requires forall i :: 0 <= i < |a| ==> b[i].digital == ChangedPool(a[i].digital, i, false, p, free)
    requires forall i :: 0 <= i < |a| ==> b[i].analog == ChangedPool(a[i].analog, i, true, p, free)
    ensures b == R.SetFree(a, p, free)
  {
  }
}
