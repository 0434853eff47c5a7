/** The trunked-call manager (trunk-recorder/main.cc and call_impl.cc) as a
    transition system: grants, updates, management passes and shutdown. */
module Calls {
  import opened Common
  import opened Recorders

  // ---------------------------------------------------------------- data

  datatype State = MONITORING | RECORDING | INACTIVE | ACTIVE | IDLE | STOPPED | AVAILABLE | IGNORE

  datatype MonitoringState =
    UNSPECIFIED | UNKNOWN_TG | IGNORED_TG | NO_SOURCE | NO_RECORDER | ENCRYPTED | DUPLICATE | SUPERSEDED

  datatype Talkgroup = Talkgroup(priority: int, mode: string, preferredNAC: nat)

  datatype System = System(multiSite: bool, wacn: nat, rfss: nat, siteId: nat, nac: nat,
                           siteName: string, siteNumber: nat, recordUnknown: bool, smartnet: bool,
                           talkgroups: map<int, Talkgroup>, patches: seq<seq<int>>)

  datatype Message = Message(talkgroup: int, sysNum: int, freq: real, slot: int, phase2: bool,
                             source: int, encrypted: bool)

  datatype Call = Call(num: nat, talkgroup: int, sysNum: int, freq: real, slot: int, phase2: bool,
                       encrypted: bool, state: State, monitoring: MonitoringState,
                       recorder: Option<Recorder>, isAnalog: bool, lastUpdate: int, srcId: int)

  /** What the manager looks at besides its own state when an event arrives: the
      systems as they are then, the clock, and whether a recorder that is asked
      to start does. */
  datatype Env = Env(systems: int -> System, defaultAnalog: bool, now: int, starts: bool)

  /** The state, and the history of it: which calls ever recorded, which were
      deleted, and how often each was concluded. */
  datatype World = World(sources: seq<Source>, calls: seq<Call>, counter: nat,
                         recorded: set<nat>, concluded: multiset<nat>, deleted: set<nat>)

  // ---------------------------------------------------------------- starting a recorder

  /** The talkgroups of every patch that a talkgroup is part of. */
  function Patched(patches: seq<seq<int>>, tg: int): (r: seq<int>)
    ensures forall t :: t in r <==> exists p :: p in patches && tg in p && t in p
  {
    if patches == [] then []
    else
      assert forall p :: p in patches <==> p == patches[0] || p in patches[1..];
      (if tg in patches[0] then patches[0] else []) + Patched(patches[1..], tg)
  }

  function MinPriority(sys: System, ids: seq<int>, priority: int): int {
    if ids == [] then priority
    else MinPriority(sys, ids[1..],
      if ids[0] in sys.talkgroups && sys.talkgroups[ids[0]].priority < priority
      then sys.talkgroups[ids[0]].priority else priority)
  }

  function EffectivePriority(sys: System, tg: int): int
    requires tg in sys.talkgroups
  {
    MinPriority(sys, Patched(sys.patches, tg), sys.talkgroups[tg].priority)
  }

  predicate Covers(src: Source, freq: real) { src.minHz <= freq <= src.maxHz }

  /** The first source that covers a frequency. */
  function FirstCovering(sources: seq<Source>, freq: real, from: nat): (s: Option<nat>)
    requires from <= |sources|
    ensures match s
      case Some(k) => from <= k < |sources| && Covers(sources[k], freq)
                      && forall j :: from <= j < k ==> !Covers(sources[j], freq)
      case None => forall j :: from <= j < |sources| ==> !Covers(sources[j], freq)
    decreases |sources| - from
  {
    if from == |sources| then None
    else if Covers(sources[from], freq) then Some(from)
    else FirstCovering(sources, freq, from + 1)
  }

  predicate EncryptedMode(mode: string) { mode == "E" || mode == "TE" || mode == "DE" }

  /** Whether the call, on its source, wants an analog recorder. */
  predicate WantsAnalog(env: Env, sys: System, tg: int) {
    if tg in sys.talkgroups then sys.talkgroups[tg].mode == "A" else env.defaultAnalog && sys.smartnet
  }

  /** What a source answers: a recorder of its pool by its place there, or none. */
  datatype Choice = Refused(why: MonitoringState) | NoneFree | Chosen(index: nat)

  /** get_digital_recorder and get_analog_recorder, on their pool. */
  function Choose(pool: Pool, priority: Option<int>): (o: Choice)
    ensures o.Chosen? ==> (o.index < |pool| && pool[o.index])
  {
    if priority == Some(-1) then Refused(IGNORED_TG)
    else if priority.Some? && priority.value > CountFree(pool) then Refused(NO_RECORDER)
    else
      match FirstFree(pool, 0)
      case None => NoneFree
      case Some(i) => Chosen(i)
  }

  datatype Start = Start(sources: seq<Source>, call: Call, ok: bool)

  function Monitored(c: Call, why: MonitoringState): Call {
    c.(state := MONITORING, monitoring := why)
  }

  function StartOn(env: Env, sys: System, sources: seq<Source>, c: Call, s: nat): Start
    requires s < |sources|
  {
    var known := c.talkgroup in sys.talkgroups;
    var analog := WantsAnalog(env, sys, c.talkgroup);
    var d := if analog then c.(isAnalog := true) else c;
    match Choose(PoolOf(sources, s, analog), if known then Some(EffectivePriority(sys, c.talkgroup)) else None)
    case Refused(why) => Start(sources, Monitored(d, why), false)
    case NoneFree => Start(sources, d, false)
    case Chosen(i) =>
      var r := Recorder(s, analog, i);
      if env.starts then Start(Taken(sources, r), d.(recorder := Some(r), state := RECORDING), true)
      else Start(sources, d.(state := MONITORING), false)
  }

  function StartRecorder(env: Env, sys: System, sources: seq<Source>, c: Call): Start {
    var known := c.talkgroup in sys.talkgroups;
    if !known && !sys.recordUnknown then Start(sources, Monitored(c, UNKNOWN_TG), false)
    else if c.encrypted || (known && EncryptedMode(sys.talkgroups[c.talkgroup].mode)) then
      Start(sources, Monitored(c, ENCRYPTED), false)
    else
      match FirstCovering(sources, c.freq, 0)
      case None => Start(sources, Monitored(c, NO_SOURCE), false)
      case Some(s) => StartOn(env, sys, sources, c, s)
  }

  // ---------------------------------------------------------------- concluding

  /** conclude_call acts on a call that records, or that was superseded. */
  predicate Concludes(c: Call) {
    c.state == RECORDING || (c.state == MONITORING && c.monitoring == SUPERSEDED)
  }

  /** The recorder a call has, if the call has one. */
  predicate HasRecorder(sources: seq<Source>, c: Call) {
    c.recorder.Some? && Exists(sources, c.recorder.value)
  }

  /** conclude_call; its recorder is there in every state the manager reaches. */
  function ConcludeCall(w: World, c: Call): World {
    if Concludes(c) && HasRecorder(w.sources, c) then
      w.(sources := Stopped(w.sources, c.recorder.value), concluded := w.concluded + multiset{c.num})
    else w
  }

  function Erase(w: World, i: nat): World
    requires i < |w.calls|
  {
    w.(calls := w.calls[..i] + w.calls[i + 1..], deleted := w.deleted + {w.calls[i].num})
  }

  // ---------------------------------------------------------------- grants

  predicate Matches(c: Call, m: Message) {
    c.talkgroup == m.talkgroup && c.sysNum == m.sysNum && c.freq == m.freq && c.slot == m.slot && c.phase2 == m.phase2
  }

  /** Call_impl::update, of a call whose frequency and talkgroup are the message's. */
  function Updated(c: Call, m: Message, now: int): Call {
    c.(lastUpdate := now, srcId := if m.source == -1 then c.srcId else m.source)
  }

  function UpdateAll(calls: seq<Call>, m: Message, now: int): (r: seq<Call>)
    ensures |r| == |calls|
    ensures forall i :: 0 <= i < |calls| ==>
      r[i] == if Matches(calls[i], m) then Updated(calls[i], m, now) else calls[i]
  {
    seq(|calls|, i requires 0 <= i < |calls| => if Matches(calls[i], m) then Updated(calls[i], m, now) else calls[i])
  }

  function Site(sys: System): nat { sys.rfss * 10000 + sys.siteId }

  function Preferred(sys: System, tg: int): nat {
    if tg in sys.talkgroups then sys.talkgroups[tg].preferredNAC else 0
  }

  /** Whether two multi-site systems take each other's calls for duplicates by
      their site numbers, or by a name that was given to them. */
  predicate SameBySite(a: System, b: System) { Site(a) != Site(b) && a.siteName == "" }
  predicate SameByName(a: System, b: System) { a.siteName != "" && a.siteName == b.siteName }

  predicate MultiSite(env: Env, c: Call, m: Message) {
    var a, b := env.systems(c.sysNum), env.systems(m.sysNum);
    c.talkgroup == m.talkgroup && c.sysNum != m.sysNum && a.multiSite && b.multiSite && a.wacn == b.wacn
  }

  predicate Duplicates(env: Env, c: Call, m: Message) {
    var a, b := env.systems(c.sysNum), env.systems(m.sysNum);
    MultiSite(env, c, m) && (SameBySite(a, b) || SameByName(a, b)) && c.state == RECORDING
  }

  /** Whether the site of the message is preferred to the site of the call. */
  predicate Supersedes(env: Env, c: Call, m: Message) {
    var a, b := env.systems(c.sysNum), env.systems(m.sysNum);
    var p, q := Preferred(a, m.talkgroup), Preferred(b, m.talkgroup);
    Duplicates(env, c, m) &&
    if SameBySite(a, b) then (p != a.nac && q == b.nac) || (p != Site(a) && q == Site(b))
    else a.siteNumber != 0 && b.siteNumber != 0 && p != a.siteNumber && q == b.siteNumber
  }

  /** The last of the first n calls that the grant duplicates. */
  function Original(env: Env, calls: seq<Call>, m: Message, n: nat): (i: Option<nat>)
    requires n <= |calls|
    ensures match i
      case Some(k) => k < n && Duplicates(env, calls[k], m)
      case None => forall j :: 0 <= j < n ==> !Duplicates(env, calls[j], m)
  {
    if n == 0 then None
    else if Duplicates(env, calls[n - 1], m) then Some(n - 1)
    else Original(env, calls, m, n - 1)
  }

  predicate Superseding(env: Env, calls: seq<Call>, m: Message) {
    exists i :: 0 <= i < |calls| && Supersedes(env, calls[i], m)
  }

  predicate Found(calls: seq<Call>, m: Message) {
    exists i :: 0 <= i < |calls| && Matches(calls[i], m)
  }

  function NewCall(num: nat, m: Message, now: int): Call {
    Call(num, m.talkgroup, m.sysNum, m.freq, m.slot, m.phase2, m.encrypted, MONITORING, UNSPECIFIED,
         None, false, now, m.source)
  }

  /** The new call of a grant, and what becomes of the recorders. */
  function Begun(w: World, env: Env, c: Call, start: bool): (World, Call, bool) {
    if start then
      var r := StartRecorder(env, env.systems(c.sysNum), w.sources, c);
      (w.(sources := r.sources, recorded := if r.ok then w.recorded + {c.num} else w.recorded), r.call, r.ok)
    else (w, Monitored(c, DUPLICATE), false)
  }

  /** The call that a superseding grant takes over from. */
  function Superseded(w: World, i: nat): World
    requires i < |w.calls|
  {
    var c := Monitored(w.calls[i], SUPERSEDED);
    ConcludeCall(w.(calls := w.calls[i := c]), c)
  }

  function HandleGrant(w: World, env: Env, m: Message): World {
    var v := w.(calls := UpdateAll(w.calls, m, env.now));
    if Found(w.calls, m) then v
    else
      var original := Original(env, w.calls, m, |w.calls|);
      var superseding := Superseding(env, w.calls, m);
      var (u, d, ok) := Begun(v.(counter := w.counter + 1), env, NewCall(w.counter, m, env.now),
                              superseding || original == None);
      var t := if superseding && ok && original.Some? then Superseded(u, original.value) else u;
      t.(calls := t.calls + [d])
  }

  function HandleUpdate(w: World, env: Env, m: Message): World {
    w.(calls := UpdateAll(w.calls, m, env.now))
  }

  // ---------------------------------------------------------------- management and shutdown

  /** What a management pass goes by: the clock, the timeout, and how long each
      recorder has written nothing. */
  datatype Timing = Timing(now: int, timeout: int, sinceWrite: Recorder -> int)

  predicate TimedOut(t: Timing, c: Call) {
    if c.state == MONITORING then t.now - c.lastUpdate > t.timeout
    else c.state == RECORDING && c.recorder.Some? && t.sinceWrite(c.recorder.value) > t.timeout
         && t.now - c.lastUpdate > t.timeout
  }

  /** One call is taken off the list; concluded first if it records. */
  function Remove(w: World, i: nat): (v: World)
    requires i < |w.calls|
    ensures v.calls == w.calls[..i] + w.calls[i + 1..]
  {
    Erase(if w.calls[i].state != MONITORING then ConcludeCall(w, w.calls[i]) else w, i)
  }

  /** manage_calls from the i-th call on. */
  function ManageFrom(w: World, t: Timing, i: nat): World
    requires i <= |w.calls|
    decreases |w.calls| - i
  {
    if i == |w.calls| then w
    else if TimedOut(t, w.calls[i]) then ManageFrom(Remove(w, i), t, i)
    else ManageFrom(w, t, i + 1)
  }

  function ShutDown(w: World): World
    decreases |w.calls|
  {
    if w.calls == [] then w else ShutDown(Remove(w, 0))
  }

  // ---------------------------------------------------------------- runs

  datatype Event = Grant(env: Env, m: Message) | Update(env: Env, m: Message) | Manage(t: Timing) | Exit

  function Step(w: World, e: Event): World {
    match e
    case Grant(env, m) => HandleGrant(w, env, m)
    case Update(env, m) => HandleUpdate(w, env, m)
    case Manage(t) => ManageFrom(w, t, 0)
    case Exit => ShutDown(w)
  }

  function Run(w: World, events: seq<Event>): World {
    if events == [] then w else Step(Run(w, events[..|events| - 1]), events[|events| - 1])
  }

  predicate AllFree(pool: Pool) { forall i :: 0 <= i < |pool| ==> pool[i] }

  /** The manager before anything happened. */
  predicate Initial(w: World) {
    && w.calls == [] && w.counter == 0 && w.recorded == {} && w.concluded == multiset{} && w.deleted == {}
    && forall s :: 0 <= s < |w.sources| ==> AllFree(w.sources[s].digital) && AllFree(w.sources[s].analog)
  }
}
