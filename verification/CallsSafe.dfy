/** What every run of the call manager keeps. */
module CallsSafe {
  import opened Common
  import opened Recorders
  import opened Calls

  // ---------------------------------------------------------------- the invariant

  /** The recording calls that hold a recorder of a pool. */
  predicate InPool(c: Call, s: nat, analog: bool) {
    c.state == RECORDING && c.recorder.Some? && c.recorder.value.source == s && c.recorder.value.analog == analog
  }

  function CountIn(calls: seq<Call>, s: nat, analog: bool): nat {
    if calls == [] then 0
    else (if InPool(calls[|calls| - 1], s, analog) then 1 else 0) + CountIn(calls[..|calls| - 1], s, analog)
  }

  function CountRecording(calls: seq<Call>): nat {
    if calls == [] then 0
    else (if calls[|calls| - 1].state == RECORDING then 1 else 0) + CountRecording(calls[..|calls| - 1])
  }

  /** A trunked call is monitoring or recording; a recording one holds a recorder
      that is not available. */
  ghost predicate Holds(sources: seq<Source>, c: Call) {
    && (c.state == MONITORING || c.state == RECORDING)
    && (c.state == RECORDING ==> HasRecorder(sources, c) && !Free(sources, c.recorder.value))
  }

  ghost predicate AllHold(w: World) {
    forall i :: 0 <= i < |w.calls| ==> Holds(w.sources, w.calls[i])
  }

  ghost predicate Share(c: Call, d: Call) {
    c.state == RECORDING && d.state == RECORDING && c.recorder == d.recorder
  }

  ghost predicate SameKey(c: Call, d: Call) {
    c.talkgroup == d.talkgroup && c.sysNum == d.sysNum && c.freq == d.freq && c.slot == d.slot && c.phase2 == d.phase2
  }

  ghost predicate Apart(c: Call, d: Call) { !Share(c, d) && !SameKey(c, d) && c.num != d.num }

  /** No two calls share a recorder, a key or a number. */
  ghost predicate AllApart(calls: seq<Call>) {
    forall i, j :: 0 <= i < j < |calls| ==> Apart(calls[i], calls[j])
  }

  ghost predicate PoolFull(w: World, s: nat, analog: bool)
    requires s < |w.sources|
  {
    Available(w.sources, s, analog) + CountIn(w.calls, s, analog) == |PoolOf(w.sources, s, analog)|
  }

  /** In every pool, the free recorders and the recording calls make up the pool. */
  ghost predicate PoolsFull(w: World) {
    forall s, analog :: 0 <= s < |w.sources| ==> PoolFull(w, s, analog)
  }

  /** The call was superseded while it recorded. */
  predicate Ended(c: Call) { c.state == MONITORING && c.monitoring == SUPERSEDED }

  /** How often a call on the list has been concluded: once if it was superseded
      and else not yet; and it ever recorded if it records or was superseded. */
  ghost predicate HistoryOf(w: World, c: Call) {
    && w.concluded[c.num] == (if Ended(c) then 1 else 0)
    && (c.num in w.recorded <==> Ended(c) || c.state == RECORDING)
    && c.num < w.counter && c.num !in w.deleted
  }

  ghost predicate LiveHistory(w: World) {
    forall i :: 0 <= i < |w.calls| ==> HistoryOf(w, w.calls[i])
  }

  /** A deleted call was concluded exactly once if it ever recorded, and else never. */
  ghost predicate ConcludedRight(w: World, n: nat) {
    w.concluded[n] == if n in w.recorded then 1 else 0
  }

  ghost predicate DeletedHistory(w: World) {
    forall n :: n in w.deleted ==> n < w.counter && ConcludedRight(w, n)
  }

  /** Calls not made yet have no history. */
  ghost predicate FutureHistory(w: World) {
    forall n :: n >= w.counter ==> n !in w.recorded && w.concluded[n] == 0
  }

  ghost predicate Listed(calls: seq<Call>, n: nat) {
    exists i :: 0 <= i < |calls| && calls[i].num == n
  }

  /** Every call ever made is on the list or was deleted. */
  ghost predicate Accounted(w: World) {
    forall n :: 0 <= n < w.counter ==> n in w.deleted || Listed(w.calls, n)
  }

  ghost predicate Inv(w: World) {
    && AllHold(w) && AllApart(w.calls) && PoolsFull(w)
    && LiveHistory(w) && DeletedHistory(w) && FutureHistory(w) && Accounted(w)
  }

  lemma {:induction false} AllFreeCount(pool: Pool)
    requires AllFree(pool)
    ensures CountFree(pool) == |pool|
    decreases |pool|
  {
    if pool != [] { AllFreeCount(pool[..|pool| - 1]); }
  }

  lemma InitialInv(w: World)
    requires Initial(w)
    ensures Inv(w)
  {
    forall s, analog | 0 <= s < |w.sources| ensures PoolFull(w, s, analog) {
      AllFreeCount(PoolOf(w.sources, s, analog));
    }
  }

  // ---------------------------------------------------------------- updates of calls in place

  /** Everything the invariant looks at is the same. */
  ghost predicate Alike(c: Call, d: Call) {
    c.(lastUpdate := 0, srcId := 0) == d.(lastUpdate := 0, srcId := 0)
  }

  ghost predicate AllAlike(a: seq<Call>, b: seq<Call>) {
    |a| == |b| && forall i :: 0 <= i < |a| ==> Alike(a[i], b[i])
  }

  lemma {:induction false} CountAlike(a: seq<Call>, b: seq<Call>, s: nat, analog: bool)
    requires AllAlike(a, b)
    ensures CountIn(a, s, analog) == CountIn(b, s, analog) && CountRecording(a) == CountRecording(b)
    decreases |a|
  {
    if a != [] { CountAlike(a[..|a| - 1], b[..|b| - 1], s, analog); }
  }

  lemma SameHistory(w: World, calls: seq<Call>)
    requires DeletedHistory(w) && FutureHistory(w)
    ensures DeletedHistory(w.(calls := calls)) && FutureHistory(w.(calls := calls))
  {
    assert forall n :: ConcludedRight(w, n) == ConcludedRight(w.(calls := calls), n);
  }

  lemma AlikeKeeps(w: World, calls: seq<Call>)
    requires Inv(w) && AllAlike(w.calls, calls)
    ensures Inv(w.(calls := calls))
  {
    hide CountIn, Available, PoolOf, Free, ConcludedRight, DeletedHistory, FutureHistory;
    var v := w.(calls := calls);
    assert DeletedHistory(v) && FutureHistory(v) by { SameHistory(w, calls); }
    forall s, analog | 0 <= s < |w.sources| ensures PoolFull(v, s, analog) {
      CountAlike(w.calls, calls, s, analog);
      assert PoolFull(w, s, analog);
    }
    forall i, j | 0 <= i < j < |calls| ensures Apart(calls[i], calls[j]) {
      assert Alike(w.calls[i], calls[i]) && Alike(w.calls[j], calls[j]) && Apart(w.calls[i], w.calls[j]);
    }
    forall i | 0 <= i < |calls| ensures Holds(v.sources, calls[i]) && HistoryOf(v, calls[i]) {
      assert Alike(w.calls[i], calls[i]) && Holds(w.sources, w.calls[i]) && HistoryOf(w, w.calls[i]);
    }
    forall n | 0 <= n < w.counter && n !in w.deleted ensures Listed(calls, n) {
      assert Listed(w.calls, n);
      var i :| 0 <= i < |w.calls| && w.calls[i].num == n;
      assert Alike(w.calls[i], calls[i]);
    }
  }

  lemma UpdateAlike(calls: seq<Call>, m: Message, now: int)
    ensures AllAlike(calls, UpdateAll(calls, m, now))
  {
  }

  // ---------------------------------------------------------------- a new call

  lemma CountAppend(calls: seq<Call>, c: Call, s: nat, analog: bool)
    ensures CountIn(calls + [c], s, analog) == CountIn(calls, s, analog) + (if InPool(c, s, analog) then 1 else 0)
    ensures CountRecording(calls + [c]) == CountRecording(calls) + (if c.state == RECORDING then 1 else 0)
  {
    assert (calls + [c])[..|calls|] == calls;
  }

  ghost predicate NewKey(calls: seq<Call>, c: Call) {
    forall i :: 0 <= i < |calls| ==> !SameKey(calls[i], c)
  }

  lemma AccountedAppend(w: World, c: Call, recorded: set<nat>, sources: seq<Source>)
    requires Accounted(w) && c.num == w.counter
    ensures Accounted(w.(calls := w.calls + [c], counter := w.counter + 1, recorded := recorded, sources := sources))
  {
    var calls := w.calls + [c];
    forall n | 0 <= n <= w.counter && n !in w.deleted ensures Listed(calls, n) {
      if n < w.counter {
        assert Listed(w.calls, n);
        var i :| 0 <= i < |w.calls| && w.calls[i].num == n;
        assert calls[i].num == n;
      } else {
        assert calls[|w.calls|].num == n;
      }
    }
  }

  lemma ApartAppend(w: World, c: Call)
    requires AllApart(w.calls) && LiveHistory(w) && c.num == w.counter && NewKey(w.calls, c)
    requires forall i :: 0 <= i < |w.calls| ==> !Share(w.calls[i], c)
    ensures AllApart(w.calls + [c])
  {
    var calls := w.calls + [c];
    forall i, j | 0 <= i < j < |calls| ensures Apart(calls[i], calls[j]) {
      if j < |w.calls| { assert Apart(w.calls[i], w.calls[j]); } else { assert HistoryOf(w, w.calls[i]); }
    }
  }

  lemma AppendMonitored(w: World, c: Call)
    requires Inv(w) && c.num == w.counter && c.state == MONITORING && c.monitoring != SUPERSEDED && NewKey(w.calls, c)
    ensures Inv(w.(calls := w.calls + [c], counter := w.counter + 1))
  {
    hide Available, CountIn, Accounted, AllApart, NewKey;
    var v := w.(calls := w.calls + [c], counter := w.counter + 1);
    AccountedAppend(w, c, w.recorded, w.sources);
    ApartAppend(w, c);
    forall s, analog | 0 <= s < |w.sources| ensures PoolFull(v, s, analog) {
      CountAppend(w.calls, c, s, analog);
      assert PoolFull(w, s, analog);
    }
    assert forall i :: 0 <= i < |w.calls| ==> HistoryOf(w, w.calls[i]);
  }

  lemma AppendRecording(w: World, c: Call, r: Recorder)
    requires Inv(w) && c.num == w.counter && c.state == RECORDING && c.recorder == Some(r) && NewKey(w.calls, c)
    requires Exists(w.sources, r) && Free(w.sources, r)
    ensures Inv(w.(sources := Taken(w.sources, r), calls := w.calls + [c], counter := w.counter + 1,
                   recorded := w.recorded + {c.num}))
  {
    hide Available, CountIn, Accounted, AllApart, NewKey, Free, Exists, SetFree;
    var v := w.(sources := Taken(w.sources, r), calls := w.calls + [c], counter := w.counter + 1,
                recorded := w.recorded + {c.num});
    AccountedAppend(w, c, v.recorded, v.sources);
    forall i | 0 <= i < |w.calls| ensures !Share(w.calls[i], c) && Holds(v.sources, w.calls[i]) {
      assert Holds(w.sources, w.calls[i]);
      if w.calls[i].state == RECORDING { ExistsAfter(w.sources, r, false, w.calls[i].recorder.value); }
    }
    ExistsAfter(w.sources, r, false, r);
    ApartAppend(w, c);
    forall s, analog | 0 <= s < |w.sources| ensures PoolFull(v, s, analog) {
      CountAppend(w.calls, c, s, analog);
      AvailableAfter(w.sources, r, false, s, analog);
      assert PoolFull(w, s, analog);
    }
    assert forall i :: 0 <= i < |w.calls| ==> HistoryOf(w, w.calls[i]);
  }

  // ---------------------------------------------------------------- a superseded call

  lemma {:induction false} CountReplace(calls: seq<Call>, i: nat, c: Call, s: nat, analog: bool)
    requires i < |calls|
    ensures CountIn(calls[i := c], s, analog) == CountIn(calls, s, analog)
      - (if InPool(calls[i], s, analog) then 1 else 0) + (if InPool(c, s, analog) then 1 else 0)
    ensures CountRecording(calls[i := c]) == CountRecording(calls)
      - (if calls[i].state == RECORDING then 1 else 0) + (if c.state == RECORDING then 1 else 0)
    decreases |calls|
  {
    var n := |calls| - 1;
    if i < n {
      CountReplace(calls[..n], i, c, s, analog);
      assert calls[i := c][..n] == calls[..n][i := c];
    } else {
      assert calls[i := c][..n] == calls[..n];
    }
  }

  /** A call that stops recording gives its recorder back, and no one else had it. */
  lemma RecorderBack(w: World, i: nat, j: nat)
    requires AllHold(w) && AllApart(w.calls) && i < |w.calls| && j < |w.calls| && i != j
    requires w.calls[i].state == RECORDING
    ensures Exists(w.sources, w.calls[i].recorder.value)
    ensures Holds(Stopped(w.sources, w.calls[i].recorder.value), w.calls[j])
  {
    hide Free, Exists, SetFree;
    var c, d := w.calls[i], w.calls[j];
    assert Holds(w.sources, c) && Holds(w.sources, d);
    if d.state == RECORDING {
      assert Apart(w.calls[if i < j then i else j], w.calls[if i < j then j else i]);
      ExistsAfter(w.sources, c.recorder.value, true, d.recorder.value);
    }
  }

  lemma SupersededKeeps(w: World, i: nat)
    requires Inv(w) && i < |w.calls| && w.calls[i].state == RECORDING
    ensures Inv(Superseded(w, i))
    ensures CountRecording(Superseded(w, i).calls) == CountRecording(w.calls) - 1
  {
    hide Available, CountIn, Free, Exists, SetFree;
    var c, r := Monitored(w.calls[i], SUPERSEDED), w.calls[i].recorder.value;
    var v := Superseded(w, i);
    assert Holds(w.sources, w.calls[i]) && HistoryOf(w, w.calls[i]);
    assert v.sources == Stopped(w.sources, r) && v.calls == w.calls[i := c];
    CountReplace(w.calls, i, c, 0, false);
    forall s, analog | 0 <= s < |w.sources| ensures PoolFull(v, s, analog) {
      CountReplace(w.calls, i, c, s, analog);
      AvailableAfter(w.sources, r, true, s, analog);
      assert PoolFull(w, s, analog);
    }
    forall j | 0 <= j < |v.calls| ensures Holds(v.sources, v.calls[j]) {
      if j != i { RecorderBack(w, i, j); }
    }
    SupersededHistory(w, i);
  }

  lemma SupersededHistory(w: World, i: nat)
    requires Inv(w) && i < |w.calls| && w.calls[i].state == RECORDING
    ensures var v := Superseded(w, i);
      AllApart(v.calls) && LiveHistory(v) && DeletedHistory(v) && FutureHistory(v) && Accounted(v)
  {
    hide PoolsFull, AllHold, ConcludedRight;
    var v := Superseded(w, i);
    HeldAt(w, i);
    forall n | 0 <= n < v.counter && n !in v.deleted ensures Listed(v.calls, n) {
      assert Listed(w.calls, n);
      var k :| 0 <= k < |w.calls| && w.calls[k].num == n;
      assert v.calls[k].num == n;
    }
    forall a, b | 0 <= a < b < |v.calls| ensures Apart(v.calls[a], v.calls[b]) {
      assert Apart(w.calls[a], w.calls[b]);
    }
    forall k | 0 <= k < |v.calls| ensures HistoryOf(v, v.calls[k]) {
      assert HistoryOf(w, w.calls[k]);
      if k != i { assert Apart(w.calls[if i < k then i else k], w.calls[if i < k then k else i]); }
    }
    forall n | n in v.deleted ensures n < v.counter && ConcludedRight(v, n) {
      assert ConcludedRight(w, n) && HistoryOf(w, w.calls[i]);
      ConcludedOther(w, v, w.calls[i].num, n);
    }
    assert HistoryOf(w, w.calls[i]);
  }

  lemma ConcludedOther(w: World, v: World, m: nat, n: nat)
    requires ConcludedRight(w, n) && n != m && v.recorded == w.recorded
    requires v.concluded == w.concluded + multiset{m} || v.concluded == w.concluded
    ensures ConcludedRight(v, n)
  {
  }

  // ---------------------------------------------------------------- a call taken off the list

  lemma {:induction false} CountRemove(calls: seq<Call>, i: nat, s: nat, analog: bool)
    requires i < |calls|
    ensures CountIn(calls[..i] + calls[i + 1..], s, analog)
      == CountIn(calls, s, analog) - (if InPool(calls[i], s, analog) then 1 else 0)
    decreases |calls|
  {
    var n := |calls| - 1;
    var rest := calls[..i] + calls[i + 1..];
    if i < n {
      CountRemove(calls[..n], i, s, analog);
      assert rest[..n - 1] == calls[..n][..i] + calls[..n][i + 1..];
    } else {
      assert rest == calls[..n];
    }
  }

  /** The place of an element of the shorter list in the longer one. */
  function OldPlace(i: nat, j: nat): nat { if j < i then j else j + 1 }

  lemma RemoveKeeps(w: World, i: nat)
    requires Inv(w) && i < |w.calls|
    ensures Inv(Remove(w, i))
  {
    hide Available, CountIn, Free, Exists, SetFree, HistoryOf, ConcludedRight;
    var c, v := w.calls[i], Remove(w, i);
    assert Holds(w.sources, c);
    forall s, analog | 0 <= s < |v.sources| ensures PoolFull(v, s, analog) {
      CountRemove(w.calls, i, s, analog);
      assert PoolFull(w, s, analog);
      if c.state == RECORDING { AvailableAfter(w.sources, c.recorder.value, true, s, analog); }
    }
    forall j | 0 <= j < |v.calls| ensures Holds(v.sources, v.calls[j]) {
      var k := OldPlace(i, j);
      assert v.calls[j] == w.calls[k] && Holds(w.sources, w.calls[k]);
      if c.state == RECORDING { RecorderBack(w, i, k); }
    }
    RemoveHistory(w, i);
  }

  lemma RemoveHistory(w: World, i: nat)
    requires Inv(w) && i < |w.calls|
    ensures var v := Remove(w, i);
      AllApart(v.calls) && LiveHistory(v) && DeletedHistory(v) && FutureHistory(v) && Accounted(v)
  {
    hide PoolsFull, AllHold, ConcludedRight, HistoryOf;
    var c, v := w.calls[i], Remove(w, i);
    HeldAt(w, i);
    forall a, b | 0 <= a < b < |v.calls| ensures Apart(v.calls[a], v.calls[b]) {
      assert Apart(w.calls[OldPlace(i, a)], w.calls[OldPlace(i, b)]);
    }
    forall n | 0 <= n < v.counter && n !in v.deleted ensures Listed(v.calls, n) {
      assert Listed(w.calls, n);
      var k :| 0 <= k < |w.calls| && w.calls[k].num == n;
      assert k != i;
      assert v.calls[if k < i then k else k - 1].num == n;
    }
    forall j | 0 <= j < |v.calls| ensures HistoryOf(v, v.calls[j]) {
      var k := OldPlace(i, j);
      assert v.calls[j] == w.calls[k] && HistoryOf(w, w.calls[k]);
      assert Apart(w.calls[if i < k then i else k], w.calls[if i < k then k else i]);
      HistoryOther(w, v, c.num, w.calls[k]);
    }
    RemovedDeleted(w, i);
  }

  lemma HeldAt(w: World, i: nat)
    requires AllHold(w) && i < |w.calls|
    ensures Holds(w.sources, w.calls[i])
  {
  }

  lemma HistoryOther(w: World, v: World, m: nat, d: Call)
    requires HistoryOf(w, d) && d.num != m && v.recorded == w.recorded && v.counter == w.counter
    requires v.deleted == w.deleted + {m}
    requires v.concluded == w.concluded + multiset{m} || v.concluded == w.concluded
    ensures HistoryOf(v, d)
  {
  }

  lemma RemovedDeleted(w: World, i: nat)
    requires Inv(w) && i < |w.calls|
    ensures DeletedHistory(Remove(w, i)) && FutureHistory(Remove(w, i))
  {
    hide PoolsFull, AllApart, Accounted;
    var c, v := w.calls[i], Remove(w, i);
    assert Holds(w.sources, c) && HistoryOf(w, c);
    forall n | n in v.deleted ensures n < v.counter && ConcludedRight(v, n) {
      if n != c.num { assert ConcludedRight(w, n); }
    }
  }

  // ---------------------------------------------------------------- every event

  /** What a start does: it takes one free recorder for the call, or nothing changes. */
  ghost predicate StartShape(sources: seq<Source>, c: Call, r: Start) {
    && SameKey(r.call, c) && r.call.num == c.num
    && if r.ok then r.call.state == RECORDING && r.call.recorder.Some?
                    && Exists(sources, r.call.recorder.value) && Free(sources, r.call.recorder.value)
                    && r.sources == Taken(sources, r.call.recorder.value)
       else r.call.state == MONITORING && r.call.monitoring != SUPERSEDED && r.sources == sources
  }

  lemma StartShaped(env: Env, sys: System, sources: seq<Source>, c: Call)
    requires c.state == MONITORING && c.monitoring == UNSPECIFIED
    ensures StartShape(sources, c, StartRecorder(env, sys, sources, c))
  {
    hide Exists, Free, SetFree, FirstFree, EffectivePriority, EncryptedMode;
    match FirstCovering(sources, c.freq, 0)
    case None =>
    case Some(s) => StartOnShaped(env, sys, sources, c, s);
  }

  lemma StartOnShaped(env: Env, sys: System, sources: seq<Source>, c: Call, s: nat)
    requires c.state == MONITORING && c.monitoring == UNSPECIFIED && s < |sources|
    ensures StartShape(sources, c, StartOn(env, sys, sources, c, s))
  {
    hide SetFree, FirstFree, EffectivePriority, WantsAnalog;
  }

  lemma NewKeyAfterUpdate(w: World, env: Env, m: Message, c: Call)
    requires !Found(w.calls, m) && SameKey(c, NewCall(w.counter, m, env.now))
    ensures NewKey(UpdateAll(w.calls, m, env.now), c)
  {
    var calls := UpdateAll(w.calls, m, env.now);
    forall i | 0 <= i < |calls| ensures !SameKey(calls[i], c) {
      assert !Matches(w.calls[i], m);
    }
  }

  /** The grant's new call, put on the list. */
  function Entered(w: World, env: Env, m: Message): World {
    var v := w.(calls := UpdateAll(w.calls, m, env.now));
    var start := Superseding(env, w.calls, m) || Original(env, w.calls, m, |w.calls|) == None;
    var (u, d, ok) := Begun(v.(counter := w.counter + 1), env, NewCall(w.counter, m, env.now), start);
    u.(calls := u.calls + [d])
  }

  lemma EnteredKeeps(w: World, env: Env, m: Message)
    requires Inv(w) && !Found(w.calls, m)
    ensures Inv(Entered(w, env, m))
  {
    hide Inv, Superseding, Original, StartRecorder, Found, NewKey, SetFree;
    var v := w.(calls := UpdateAll(w.calls, m, env.now));
    UpdateAlike(w.calls, m, env.now);
    AlikeKeeps(w, v.calls);
    var c := NewCall(w.counter, m, env.now);
    var r := StartRecorder(env, env.systems(c.sysNum), v.sources, c);
    StartShaped(env, env.systems(c.sysNum), v.sources, c);
    var start := Superseding(env, w.calls, m) || Original(env, w.calls, m, |w.calls|) == None;
    if start && r.ok {
      NewKeyAfterUpdate(w, env, m, r.call);
      AppendRecording(v, r.call, r.call.recorder.value);
    } else {
      var d := if start then r.call else Monitored(c, DUPLICATE);
      NewKeyAfterUpdate(w, env, m, d);
      AppendMonitored(v, d);
    }
  }

  /** Taking over from the original call before the new one is put on the list is
      the same as doing it after. */
  lemma SupersededThenEntered(u: World, d: Call, i: nat)
    requires i < |u.calls|
    ensures Superseded(u.(calls := u.calls + [d]), i) == Superseded(u, i).(calls := Superseded(u, i).calls + [d])
  {
    var c := Monitored(u.calls[i], SUPERSEDED);
    assert (u.calls + [d])[i := c] == u.calls[i := c] + [d];
  }

  lemma GrantKeeps(w: World, env: Env, m: Message)
    requires Inv(w)
    ensures Inv(HandleGrant(w, env, m))
  {
    hide Inv, Found, Superseding, StartRecorder, Duplicates, Superseded;
    var v := w.(calls := UpdateAll(w.calls, m, env.now));
    UpdateAlike(w.calls, m, env.now);
    AlikeKeeps(w, v.calls);
    if !Found(w.calls, m) {
      EnteredKeeps(w, env, m);
      var original := Original(env, w.calls, m, |w.calls|);
      var start := Superseding(env, w.calls, m) || original == None;
      var (u, d, ok) := Begun(v.(counter := w.counter + 1), env, NewCall(w.counter, m, env.now), start);
      if Superseding(env, w.calls, m) && ok && original.Some? {
        OriginalRecords(env, w.calls, m, |w.calls|);
        SupersededThenEntered(u, d, original.value);
        SupersededKeeps(Entered(w, env, m), original.value);
      }
    }
  }

  lemma SupersedingHasOriginal(env: Env, calls: seq<Call>, m: Message)
    requires Superseding(env, calls, m)
    ensures Original(env, calls, m, |calls|).Some?
  {
    var i :| 0 <= i < |calls| && Supersedes(env, calls[i], m);
    assert Duplicates(env, calls[i], m);
  }

  lemma OriginalRecords(env: Env, calls: seq<Call>, m: Message, n: nat)
    requires n <= |calls| && Original(env, calls, m, n).Some?
    ensures var i := Original(env, calls, m, n).value;
      i < n && calls[i].state == RECORDING && UpdateAll(calls, m, env.now)[i].state == RECORDING
  {
  }

  lemma {:induction false} ManageKeeps(w: World, t: Timing, i: nat)
    requires Inv(w) && i <= |w.calls|
    ensures Inv(ManageFrom(w, t, i))
    decreases |w.calls| - i
  {
    hide Inv, TimedOut;
    if i < |w.calls| {
      if TimedOut(t, w.calls[i]) {
        RemoveKeeps(w, i);
        ManageKeeps(Remove(w, i), t, i);
      } else {
        ManageKeeps(w, t, i + 1);
      }
    }
  }

  lemma {:induction false} ShutDownKeeps(w: World)
    requires Inv(w)
    ensures Inv(ShutDown(w)) && ShutDown(w).calls == []
    decreases |w.calls|
  {
    hide Inv;
    if w.calls != [] {
      RemoveKeeps(w, 0);
      ShutDownKeeps(Remove(w, 0));
    }
  }

  lemma StepKeeps(w: World, e: Event)
    requires Inv(w)
    ensures Inv(Step(w, e))
  {
    hide Inv, HandleGrant, ManageFrom, ShutDown;
    match e
    case Grant(env, m) => GrantKeeps(w, env, m);
    case Update(env, m) =>
      UpdateAlike(w.calls, m, env.now);
      AlikeKeeps(w, UpdateAll(w.calls, m, env.now));
    case Manage(t) => ManageKeeps(w, t, 0);
    case Exit => ShutDownKeeps(w);
  }

  lemma {:induction false} RunKeeps(w: World, events: seq<Event>)
    requires Initial(w)
    ensures Inv(Run(w, events))
    decreases |events|
  {
    hide Inv, Step;
    if events == [] {
      InitialInv(w);
    } else {
      RunKeeps(w, events[..|events| - 1]);
      StepKeeps(Run(w, events[..|events| - 1]), events[|events| - 1]);
    }
  }
}
