/**
 The TAP health cache of `beampipe-adapters`: a bounded map from revision keys to
 reference-counted entries, where callers with the same key share one probe.

 Callers of `get_or_probe` interleave. Each event below is one atomic action of one
 caller: taking the map lock, looking at one slot of the map while it is held, taking
 an entry lock, checking freshness, finishing a probe, dropping the last reference,
 or being cancelled at an await point. Other callers may drop their references while
 one caller walks over the map, so the reference counts seen along the way differ.
 */
module TapHealthCache {
  import opened Options
  import opened Runs

  const MAX_TAP_HEALTH_CACHE_ENTRIES: nat := 256

  // Keys and report bodies are only compared and copied.
  type Key = nat
  type Caller = nat
  type EntryId = nat
  type Report = nat

  /** One finished probe. `prober` and `key` record who probed, and for which key. */
  datatype Probe = Probe(prober: Caller, key: Key, checkedAt: nat, report: Report)

  /** A shared entry; `key` records the key it was created for. */
  datatype Entry = Entry(key: Key, strong: int, lock: Option<Caller>, cached: Option<Probe>)

  datatype Slot = Slot(lastAccessed: nat, entry: EntryId)

  /** What a caller returns, with the time of its freshness check or of its own probe. */
  datatype Outcome = Outcome(probe: Probe, servedAt: nat)

  datatype Phase =
    | WaitMap                                          // waiting for the map lock
    | Sweep(todo: set<Key>)                            // inside `retain`
    | Scan(unseen: set<Key>, idle: Option<Key>)          // looking for the oldest idle slot
    | WaitEntry(waitsFor: EntryId)                     // waiting for the entry lock
    | Locked(locked: EntryId)                          // entry lock taken
    | Probing(probed: EntryId)                         // probing with the entry lock held
    | Leaving(left: EntryId, leaves: Outcome)         // entry lock released, reference still held
    | Done(outcome: Outcome)
    | Cancelled

  datatype Call = Call(key: Key, ttl: nat, phase: Phase)

  /** `lost` collects the keys whose slot was evicted while some caller still used its entry. */
  datatype State = State(
    now: nat,
    mapLock: Option<Caller>,
    slots: map<Key, Slot>,
    heap: seq<Entry>,
    calls: map<Caller, Call>,
    log: set<Probe>,
    lost: set<Key>)

  const Init := State(0, None, map[], [], map[], {}, {})

  datatype Event =
    | Arrive(c: Caller, key: Key, ttl: nat)
    | TakeMap(c: Caller)
    | SweepSlot(c: Caller, k: Key)
    | Lookup(c: Caller)
    | ScanSlot(c: Caller, k: Key)
    | Replace(c: Caller, victim: Key)
    | TakeEntry(c: Caller)
    | CheckFresh(c: Caller)
    | FinishProbe(c: Caller, report: Report)
    | DropReference(c: Caller)
    | Cancel(c: Caller)
    | Tick(elapsed: nat)

  // ---------------------------------------------------------------- observations

  /** The entry a caller holds a reference to. */
  function Held(p: Phase): Option<EntryId> {
    match p
    case WaitEntry(e) => Some(e)
    case Locked(e) => Some(e)
    case Probing(e) => Some(e)
    case Leaving(e, _) => Some(e)
    case _ => None
  }

  /** The entry whose lock a caller holds. */
  function Guarded(p: Phase): Option<EntryId> {
    match p
    case Locked(e) => Some(e)
    case Probing(e) => Some(e)
    case _ => None
  }

  predicate InMap(p: Phase) {
    p.Sweep? || p.Scan?
  }

  function Holders(calls: map<Caller, Call>, e: EntryId): set<Caller> {
    set c | c in calls && Held(calls[c].phase) == Some(e)
  }

  predicate Mapped(s: State, e: EntryId)
    requires e < |s.heap|
  {
    s.heap[e].key in s.slots && s.slots[s.heap[e].key].entry == e
  }

  // ---------------------------------------------------------------- invariant

  /** What it takes for a report to be served to a caller. */
  predicate Honest(s: State, c: Caller, out: Outcome)
    requires c in s.calls
  {
    && out.probe in s.log
    && out.probe.key == s.calls[c].key
    && out.probe.checkedAt <= out.servedAt <= s.now
    && (out.probe.prober == c || out.servedAt - out.probe.checkedAt < s.calls[c].ttl)
  }

  /** A caller holds an entry made for its key: the map's own, unless that was evicted in use. */
  predicate HolderOk(s: State, c: Caller, e: EntryId)
    requires c in s.calls
  {
    var k := s.calls[c].key;
    && e < |s.heap|
    && s.heap[e].key == k
    && (k !in s.lost ==> k in s.slots && s.slots[k].entry == e)
  }

  /** A slot found idle by the scan stays idle until it is replaced. */
  predicate ScanOk(s: State, c: Caller, unseen: set<Key>, idle: Option<Key>)
    requires c in s.calls
  {
    && unseen <= s.slots.Keys
    && s.calls[c].key !in s.slots
    && s.slots.Keys != {}
    && (idle.Some? ==>
          && idle.value in s.slots
          && s.slots[idle.value].entry < |s.heap|
          && s.heap[s.slots[idle.value].entry].strong == 1)
  }

  ghost predicate CallOk(s: State, c: Caller)
    requires c in s.calls
  {
    match s.calls[c].phase
    case WaitMap => true
    case Sweep(todo) => s.mapLock == Some(c) && todo <= s.slots.Keys
    case Scan(unseen, idle) => s.mapLock == Some(c) && ScanOk(s, c, unseen, idle)
    case WaitEntry(e) => HolderOk(s, c, e)
    case Locked(e) => HolderOk(s, c, e) && s.heap[e].lock == Some(c)
    case Probing(e) => HolderOk(s, c, e) && s.heap[e].lock == Some(c)
    case Leaving(e, out) => HolderOk(s, c, e) && Honest(s, c, out)
    case Done(out) => Honest(s, c, out)
    case Cancelled => true
  }

  /** The strong count is the map's own reference plus one for each holder; locks have owners. */
  ghost predicate EntryOk(s: State, e: EntryId)
    requires e < |s.heap|
  {
    var entry := s.heap[e];
    && entry.strong == (if Mapped(s, e) then 1 else 0) + |Holders(s.calls, e)|
    && (entry.lock.Some? ==>
          entry.lock.value in s.calls && Guarded(s.calls[entry.lock.value].phase) == Some(e))
    && (entry.cached.Some? ==> entry.cached.value in s.log && entry.cached.value.key == entry.key)
  }

  ghost predicate SlotOk(s: State, k: Key)
    requires k in s.slots
  {
    && s.slots[k].entry < |s.heap|
    && s.heap[s.slots[k].entry].key == k
    && s.slots[k].lastAccessed <= s.now
  }

  ghost predicate ProbeOk(s: State, p: Probe) {
    p.checkedAt <= s.now && p.prober in s.calls && s.calls[p.prober].key == p.key
  }

  ghost predicate MapOk(s: State) {
    && |s.slots| <= MAX_TAP_HEALTH_CACHE_ENTRIES
    && (s.mapLock.Some? ==> s.mapLock.value in s.calls && InMap(s.calls[s.mapLock.value].phase))
  }

  ghost predicate Inv(s: State) {
    && MapOk(s)
    && (forall c <- s.calls :: CallOk(s, c))
    && (forall e | 0 <= e < |s.heap| :: EntryOk(s, e))
    && (forall k <- s.slots :: SlotOk(s, k))
    && (forall p <- s.log :: ProbeOk(s, p))
  }

  // ---------------------------------------------------------------- steps

  predicate Fresh(s: State, e: EntryId, ttl: nat)
    requires e < |s.heap|
  {
    s.heap[e].cached.Some? && s.now - s.heap[e].cached.value.checkedAt < ttl
  }

  ghost predicate Enabled(s: State, ev: Event)
    requires Inv(s)
  {
    match ev
    case Arrive(c, _, _) => c !in s.calls
    case TakeMap(c) => c in s.calls && s.calls[c].phase.WaitMap? && s.mapLock.None?
    case SweepSlot(c, k) => c in s.calls && s.calls[c].phase.Sweep? && k in s.calls[c].phase.todo
    case Lookup(c) => c in s.calls && s.calls[c].phase == Sweep({})
    case ScanSlot(c, k) => c in s.calls && s.calls[c].phase.Scan? && k in s.calls[c].phase.unseen
    case Replace(c, victim) =>
      && c in s.calls && s.calls[c].phase.Scan? && s.calls[c].phase.unseen == {}
      && victim in s.slots
      && (if s.calls[c].phase.idle.Some? then victim == s.calls[c].phase.idle.value
          else forall k <- s.slots :: s.slots[victim].lastAccessed <= s.slots[k].lastAccessed)
    case TakeEntry(c) =>
      c in s.calls && s.calls[c].phase.WaitEntry?
      && (assert CallOk(s, c); s.heap[s.calls[c].phase.waitsFor].lock.None?)
    case CheckFresh(c) => c in s.calls && s.calls[c].phase.Locked?
    case FinishProbe(c, _) => c in s.calls && s.calls[c].phase.Probing?
    case DropReference(c) => c in s.calls && s.calls[c].phase.Leaving?
    case Cancel(c) => c in s.calls
      && (s.calls[c].phase.WaitMap? || s.calls[c].phase.WaitEntry? || s.calls[c].phase.Probing?)
    case Tick(_) => true
  }

  function WithPhase(calls: map<Caller, Call>, c: Caller, p: Phase): map<Caller, Call>
    requires c in calls
  {
    calls[c := calls[c].(phase := p)]
  }

  /** Take one more reference to `e`. */
  function Retained(heap: seq<Entry>, e: EntryId): seq<Entry>
    requires e < |heap|
  {
    heap[e := heap[e].(strong := heap[e].strong + 1)]
  }

  /** Drop one reference to `e`. */
  function Dropped(heap: seq<Entry>, e: EntryId): seq<Entry>
    requires e < |heap|
  {
    heap[e := heap[e].(strong := heap[e].strong - 1)]
  }

  function Unlocked(heap: seq<Entry>, e: EntryId): seq<Entry>
    requires e < |heap|
  {
    heap[e := heap[e].(lock := None)]
  }

  /** Insert a slot for the caller's key with a new entry, keep one reference, leave the map. */
  function Inserted(s: State, c: Caller): State
    requires c in s.calls
  {
    var k := s.calls[c].key;
    s.(mapLock := None,
       slots := s.slots[k := Slot(s.now, |s.heap|)],
       heap := s.heap + [Entry(k, 2, None, None)],
       calls := WithPhase(s.calls, c, WaitEntry(|s.heap|)))
  }

  /** Remove a slot from the map, which drops the map's reference to its entry. */
  function Removed(s: State, k: Key): State
    requires k in s.slots && s.slots[k].entry < |s.heap|
  {
    s.(slots := s.slots - {k}, heap := Dropped(s.heap, s.slots[k].entry))
  }


  /** A removal that records whether the slot was still in use. */
  function Evicted(s: State, k: Key): State
    requires k in s.slots && s.slots[k].entry < |s.heap|
  {
    var inUse := s.heap[s.slots[k].entry].strong > 1;
    Removed(s, k).(lost := if inUse then s.lost + {k} else s.lost)
  }

  // The events that look at or change the map, one function each.

  ghost function SweepStep(s: State, c: Caller, k: Key): State
    requires Inv(s) && Enabled(s, SweepSlot(c, k))
  {
    assert CallOk(s, c) && SlotOk(s, k);
    var slot := s.slots[k];
    var s1 := s.(calls := WithPhase(s.calls, c, Sweep(s.calls[c].phase.todo - {k})));
    if s.now - slot.lastAccessed < s.calls[c].ttl || s.heap[slot.entry].strong > 1 then s1
    else Removed(s1, k)
  }

  ghost function LookupStep(s: State, c: Caller): State
    requires Inv(s) && Enabled(s, Lookup(c))
  {
    var k := s.calls[c].key;
    if k in s.slots then
      assert SlotOk(s, k);
      var e := s.slots[k].entry;
      s.(mapLock := None,
         slots := s.slots[k := Slot(s.now, e)],
         heap := Retained(s.heap, e),
         calls := WithPhase(s.calls, c, WaitEntry(e)))
    else if |s.slots| >= MAX_TAP_HEALTH_CACHE_ENTRIES then
      s.(calls := WithPhase(s.calls, c, Scan(s.slots.Keys, None)))
    else
      Inserted(s, c)
  }

  ghost function ScanStep(s: State, c: Caller, k: Key): State
    requires Inv(s) && Enabled(s, ScanSlot(c, k))
  {
    assert CallOk(s, c) && SlotOk(s, k);
    var Scan(unseen, idle) := s.calls[c].phase;
    var older := idle.None? || s.slots[k].lastAccessed < s.slots[idle.value].lastAccessed;
    var idle' := if s.heap[s.slots[k].entry].strong == 1 && older then Some(k) else idle;
    s.(calls := WithPhase(s.calls, c, Scan(unseen - {k}, idle')))
  }

  ghost function ReplaceStep(s: State, c: Caller, victim: Key): State
    requires Inv(s) && Enabled(s, Replace(c, victim))
  {
    assert SlotOk(s, victim);
    Inserted(Evicted(s, victim), c)
  }

  // The events on one entry.

  ghost function TakeEntryStep(s: State, c: Caller): State
    requires Inv(s) && Enabled(s, TakeEntry(c))
  {
    assert CallOk(s, c);
    var e := s.calls[c].phase.waitsFor;
    s.(heap := s.heap[e := s.heap[e].(lock := Some(c))], calls := WithPhase(s.calls, c, Locked(e)))
  }

  ghost function CheckFreshStep(s: State, c: Caller): State
    requires Inv(s) && Enabled(s, CheckFresh(c))
  {
    assert CallOk(s, c);
    var e := s.calls[c].phase.locked;
    if Fresh(s, e, s.calls[c].ttl) then
      s.(heap := Unlocked(s.heap, e),
         calls := WithPhase(s.calls, c, Leaving(e, Outcome(s.heap[e].cached.value, s.now))))
    else
      s.(calls := WithPhase(s.calls, c, Probing(e)))
  }

  ghost function FinishProbeStep(s: State, c: Caller, report: Report): State
    requires Inv(s) && Enabled(s, FinishProbe(c, report))
  {
    assert CallOk(s, c);
    var e := s.calls[c].phase.probed;
    var probe := Probe(c, s.calls[c].key, s.now, report);
    s.(heap := s.heap[e := s.heap[e].(lock := None, cached := Some(probe))],
       calls := WithPhase(s.calls, c, Leaving(e, Outcome(probe, s.now))),
       log := s.log + {probe})
  }

  ghost function DropReferenceStep(s: State, c: Caller): State
    requires Inv(s) && Enabled(s, DropReference(c))
  {
    assert CallOk(s, c);
    var Leaving(e, out) := s.calls[c].phase;
    s.(heap := Dropped(s.heap, e), calls := WithPhase(s.calls, c, Done(out)))
  }

  ghost function CancelStep(s: State, c: Caller): State
    requires Inv(s) && Enabled(s, Cancel(c))
  {
    assert CallOk(s, c);
    var heap := match s.calls[c].phase
                case WaitEntry(e) => Dropped(s.heap, e)
                case Probing(e) => Dropped(Unlocked(s.heap, e), e)
                case _ => s.heap;
    s.(heap := heap, calls := WithPhase(s.calls, c, Cancelled))
  }

  ghost function Apply(s: State, ev: Event): State
    requires Inv(s) && Enabled(s, ev)
  {
    match ev
    case Arrive(c, key, ttl) => s.(calls := s.calls[c := Call(key, ttl, WaitMap)])
    case TakeMap(c) => s.(mapLock := Some(c), calls := WithPhase(s.calls, c, Sweep(s.slots.Keys)))
    case SweepSlot(c, k) => SweepStep(s, c, k)
    case Lookup(c) => LookupStep(s, c)
    case ScanSlot(c, k) => ScanStep(s, c, k)
    case Replace(c, victim) => ReplaceStep(s, c, victim)
    case TakeEntry(c) => TakeEntryStep(s, c)
    case CheckFresh(c) => CheckFreshStep(s, c)
    case FinishProbe(c, report) => FinishProbeStep(s, c, report)
    case DropReference(c) => DropReferenceStep(s, c)
    case Cancel(c) => CancelStep(s, c)
    case Tick(elapsed) => s.(now := s.now + elapsed)
  }

  // ---------------------------------------------------------------- preservation

  /** Changing one caller's phase changes the number of holders of an entry by that caller only. */
  lemma HoldersAfter(calls: map<Caller, Call>, c: Caller, call: Call, e: EntryId)
    ensures |Holders(calls[c := call], e)| ==
        |Holders(calls, e)|
        - (if c in calls && Held(calls[c].phase) == Some(e) then 1 else 0)
        + (if Held(call.phase) == Some(e) then 1 else 0)
  {
    var before, after := Holders(calls, e), Holders(calls[c := call], e);
    var others := before - {c};
    assert after == if Held(call.phase) == Some(e) then others + {c} else others;
    assert before == if c in calls && Held(calls[c].phase) == Some(e) then others + {c} else others;
  }

  lemma HolderCounted(s: State, c: Caller)
    requires Inv(s) && c in s.calls && Held(s.calls[c].phase).Some?
    ensures var e := Held(s.calls[c].phase).value;
      e < |s.heap| && s.heap[e].strong >= (if Mapped(s, e) then 2 else 1)
  {
    assert CallOk(s, c);
    var e := Held(s.calls[c].phase).value;
    assert EntryOk(s, e);
    assert c in Holders(s.calls, e);
  }

  /** A caller inside the map may change its phase to any other that suits the map. */
  lemma PhaseKeepsInv(s: State, c: Caller, p: Phase)
    requires Inv(s) && c in s.calls && InMap(s.calls[c].phase) && InMap(p)
    requires p.Sweep? ==> p.todo <= s.slots.Keys
    requires p.Scan? ==> ScanOk(s, c, p.unseen, p.idle)
    ensures Inv(s.(calls := WithPhase(s.calls, c, p)))
  {
    var s' := s.(calls := WithPhase(s.calls, c, p));
    assert CallOk(s, c);
    forall e | 0 <= e < |s'.heap| ensures EntryOk(s', e) {
      HoldersAfter(s.calls, c, s'.calls[c], e);
      assert EntryOk(s, e);
    }
    forall d <- s'.calls ensures CallOk(s', d) {
      if d != c { assert CallOk(s, d); }
    }
  }

  /** Removing a slot keeps the invariant: its key is recorded as lost if the slot was in use. */
  lemma EvictedKeepsInv(s: State, c: Caller, k: Key)
    requires Inv(s) && c in s.calls && k in s.slots && s.slots[k].entry < |s.heap|
    requires s.calls[c].phase.Sweep? && k !in s.calls[c].phase.todo
    ensures Inv(Evicted(s, k))
  {
    var s' := Evicted(s, k);
    var gone := s.slots[k].entry;
    assert CallOk(s, c) && SlotOk(s, k);
    assert |s'.slots| <= |s.slots| by { assert s.slots.Keys == s'.slots.Keys + {k}; }
    forall e | 0 <= e < |s'.heap| ensures EntryOk(s', e) {
      assert EntryOk(s, e);
    }
    forall j <- s'.slots ensures SlotOk(s', j) {
      assert SlotOk(s, j);
    }
    forall d <- s'.calls ensures CallOk(s', d) {
      EvictedKeepsCall(s, c, k, d);
    }
  }

  lemma EvictedKeepsCall(s: State, c: Caller, k: Key, d: Caller)
    requires Inv(s) && c in s.calls && k in s.slots && s.slots[k].entry < |s.heap|
    requires s.calls[c].phase.Sweep? && k !in s.calls[c].phase.todo
    requires d in s.calls
    ensures CallOk(Evicted(s, k), d)
  {
    assert CallOk(s, c) && CallOk(s, d) && SlotOk(s, k);
    if Held(s.calls[d].phase).Some? {
      HolderCounted(s, d);
    }
  }

  lemma InsertedKeepsInv(s: State, c: Caller)
    requires Inv(s) && c in s.calls && InMap(s.calls[c].phase)
    requires s.calls[c].key !in s.slots && |s.slots| < MAX_TAP_HEALTH_CACHE_ENTRIES
    ensures Inv(Inserted(s, c))
  {
    var s' := Inserted(s, c);
    var k := s.calls[c].key;
    assert |s'.slots| == |s.slots| + 1 by { assert s'.slots.Keys == s.slots.Keys + {k}; }
    forall e | 0 <= e < |s'.heap| ensures EntryOk(s', e) {
      InsertedKeepsEntry(s, c, e);
    }
    forall j <- s'.slots ensures SlotOk(s', j) {
      if j != k { assert SlotOk(s, j); }
    }
    forall d <- s'.calls ensures CallOk(s', d) {
      assert CallOk(s, d) && CallOk(s, c);
    }
  }

  lemma InsertedKeepsEntry(s: State, c: Caller, e: EntryId)
    requires Inv(s) && c in s.calls && InMap(s.calls[c].phase) && s.calls[c].key !in s.slots
    requires e <= |s.heap|
    ensures EntryOk(Inserted(s, c), e)
  {
    HoldersAfter(s.calls, c, Inserted(s, c).calls[c], e);
    if e < |s.heap| {
      assert EntryOk(s, e);
    } else {
      forall d <- s.calls ensures Held(s.calls[d].phase) != Some(e) {
        assert CallOk(s, d);
      }
      assert Holders(s.calls, e) == {};
    }
  }

  lemma SweepKeepsInv(s: State, c: Caller, k: Key)
    requires Inv(s) && Enabled(s, SweepSlot(c, k))
    ensures Inv(SweepStep(s, c, k))
  {
    var p := Sweep(s.calls[c].phase.todo - {k});
    PhaseKeepsInv(s, c, p);
    EvictedKeepsInv(s.(calls := WithPhase(s.calls, c, p)), c, k);
  }

  /** Finding the slot: the caller becomes one more holder of the map's own entry. */
  lemma HitKeepsInv(s: State, c: Caller)
    requires Inv(s) && Enabled(s, Lookup(c)) && s.calls[c].key in s.slots
    ensures Inv(LookupStep(s, c))
  {
    var s' := LookupStep(s, c);
    var k := s.calls[c].key;
    assert CallOk(s, c) && SlotOk(s, k);
    assert s'.slots.Keys == s.slots.Keys;
    forall e | 0 <= e < |s'.heap| ensures EntryOk(s', e) {
      HoldersAfter(s.calls, c, s'.calls[c], e);
      assert EntryOk(s, e);
    }
    forall j <- s'.slots ensures SlotOk(s', j) {
      assert SlotOk(s, j);
    }
    forall d <- s'.calls ensures CallOk(s', d) {
      assert CallOk(s, d);
    }
  }

  lemma LookupKeepsInv(s: State, c: Caller)
    requires Inv(s) && Enabled(s, Lookup(c))
    ensures Inv(LookupStep(s, c))
  {
    if s.calls[c].key in s.slots {
      HitKeepsInv(s, c);
    } else if |s.slots| >= MAX_TAP_HEALTH_CACHE_ENTRIES {
      PhaseKeepsInv(s, c, Scan(s.slots.Keys, None));
    } else {
      InsertedKeepsInv(s, c);
    }
  }

  lemma ScanKeepsInv(s: State, c: Caller, k: Key)
    requires Inv(s) && Enabled(s, ScanSlot(c, k))
    ensures Inv(ScanStep(s, c, k))
  {
    assert CallOk(s, c) && SlotOk(s, k);
    PhaseKeepsInv(s, c, ScanStep(s, c, k).calls[c].phase);
  }

  /** The phase a caller leaves does not matter to what an insertion produces. */
  lemma ReplaceByParts(s: State, c: Caller, victim: Key)
    requires Inv(s) && Enabled(s, Replace(c, victim))
    ensures ReplaceStep(s, c, victim)
         == Inserted(Evicted(s.(calls := WithPhase(s.calls, c, Sweep({}))), victim), c)
  {
    var parts := Inserted(Evicted(s.(calls := WithPhase(s.calls, c, Sweep({}))), victim), c);
    assert parts.calls == ReplaceStep(s, c, victim).calls;
  }

  lemma ReplaceKeepsInv(s: State, c: Caller, victim: Key)
    requires Inv(s) && Enabled(s, Replace(c, victim))
    ensures Inv(ReplaceStep(s, c, victim))
  {
    assert CallOk(s, c);
    var s1 := s.(calls := WithPhase(s.calls, c, Sweep({})));
    assert Inv(s1) by { PhaseKeepsInv(s, c, Sweep({})); }
    var s2 := Evicted(s1, victim);
    assert Inv(s2) by { EvictedKeepsInv(s1, c, victim); }
    assert |s2.slots| < |s.slots| by { assert s.slots.Keys == s2.slots.Keys + {victim}; }
    InsertedKeepsInv(s2, c);
    ReplaceByParts(s, c, victim);
  }

  lemma TakeEntryKeepsInv(s: State, c: Caller)
    requires Inv(s) && Enabled(s, TakeEntry(c))
    ensures Inv(TakeEntryStep(s, c))
  {
    var s' := TakeEntryStep(s, c);
    forall e | 0 <= e < |s'.heap| ensures EntryOk(s', e) {
      HoldersAfter(s.calls, c, s'.calls[c], e);
      assert e < |s.heap| ==> EntryOk(s, e);
    }
    forall d <- s'.calls ensures CallOk(s', d) {
      if d in s.calls && Held(s.calls[d].phase).Some? { HolderCounted(s, d); }
    }
  }

  /** Serving the cached report. */
  lemma FreshKeepsInv(s: State, c: Caller)
    requires Inv(s) && Enabled(s, CheckFresh(c))
    requires CallOk(s, c) && Fresh(s, s.calls[c].phase.locked, s.calls[c].ttl)
    ensures Inv(CheckFreshStep(s, c))
  {
    var s' := CheckFreshStep(s, c);
    assert EntryOk(s, s.calls[c].phase.locked);
    assert ProbeOk(s, s.heap[s.calls[c].phase.locked].cached.value);
    forall e | 0 <= e < |s'.heap| ensures EntryOk(s', e) {
      HoldersAfter(s.calls, c, s'.calls[c], e);
      assert EntryOk(s, e);
    }
    forall d <- s'.calls ensures CallOk(s', d) {
      assert CallOk(s, d);
    }
  }

  /** Starting a probe with the entry lock held. */
  lemma StaleKeepsInv(s: State, c: Caller)
    requires Inv(s) && Enabled(s, CheckFresh(c))
    requires CallOk(s, c) && !Fresh(s, s.calls[c].phase.locked, s.calls[c].ttl)
    ensures Inv(CheckFreshStep(s, c))
  {
    var s' := CheckFreshStep(s, c);
    forall e | 0 <= e < |s'.heap| ensures EntryOk(s', e) {
      HoldersAfter(s.calls, c, s'.calls[c], e);
      assert EntryOk(s, e);
    }
    forall d <- s'.calls ensures CallOk(s', d) {
      assert CallOk(s, d);
    }
  }

  lemma CheckFreshKeepsInv(s: State, c: Caller)
    requires Inv(s) && Enabled(s, CheckFresh(c))
    ensures Inv(CheckFreshStep(s, c))
  {
    assert CallOk(s, c);
    if Fresh(s, s.calls[c].phase.locked, s.calls[c].ttl) {
      FreshKeepsInv(s, c);
    } else {
      StaleKeepsInv(s, c);
    }
  }

  lemma FinishProbeKeepsInv(s: State, c: Caller, report: Report)
    requires Inv(s) && Enabled(s, FinishProbe(c, report))
    ensures Inv(FinishProbeStep(s, c, report))
  {
    var s' := FinishProbeStep(s, c, report);
    forall e | 0 <= e < |s'.heap| ensures EntryOk(s', e) {
      HoldersAfter(s.calls, c, s'.calls[c], e);
      assert e < |s.heap| ==> EntryOk(s, e);
    }
    forall d <- s'.calls ensures CallOk(s', d) {
      if d in s.calls && Held(s.calls[d].phase).Some? { HolderCounted(s, d); }
    }
  }

  lemma DropReferenceKeepsInv(s: State, c: Caller)
    requires Inv(s) && Enabled(s, DropReference(c))
    ensures Inv(DropReferenceStep(s, c))
  {
    var s' := DropReferenceStep(s, c);
    forall e | 0 <= e < |s'.heap| ensures EntryOk(s', e) {
      HoldersAfter(s.calls, c, s'.calls[c], e);
      assert e < |s.heap| ==> EntryOk(s, e);
    }
    forall d <- s'.calls ensures CallOk(s', d) {
      if d in s.calls && Held(s.calls[d].phase).Some? { HolderCounted(s, d); }
      if d in s.calls && s.calls[d].phase.Scan? && s.calls[d].phase.idle.Some? {
        assert CallOk(s, d) && SlotOk(s, s.calls[d].phase.idle.value);
        if Held(s.calls[c].phase).Some? { HolderCounted(s, c); }
      }
    }
  }

  /** A caller with no reference may be cancelled, or may leave, without any effect. */
  lemma CancelWaitingKeepsInv(s: State, c: Caller)
    requires Inv(s) && c in s.calls && s.calls[c].phase.WaitMap?
    ensures Inv(CancelStep(s, c))
  {
    var s' := CancelStep(s, c);
    forall e | 0 <= e < |s'.heap| ensures EntryOk(s', e) {
      HoldersAfter(s.calls, c, s'.calls[c], e);
      assert EntryOk(s, e);
    }
    forall d <- s'.calls ensures CallOk(s', d) {
      assert CallOk(s, d);
    }
  }

  /** A caller cancelled while it waits for an entry drops its reference. */
  lemma CancelHolderKeepsInv(s: State, c: Caller)
    requires Inv(s) && c in s.calls && s.calls[c].phase.WaitEntry?
    ensures Inv(CancelStep(s, c))
  {
    CancelledKeepsOthers(s, c);
    var s' := CancelStep(s, c);
    HolderCounted(s, c);
    forall e | 0 <= e < |s'.heap| ensures EntryOk(s', e) {
      HoldersAfter(s.calls, c, s'.calls[c], e);
      assert EntryOk(s, e);
    }
  }

  /** A caller cancelled while it probes drops its reference and the entry lock. */
  lemma CancelProberKeepsInv(s: State, c: Caller)
    requires Inv(s) && c in s.calls && s.calls[c].phase.Probing?
    ensures Inv(CancelStep(s, c))
  {
    CancelledKeepsOthers(s, c);
    var s' := CancelStep(s, c);
    HolderCounted(s, c);
    forall e | 0 <= e < |s'.heap| ensures EntryOk(s', e) {
      HoldersAfter(s.calls, c, s'.calls[c], e);
      assert EntryOk(s, e);
    }
  }

  /** Callers and slots after the cancellation of a holder. */
  lemma CancelledKeepsOthers(s: State, c: Caller)
    requires Inv(s) && c in s.calls && (s.calls[c].phase.WaitEntry? || s.calls[c].phase.Probing?)
    ensures forall d <- CancelStep(s, c).calls :: CallOk(CancelStep(s, c), d)
    ensures forall k <- CancelStep(s, c).slots :: SlotOk(CancelStep(s, c), k)
  {
    var s' := CancelStep(s, c);
    HolderCounted(s, c);
    forall d <- s'.calls ensures CallOk(s', d) {
      assert CallOk(s, d);
      if s.calls[d].phase.Scan? && s.calls[d].phase.idle.Some? {
        assert SlotOk(s, s.calls[d].phase.idle.value);
      }
    }
    forall k <- s'.slots ensures SlotOk(s', k) {
      assert SlotOk(s, k);
    }
  }

  lemma CancelKeepsInv(s: State, c: Caller)
    requires Inv(s) && Enabled(s, Cancel(c))
    ensures Inv(CancelStep(s, c))
  {
    match s.calls[c].phase
    case WaitMap => CancelWaitingKeepsInv(s, c);
    case WaitEntry(_) => CancelHolderKeepsInv(s, c);
    case Probing(_) => CancelProberKeepsInv(s, c);
  }

  lemma ArriveKeepsInv(s: State, c: Caller, key: Key, ttl: nat)
    requires Inv(s) && Enabled(s, Arrive(c, key, ttl))
    ensures Inv(Apply(s, Arrive(c, key, ttl)))
  {
    var s' := Apply(s, Arrive(c, key, ttl));
    forall e | 0 <= e < |s'.heap| ensures EntryOk(s', e) {
      HoldersAfter(s.calls, c, s'.calls[c], e);
      assert EntryOk(s, e);
    }
    forall d <- s'.calls ensures CallOk(s', d) {
      if d != c { assert CallOk(s, d); }
    }
  }

  lemma TakeMapKeepsInv(s: State, c: Caller)
    requires Inv(s) && Enabled(s, TakeMap(c))
    ensures Inv(Apply(s, TakeMap(c)))
  {
    var s' := Apply(s, TakeMap(c));
    forall e | 0 <= e < |s'.heap| ensures EntryOk(s', e) {
      HoldersAfter(s.calls, c, s'.calls[c], e);
      assert EntryOk(s, e);
    }
    forall d <- s'.calls ensures CallOk(s', d) {
      if d != c { assert CallOk(s, d); }
    }
  }

  lemma KeepsInv(s: State, ev: Event)
    requires Inv(s) && Enabled(s, ev)
    ensures Inv(Apply(s, ev))
  {
    match ev
    case Arrive(c, key, ttl) => ArriveKeepsInv(s, c, key, ttl);
    case TakeMap(c) => TakeMapKeepsInv(s, c);
    case SweepSlot(c, k) => SweepKeepsInv(s, c, k);
    case Lookup(c) => LookupKeepsInv(s, c);
    case ScanSlot(c, k) => ScanKeepsInv(s, c, k);
    case Replace(c, victim) => ReplaceKeepsInv(s, c, victim);
    case TakeEntry(c) => TakeEntryKeepsInv(s, c);
    case CheckFresh(c) => CheckFreshKeepsInv(s, c);
    case FinishProbe(c, report) => FinishProbeKeepsInv(s, c, report);
    case DropReference(c) => DropReferenceKeepsInv(s, c);
    case Cancel(c) => CancelKeepsInv(s, c);
    case Tick(_) =>
      var s' := Apply(s, ev);
      forall e | 0 <= e < |s'.heap| ensures EntryOk(s', e) {
        assert EntryOk(s, e);
      }
  }

  // ---------------------------------------------------------------- runs

  /** One event, where it is enabled. */
  ghost function Next(s: State, ev: Event): Option<State> {
    if Inv(s) && Enabled(s, ev) then Some(Apply(s, ev)) else None
  }

  lemma NextIs(s: State, ev: Event)
    requires Inv(s) && Enabled(s, ev)
    ensures Inv(Apply(s, ev)) && Next(s, ev) == Some(Apply(s, ev))
    ensures Exec(Next, s, [ev]) == Some(Apply(s, ev))
  {
    KeepsInv(s, ev);
    ExecOne(Next, s, ev);
  }

  lemma ExecKeepsInv(s: State, evs: seq<Event>)
    requires Inv(s) && Exec(Next, s, evs).Some?
    ensures Inv(Exec(Next, s, evs).value)
  {
    forall t, ev | Inv(t) && Next(t, ev).Some? ensures Inv(Next(t, ev).value) {
      KeepsInv(t, ev);
    }
    ExecKeeps(Next, t => Inv(t), s, evs);
  }

  /**
   A run of the cache from empty, under any interleaving of its callers. Every state of
   every run satisfies the invariant, so the invariant never keeps an event from happening.
   */
  ghost function Run(evs: seq<Event>): (r: Option<State>)
    ensures r.Some? ==> Inv(r.value)
  {
    var r := Exec(Next, Init, evs);
    if r.Some? then ExecKeepsInv(Init, evs); r else None
  }

  // ---------------------------------------------------------------- single flight

  /** A caller is active on `k` with an entry: it waits for its lock, or holds it. */
  predicate ActiveOn(s: State, c: Caller, k: Key, e: EntryId) {
    c in s.calls && s.calls[c].key == k && Held(s.calls[c].phase) == Some(e)
  }

  /** Every caller active on `k` holds the entry the map has for `k`. */
  ghost predicate Attached(s: State, k: Key) {
    forall c <- s.calls :: s.calls[c].key == k && Held(s.calls[c].phase).Some? ==>
      k in s.slots && Held(s.calls[c].phase) == Some(s.slots[k].entry)
  }

  ghost predicate AttachedAlong(s: State, evs: seq<Event>, k: Key)
    requires Inv(s) && Exec(Next, s, evs).Some?
    decreases |evs|
  {
    && Attached(s, k)
    && (evs != [] ==> (KeepsInv(s, evs[0]); AttachedAlong(Apply(s, evs[0]), evs[1..], k)))
  }

  /** Every insertion into a full map finds an idle slot to replace. */
  ghost predicate FindsIdleAlong(s: State, evs: seq<Event>)
    requires Inv(s) && Exec(Next, s, evs).Some?
    decreases |evs|
  {
    evs != [] ==>
      && (evs[0].Replace? ==> s.calls[evs[0].c].phase.idle.Some?)
      && (KeepsInv(s, evs[0]); FindsIdleAlong(Apply(s, evs[0]), evs[1..]))
  }

  predicate BothProbing(s: State, c: Caller, d: Caller) {
    c in s.calls && s.calls[c].phase.Probing? && d in s.calls && s.calls[d].phase.Probing?
  }

  /** While `k` has not been evicted in use, two active callers share one entry and one probe. */
  lemma SharedUntilLost(evs: seq<Event>, k: Key, c: Caller, d: Caller, e: EntryId, f: EntryId)
    requires Run(evs).Some? && k !in Run(evs).value.lost
    requires ActiveOn(Run(evs).value, c, k, e) && ActiveOn(Run(evs).value, d, k, f)
    ensures e == f && (BothProbing(Run(evs).value, c, d) ==> c == d)
  {
    var s := Run(evs).value;
    assert CallOk(s, c) && CallOk(s, d);
  }

  lemma NotLostIsAttached(s: State, k: Key)
    requires Inv(s) && k !in s.lost
    ensures Attached(s, k)
  {
    forall c <- s.calls | s.calls[c].key == k && Held(s.calls[c].phase).Some?
      ensures k in s.slots && Held(s.calls[c].phase) == Some(s.slots[k].entry)
    {
      assert CallOk(s, c);
    }
  }

  /** Evicting a slot in use takes the entry away from some active caller. */
  lemma LosingDetaches(s: State, c: Caller, k: Key)
    requires Inv(s) && Enabled(s, Replace(c, k)) && k !in s.lost
    requires k in ReplaceStep(s, c, k).lost
    ensures !Attached(ReplaceStep(s, c, k), k)
  {
    var s' := ReplaceStep(s, c, k);
    var e := s.slots[k].entry;
    assert CallOk(s, c) && SlotOk(s, k) && EntryOk(s, e);
    assert Holders(s.calls, e) != {};
    var d :| d in Holders(s.calls, e);
    assert CallOk(s, d) && d in s'.calls && s'.calls[d] == s.calls[d];
  }

  /** One event loses `k` exactly when it takes the entry of `k` away from an active caller. */
  lemma LosesExactlyWhenDetached(s: State, ev: Event, k: Key)
    requires Inv(s) && Enabled(s, ev) && k !in s.lost
    ensures k !in Apply(s, ev).lost <==> Attached(Apply(s, ev), k)
  {
    KeepsInv(s, ev);
    if k !in Apply(s, ev).lost {
      NotLostIsAttached(Apply(s, ev), k);
    } else {
      assert ev.Replace? && ev.victim == k;
      LosingDetaches(s, ev.c, k);
    }
  }

  /** Exactly when single flight holds: callers stay attached along a run iff `k` is never lost. */
  lemma {:induction false} AttachedIffNeverLost(s: State, evs: seq<Event>, k: Key)
    requires Inv(s) && Exec(Next, s, evs).Some? && k !in s.lost
    ensures AttachedAlong(s, evs, k) <==> k !in Exec(Next, s, evs).value.lost
    decreases |evs|
  {
    NotLostIsAttached(s, k);
    if evs != [] {
      KeepsInv(s, evs[0]);
      var s' := Apply(s, evs[0]);
      LosesExactlyWhenDetached(s, evs[0], k);
      if k in s'.lost {
        LostStaysLost(s', evs[1..], k);
      } else {
        AttachedIffNeverLost(s', evs[1..], k);
      }
    }
  }

  lemma {:induction false} LostStaysLost(s: State, evs: seq<Event>, k: Key)
    requires Inv(s) && Exec(Next, s, evs).Some? && k in s.lost
    ensures k in Exec(Next, s, evs).value.lost
    decreases |evs|
  {
    if evs != [] {
      KeepsInv(s, evs[0]);
      LostStaysLost(Apply(s, evs[0]), evs[1..], k);
    }
  }

  /** Eviction prefers idle slots, and while it finds one nothing is lost. */
  lemma {:induction false} FindingIdleLosesNothing(s: State, evs: seq<Event>)
    requires Inv(s) && Exec(Next, s, evs).Some? && FindsIdleAlong(s, evs)
    ensures Exec(Next, s, evs).value.lost == s.lost
    decreases |evs|
  {
    if evs != [] {
      var ev := evs[0];
      KeepsInv(s, ev);
      if ev.Replace? { assert CallOk(s, ev.c); }
      FindingIdleLosesNothing(Apply(s, ev), evs[1..]);
    }
  }

  /**
   Single flight: in every run in which each insertion into a full map finds an idle slot, all
   callers active on one key hold the same entry, and at most one of them probes.
   */
  lemma SingleFlight(evs: seq<Event>, k: Key, c: Caller, d: Caller, e: EntryId, f: EntryId)
    requires Exec(Next, Init, evs).Some? && FindsIdleAlong(Init, evs)
    requires ActiveOn(Run(evs).value, c, k, e) && ActiveOn(Run(evs).value, d, k, f)
    ensures e == f && (BothProbing(Run(evs).value, c, d) ==> c == d)
  {
    FindingIdleLosesNothing(Init, evs);
    SharedUntilLost(evs, k, c, d, e, f);
  }

  // ---------------------------------------------------------------- two entries in use for one key

  /** Two callers are active on `k` with different entries. */
  ghost predicate Doubled(s: State, k: Key) {
    exists c, e, d, f :: ActiveOn(s, c, k, e) && ActiveOn(s, d, k, f) && e != f
  }

  /** Some caller is active on `k` with an entry that the map does not have for it. */
  ghost predicate Detached(s: State, k: Key) {
    exists d, e :: ActiveOn(s, d, k, e) && !(k in s.slots && s.slots[k].entry == e)
  }

  /** A caller for `k` gets its entry from the map, found or inserted. */
  ghost predicate Obtains(s: State, ev: Event, k: Key)
    requires Inv(s) && Enabled(s, ev)
  {
    && (ev.Lookup? || ev.Replace?)
    && s.calls[ev.c].key == k && Held(Apply(s, ev).calls[ev.c].phase).Some?
  }

  lemma OthersKeepTheirs(s: State, ev: Event, d: Caller)
    requires Inv(s) && Enabled(s, ev) && (ev.Lookup? || ev.Replace?) && d in s.calls && d != ev.c
    ensures d in Apply(s, ev).calls && Apply(s, ev).calls[d] == s.calls[d]
  {
  }

  /** What the caller obtains is the map's own entry afterwards, and it had none before. */
  lemma ObtainedIsMapped(s: State, ev: Event, k: Key)
    requires Inv(s) && Enabled(s, ev) && Obtains(s, ev, k)
    ensures var t := Apply(s, ev);
            && Held(s.calls[ev.c].phase).None?
            && k in t.slots && Held(t.calls[ev.c].phase) == Some(t.slots[k].entry)
            && (if k in s.slots then t.slots[k].entry == s.slots[k].entry else t.slots[k].entry == |s.heap|)
  {
    assert CallOk(s, ev.c);
  }

  lemma RejoiningDoubles(s: State, ev: Event, k: Key)
    requires Inv(s) && Enabled(s, ev) && Obtains(s, ev, k) && Detached(s, k)
    ensures Doubled(Apply(s, ev), k)
  {
    var t := Apply(s, ev);
    ObtainedIsMapped(s, ev, k);
    var own := t.slots[k].entry;
    var d, e :| ActiveOn(s, d, k, e) && !(k in s.slots && s.slots[k].entry == e);
    OthersKeepTheirs(s, ev, d);
    assert CallOk(s, d);
    assert ActiveOn(t, d, k, e) && ActiveOn(t, ev.c, k, own) && e != own;
  }

  /** What a caller holds after a step it held before, unless the step obtained it. */
  lemma HeldBefore(s: State, ev: Event, d: Caller, k: Key, e: EntryId)
    requires Inv(s) && Enabled(s, ev) && ActiveOn(Apply(s, ev), d, k, e)
    ensures ActiveOn(s, d, k, e) || ((ev.Lookup? || ev.Replace?) && d == ev.c && Obtains(s, ev, k))
  {
  }

  lemma DoublingRejoins(s: State, ev: Event, k: Key)
    requires Inv(s) && Enabled(s, ev) && !Doubled(s, k) && Doubled(Apply(s, ev), k)
    ensures Obtains(s, ev, k) && Detached(s, k)
  {
    var t := Apply(s, ev);
    var c, e, d, f :| ActiveOn(t, c, k, e) && ActiveOn(t, d, k, f) && e != f;
    HeldBefore(s, ev, c, k, e);
    HeldBefore(s, ev, d, k, f);
    assert Obtains(s, ev, k);
    ObtainedIsMapped(s, ev, k);
    var other, g := if c == ev.c then d else c, if c == ev.c then f else e;
    assert ActiveOn(s, other, k, g);
    assert CallOk(s, other);
  }

  /** One step doubles the entries of a key exactly if it obtains one while some holder is detached. */
  lemma DoublesExactly(s: State, ev: Event, k: Key)
    requires Inv(s) && Enabled(s, ev) && !Doubled(s, k)
    ensures Doubled(Apply(s, ev), k) <==> Obtains(s, ev, k) && Detached(s, k)
  {
    if Doubled(Apply(s, ev), k) {
      DoublingRejoins(s, ev, k);
    } else if Obtains(s, ev, k) && Detached(s, k) {
      RejoiningDoubles(s, ev, k);
    }
  }

  ghost predicate DoubledAlong(s: State, evs: seq<Event>, k: Key)
    requires Inv(s) && Exec(Next, s, evs).Some?
    decreases |evs|
  {
    || Doubled(s, k)
    || (evs != [] && (KeepsInv(s, evs[0]); DoubledAlong(Apply(s, evs[0]), evs[1..], k)))
  }

  /** Somewhere along a run, an entry for `k` is obtained while a holder of another is active. */
  ghost predicate RejoinsAlong(s: State, evs: seq<Event>, k: Key)
    requires Inv(s) && Exec(Next, s, evs).Some?
    decreases |evs|
  {
    && evs != []
    && (|| (Obtains(s, evs[0], k) && Detached(s, k))
        || (KeepsInv(s, evs[0]); RejoinsAlong(Apply(s, evs[0]), evs[1..], k)))
  }

  /**
   Exactly when one key has two entries in use: some caller looks it up and gets its entry while a
   holder is still active whose entry was evicted.
   */
  lemma {:induction false} DoubledExactlyByRejoining(s: State, evs: seq<Event>, k: Key)
    requires Inv(s) && Exec(Next, s, evs).Some? && !Doubled(s, k)
    ensures DoubledAlong(s, evs, k) <==> RejoinsAlong(s, evs, k)
    decreases |evs|
  {
    if evs != [] {
      KeepsInv(s, evs[0]);
      var t := Apply(s, evs[0]);
      DoublesExactly(s, evs[0], k);
      if Doubled(t, k) {
        assert DoubledAlong(t, evs[1..], k);
      } else {
        DoubledExactlyByRejoining(t, evs[1..], k);
      }
    }
  }

  /** Two probes for one key at the same time need two entries. */
  lemma TwoProbesAreDoubled(s: State, c: Caller, d: Caller)
    requires Inv(s) && c in s.calls && d in s.calls && c != d && s.calls[c].key == s.calls[d].key
    requires s.calls[c].phase.Probing? && s.calls[d].phase.Probing?
    ensures Doubled(s, s.calls[c].key)
  {
    assert CallOk(s, c) && CallOk(s, d);
    var k := s.calls[c].key;
    assert ActiveOn(s, c, k, s.calls[c].phase.probed) && ActiveOn(s, d, k, s.calls[d].phase.probed);
  }

  // ---------------------------------------------------------------- refinement of direct probing

  /** The `i`-th event of a run finishes this probe, at the time it carries. */
  ghost predicate ProbedAt(s: State, evs: seq<Event>, p: Probe, i: nat) {
    && i < |evs| && evs[i] == FinishProbe(p.prober, p.report)
    && Exec(Next, s, evs[..i]).Some? && Exec(Next, s, evs[..i]).value.now == p.checkedAt
  }

  /**
   A served report was probed for the caller's key, by the caller or less than `ttl` earlier, and the
   time this is counted from is the one at which the probe finished.
   */
  lemma ServedReportsAreHonest(evs: seq<Event>, c: Caller)
    requires Run(evs).Some?
    requires var s := Run(evs).value; c in s.calls && s.calls[c].phase.Done?
    ensures
      var s := Run(evs).value;
      var out := s.calls[c].phase.outcome;
      && (exists i: nat :: ProbedAt(Init, evs, out.probe, i))
      && out.probe.prober in s.calls && s.calls[out.probe.prober].key == s.calls[c].key
      && out.probe.checkedAt <= out.servedAt
      && (out.probe.prober == c || out.servedAt < out.probe.checkedAt + s.calls[c].ttl)
  {
    var s := Run(evs).value;
    assert CallOk(s, c);
    assert ProbeOk(s, s.calls[c].phase.outcome.probe);
    LoggedProbesHappened(Init, evs);
  }

  /** Every logged probe was finished by an event of the run, at its time. */
  lemma {:induction false} LoggedProbesHappened(s: State, evs: seq<Event>)
    requires Inv(s) && Exec(Next, s, evs).Some?
    ensures forall p <- Exec(Next, s, evs).value.log :: p in s.log || exists i: nat :: ProbedAt(s, evs, p, i)
    decreases |evs|
  {
    if evs != [] {
      KeepsInv(s, evs[0]);
      var t, rest := Apply(s, evs[0]), evs[1..];
      LoggedProbesHappened(t, rest);
      forall p <- Exec(Next, s, evs).value.log ensures p in s.log || exists i: nat :: ProbedAt(s, evs, p, i) {
        if p !in s.log {
          if p in t.log {
            assert evs[..0] == [] && ProbedAt(s, evs, p, 0);
          } else {
            var i: nat :| ProbedAt(t, rest, p, i);
            assert evs[..i + 1][0] == evs[0] && evs[..i + 1][1..] == rest[..i];
            assert ProbedAt(s, evs, p, i + 1);
          }
        }
      }
    }
  }

  /** The map never outgrows its bound, and no entry is leaked or freed early. */
  lemma BoundedAndCounted(evs: seq<Event>, e: EntryId)
    requires Run(evs).Some? && e < |Run(evs).value.heap|
    ensures
      var s := Run(evs).value;
      && |s.slots| <= MAX_TAP_HEALTH_CACHE_ENTRIES
      && (s.heap[e].strong == 0 <==>
            !Mapped(s, e) && forall c <- s.calls :: Held(s.calls[c].phase) != Some(e))
  {
    var s := Run(evs).value;
    assert EntryOk(s, e);
    forall c <- s.calls | Held(s.calls[c].phase) == Some(e) ensures s.heap[e].strong != 0 {
      HolderCounted(s, c);
    }
    if s.heap[e].strong != 0 && !Mapped(s, e) {
      assert Holders(s.calls, e) != {};
      var c :| c in Holders(s.calls, e);
    }
  }

  // ---------------------------------------------------------------- no waiting behind a probe

  /** An event of the walk over the map; none of these waits for an entry lock or a probe. */
  predicate WalksMap(ev: Event, callers: set<Caller>) {
    match ev
    case TakeMap(c) => c in callers
    case SweepSlot(c, _) => c in callers
    case Lookup(c) => c in callers
    case ScanSlot(c, _) => c in callers
    case Replace(c, _) => c in callers
    case _ => false
  }

  ghost predicate OnlyWalks(evs: seq<Event>, callers: set<Caller>) {
    forall ev <- evs :: WalksMap(ev, callers)
  }

  lemma {:induction false} OldestSlot(slots: map<Key, Slot>) returns (oldest: Key)
    requires slots.Keys != {}
    ensures oldest in slots && forall k <- slots :: slots[oldest].lastAccessed <= slots[k].lastAccessed
    decreases |slots|
  {
    var k :| k in slots;
    var rest := slots - {k};
    oldest := k;
    assert forall j <- slots :: j == k || (j in rest.Keys && rest[j] == slots[j]);
    if rest.Keys != {} {
      assert rest.Keys < slots.Keys;
      assert |rest.Keys| < |slots.Keys|;
      var other := OldestSlot(rest);
      if slots[other].lastAccessed < slots[k].lastAccessed { oldest := other; }
    }
  }

  ghost function WalkLeft(p: Phase): (int, int)
    requires InMap(p)
  {
    if p.Sweep? then (1, |p.todo|) else (0, |p.unseen|)
  }

  /** The caller inside the map always has a next step: either out of the map, or less left to look at. */
  ghost predicate Walks(s: State, c: Caller, s': State)
    requires c in s.calls && InMap(s.calls[c].phase)
  {
    && s'.calls.Keys == s.calls.Keys
    && (forall d <- s.calls | d != c :: s'.calls[d] == s.calls[d])
    && (if InMap(s'.calls[c].phase) then
          var was, now := WalkLeft(s.calls[c].phase), WalkLeft(s'.calls[c].phase);
          now.0 < was.0 || (now.0 == was.0 && now.1 < was.1)
        else
          s'.mapLock == None && s'.calls[c].phase.WaitEntry?)
  }

  lemma NextOfSweep(s: State, c: Caller) returns (ev: Event)
    requires Inv(s) && c in s.calls && s.calls[c].phase.Sweep?
    ensures Enabled(s, ev) && WalksMap(ev, {c}) && Walks(s, c, Apply(s, ev))
  {
    assert CallOk(s, c);
    if s.calls[c].phase.todo == {} {
      ev := Lookup(c);
    } else {
      var k :| k in s.calls[c].phase.todo;
      ev := SweepSlot(c, k);
    }
  }

  lemma NextOfScan(s: State, c: Caller) returns (ev: Event)
    requires Inv(s) && c in s.calls && s.calls[c].phase.Scan?
    ensures Enabled(s, ev) && WalksMap(ev, {c}) && Walks(s, c, Apply(s, ev))
  {
    assert CallOk(s, c);
    var Scan(unseen, idle) := s.calls[c].phase;
    if unseen != {} {
      var k :| k in unseen;
      ev := ScanSlot(c, k);
    } else if idle.Some? {
      ev := Replace(c, idle.value);
    } else {
      var victim := OldestSlot(s.slots);
      ev := Replace(c, victim);
    }
  }

  /** The caller inside the map can always finish its walk by itself. */
  lemma {:induction false} FinishWalk(s: State, c: Caller) returns (evs: seq<Event>, s': State)
    requires Inv(s) && c in s.calls && InMap(s.calls[c].phase)
    ensures Exec(Next, s, evs) == Some(s') && Inv(s') && OnlyWalks(evs, {c})
    ensures s'.mapLock == None
    ensures s'.calls.Keys == s.calls.Keys && s'.calls[c].phase.WaitEntry?
    ensures forall d <- s.calls | d != c :: s'.calls[d] == s.calls[d]
    decreases WalkLeft(s.calls[c].phase).0, WalkLeft(s.calls[c].phase).1
  {
    var ev: Event;
    if s.calls[c].phase.Sweep? { ev := NextOfSweep(s, c); } else { ev := NextOfScan(s, c); }
    NextIs(s, ev);
    var s1 := Apply(s, ev);
    if InMap(s1.calls[c].phase) {
      var rest;
      rest, s' := FinishWalk(s1, c);
      ExecConcat(Next, s, [ev], rest);
      evs := [ev] + rest;
    } else {
      evs, s' := [ev], s1;
    }
  }

  /** Entering a free map and walking through it. */
  lemma WalkFromOutside(s: State, c: Caller) returns (evs: seq<Event>, s': State)
    requires Inv(s) && Enabled(s, TakeMap(c))
    ensures Exec(Next, s, evs) == Some(s') && Inv(s') && OnlyWalks(evs, {c})
    ensures s'.calls.Keys == s.calls.Keys && s'.calls[c].phase.WaitEntry?
    ensures forall d <- s.calls | d != c :: s'.calls[d] == s.calls[d]
  {
    NextIs(s, TakeMap(c));
    var s1 := Apply(s, TakeMap(c));
    var walk;
    walk, s' := FinishWalk(s1, c);
    ExecConcat(Next, s, [TakeMap(c)], walk);
    evs := [TakeMap(c)] + walk;
  }

  /**
   A lookup stays enabled whatever probes are running: from any reachable state a waiting caller
   gets its entry through map steps of its own and of the current map owner alone.
   */
  lemma LookupNeverWaitsForProbes(s: State, c: Caller) returns (evs: seq<Event>, s': State)
    requires Inv(s) && c in s.calls && s.calls[c].phase.WaitMap?
    ensures Exec(Next, s, evs) == Some(s')
    ensures OnlyWalks(evs, {c} + if s.mapLock.Some? then {s.mapLock.value} else {})
    ensures c in s'.calls && s'.calls[c].phase.WaitEntry?
    ensures forall d <- s.calls | s.calls[d].phase.Probing? :: d in s'.calls && s'.calls[d] == s.calls[d]
  {
    if s.mapLock.None? {
      evs, s' := WalkFromOutside(s, c);
    } else {
      var before, s1 := FinishWalk(s, s.mapLock.value);
      var walk;
      walk, s' := WalkFromOutside(s1, c);
      ExecConcat(Next, s, before, walk);
      evs := before + walk;
    }
  }

  // ---------------------------------------------------------------- what the walk keeps and picks

  /** `retain` keeps a slot exactly if it is younger than `ttl` or some caller holds its entry. */
  lemma SweepKeepsIffUsed(s: State, c: Caller, k: Key)
    requires Inv(s) && Enabled(s, SweepSlot(c, k)) && k in s.slots
    ensures k in SweepStep(s, c, k).slots <==>
        || s.now < s.slots[k].lastAccessed + s.calls[c].ttl
        || exists d <- s.calls :: Held(s.calls[d].phase) == Some(s.slots[k].entry)
  {
    var e := s.slots[k].entry;
    assert SlotOk(s, k) && EntryOk(s, e);
    if d :| d in s.calls && Held(s.calls[d].phase) == Some(e) {
      assert d in Holders(s.calls, e);
    } else {
      assert Holders(s.calls, e) == {};
    }
  }

  predicate Idle(slots: map<Key, Slot>, heap: seq<Entry>, k: Key) {
    k in slots && slots[k].entry < |heap| && heap[slots[k].entry].strong == 1
  }

  /** `oldest` is the least recently used of the idle slots among `seen`, if there is one. */
  ghost predicate OldestIdle(slots: map<Key, Slot>, heap: seq<Entry>, seen: set<Key>, oldest: Option<Key>) {
    && (oldest.Some? ==> Idle(slots, heap, oldest.value))
    && forall k <- seen | Idle(slots, heap, k) ::
         oldest.Some? && slots[oldest.value].lastAccessed <= slots[k].lastAccessed
  }

  function Scanning(s: State, c: Caller, unseen: set<Key>, idle: Option<Key>): State
    requires c in s.calls
  {
    s.(calls := WithPhase(s.calls, c, Scan(unseen, idle)))
  }

  lemma ScanStepSees(s: State, c: Caller, k: Key, seen: set<Key>) returns (idle: Option<Key>)
    requires Inv(s) && Enabled(s, ScanSlot(c, k)) && OldestIdle(s.slots, s.heap, seen, s.calls[c].phase.idle)
    ensures var s' := Scanning(s, c, s.calls[c].phase.unseen - {k}, idle);
      Inv(s') && Exec(Next, s, [ScanSlot(c, k)]) == Some(s')
    ensures OldestIdle(s.slots, s.heap, seen + {k}, idle)
  {
    assert CallOk(s, c) && SlotOk(s, k);
    NextIs(s, ScanSlot(c, k));
    idle := ScanStep(s, c, k).calls[c].phase.idle;
  }

  lemma ScanningTwice(s: State, c: Caller, unseen: set<Key>, idle: Option<Key>, oldest: Option<Key>)
    requires c in s.calls
    ensures s.calls[c].phase == Scan(unseen, idle) ==> Scanning(s, c, unseen, idle) == s
    ensures Scanning(Scanning(s, c, unseen, idle), c, {}, oldest) == Scanning(s, c, {}, oldest)
  {
    var call := s.calls[c];
    LastUpdateWins(s.calls, c, call.(phase := Scan(unseen, idle)), call.(phase := Scan({}, oldest)));
  }

  lemma SeenGrows(seen: set<Key>, unseen: set<Key>, k: Key)
    requires k in unseen
    ensures seen + {k} + (unseen - {k}) == seen + unseen
  {}

  /** A scan that no other caller interrupts finds the least recently used of the idle slots. */
  lemma {:induction false} ScanFindsOldestIdle(s: State, c: Caller, seen: set<Key>)
      returns (evs: seq<Event>, oldest: Option<Key>)
    requires Inv(s) && c in s.calls && s.calls[c].phase.Scan?
    requires OldestIdle(s.slots, s.heap, seen, s.calls[c].phase.idle)
    ensures Exec(Next, s, evs) == Some(Scanning(s, c, {}, oldest))
    ensures OldestIdle(s.slots, s.heap, seen + s.calls[c].phase.unseen, oldest)
    decreases |s.calls[c].phase.unseen|
  {
    var unseen := s.calls[c].phase.unseen;
    if unseen == {} {
      evs, oldest := [], s.calls[c].phase.idle;
      ScanningTwice(s, c, {}, oldest, oldest);
      assert seen + unseen == seen;
    } else {
      var k :| k in unseen;
      var idle := ScanStepSees(s, c, k, seen);
      var rest;
      rest, oldest := ScanFindsOldestIdle(Scanning(s, c, unseen - {k}, idle), c, seen + {k});
      ExecConcat(Next, s, [ScanSlot(c, k)], rest);
      evs := [ScanSlot(c, k)] + rest;
      ScanningTwice(s, c, unseen - {k}, idle, oldest);
      SeenGrows(seen, unseen, k);
    }
  }

  lemma LastUpdateWins(calls: map<Caller, Call>, c: Caller, first: Call, last: Call)
    ensures calls[c := first][c := last] == calls[c := last]
  {}

  // ---------------------------------------------------------------- evicting a slot in use

  /** Every slot is in use: besides the map, exactly one caller refers to its entry. */
  ghost predicate SlotsBusy(s: State) {
    forall k <- s.slots :: SlotOk(s, k) && s.heap[s.slots[k].entry].strong == 2
  }

  /** At time 0, every slot is in use and the map is free. */
  ghost predicate AllBusy(s: State) {
    Inv(s) && s.now == 0 && s.mapLock == None && SlotsBusy(s)
  }

  /** Only the slots, the heap and the clock matter to being busy. */
  lemma BusyFrame(s: State, s': State)
    requires SlotsBusy(s) && s'.slots == s.slots && s'.heap == s.heap && s'.now == s.now
    ensures SlotsBusy(s')
  {
    forall k <- s'.slots ensures SlotOk(s', k) && s'.heap[s'.slots[k].entry].strong == 2 {
      assert SlotOk(s, k);
    }
  }

  /** No busy slot is swept out. */
  lemma {:induction false} SweepKeepsBusy(s: State, c: Caller) returns (evs: seq<Event>)
    requires Inv(s) && c in s.calls && s.calls[c].phase.Sweep?
    requires SlotsBusy(s)
    ensures Exec(Next, s, evs) == Some(s.(calls := WithPhase(s.calls, c, Sweep({}))))
    decreases |s.calls[c].phase.todo|
  {
    var todo := s.calls[c].phase.todo;
    if todo == {} {
      assert s == s.(calls := WithPhase(s.calls, c, Sweep({})));
      evs := [];
    } else {
      assert CallOk(s, c);
      var k :| k in todo;
      NextIs(s, SweepSlot(c, k));
      var s1 := s.(calls := WithPhase(s.calls, c, Sweep(todo - {k})));
      assert Apply(s, SweepSlot(c, k)) == s1;
      BusyFrame(s, s1);
      var rest := SweepKeepsBusy(s1, c);
      ExecConcat(Next, s, [SweepSlot(c, k)], rest);
      evs := [SweepSlot(c, k)] + rest;
      assert WithPhase(s1.calls, c, Sweep({})) == WithPhase(s.calls, c, Sweep({}));
    }
  }

  /** A new caller arrives and walks over a map of busy slots. */
  lemma EnterBusyMap(s: State, c: Caller, key: Key) returns (evs: seq<Event>, s': State)
    requires AllBusy(s) && c !in s.calls
    ensures s' == s.(mapLock := Some(c), calls := s.calls[c := Call(key, 1, Sweep({}))])
    ensures Exec(Next, s, evs) == Some(s') && Inv(s')
  {
    NextIs(s, Arrive(c, key, 1));
    var s1 := Apply(s, Arrive(c, key, 1));
    NextIs(s1, TakeMap(c));
    var s2 := Apply(s1, TakeMap(c));
    BusyFrame(s, s2);
    var sweep := SweepKeepsBusy(s2, c);
    s' := s2.(calls := WithPhase(s2.calls, c, Sweep({})));
    assert s'.calls == s.calls[c := Call(key, 1, Sweep({}))];
    ExecConcat(Next, s1, [TakeMap(c)], sweep);
    ExecConcat(Next, s, [Arrive(c, key, 1)], [TakeMap(c)] + sweep);
    evs := [Arrive(c, key, 1)] + ([TakeMap(c)] + sweep);
    ExecKeepsInv(s, evs);
  }

  /** `s'` is `s` with a new busy slot for the key of `c`, and no other caller touched. */
  ghost predicate HasJoined(s: State, c: Caller, s': State) {
    && c in s.calls
    && s'.now == s.now
    && s'.mapLock == None
    && SlotsBusy(s')
    && s'.calls == s.calls[c := s.calls[c].(phase := WaitEntry(|s.heap|))]
    && |s'.heap| == |s.heap| + 1
    && s'.heap[|s.heap|] == Entry(s.calls[c].key, 2, None, None)
  }

  lemma InsertedJoins(s: State, c: Caller)
    requires SlotsBusy(s) && c in s.calls && s.calls[c].key !in s.slots
    ensures HasJoined(s, c, Inserted(s, c))
  {
    var s' := Inserted(s, c);
    forall k <- s'.slots ensures SlotOk(s', k) && s'.heap[s'.slots[k].entry].strong == 2 {
      if k != s.calls[c].key { assert SlotOk(s, k); }
    }
  }

  lemma EvictedStaysBusy(s: State, victim: Key)
    requires SlotsBusy(s) && victim in s.slots
    ensures SlotOk(s, victim) && SlotsBusy(Evicted(s, victim))
  {
    var s' := Evicted(s, victim);
    assert SlotOk(s, victim);
    forall k <- s'.slots ensures SlotOk(s', k) && s'.heap[s'.slots[k].entry].strong == 2 {
      assert SlotOk(s, k);
    }
  }

  lemma ScanFullMap(s: State, c: Caller) returns (evs: seq<Event>, s': State)
    requires Inv(s) && c in s.calls && s.calls[c].phase == Sweep({})
    requires s.calls[c].key !in s.slots && SlotsBusy(s) && |s.slots| >= MAX_TAP_HEALTH_CACHE_ENTRIES
    ensures Exec(Next, s, evs) == Some(s') && Inv(s') && SlotsBusy(s')
    ensures s' == s.(calls := WithPhase(s.calls, c, Scan({}, None)))
  {
    NextIs(s, Lookup(c));
    var s1 := Apply(s, Lookup(c));
    BusyFrame(s, s1);
    var scan, none := ScanFindsOldestIdle(s1, c, {});
    assert none.None?;
    s' := s1.(calls := WithPhase(s1.calls, c, Scan({}, None)));
    ExecConcat(Next, s, [Lookup(c)], scan);
    evs := [Lookup(c)] + scan;
    ExecKeepsInv(s, evs);
    assert s'.calls == WithPhase(s.calls, c, Scan({}, None));
    BusyFrame(s, s');
  }

  /** A caller that has found no idle slot at time 0 may evict any slot. */
  lemma ReplaceAnyBusy(s: State, c: Caller, victim: Key)
    requires Inv(s) && s.now == 0 && c in s.calls && s.calls[c].phase == Scan({}, None)
    requires SlotsBusy(s) && victim in s.slots
    ensures Enabled(s, Replace(c, victim)) && HasJoined(s, c, Apply(s, Replace(c, victim)))
    ensures Apply(s, Replace(c, victim)).slots.Keys == s.slots.Keys - {victim} + {s.calls[c].key}
  {
    assert CallOk(s, c);
    forall k <- s.slots ensures s.slots[victim].lastAccessed <= s.slots[k].lastAccessed {
      assert SlotOk(s, k) && SlotOk(s, victim);
    }
    EvictedStaysBusy(s, victim);
    InsertedJoins(Evicted(s, victim), c);
  }

  lemma JoinsFromAnyPhase(s: State, c: Caller, p: Phase, s': State)
    requires c in s.calls && HasJoined(s.(calls := WithPhase(s.calls, c, p)), c, s')
    ensures HasJoined(s, c, s')
  {
    var calls := WithPhase(s.calls, c, p);
    assert calls[c := calls[c].(phase := WaitEntry(|s.heap|))]
        == s.calls[c := s.calls[c].(phase := WaitEntry(|s.heap|))];
  }

  lemma InsertIntoFullMap(s: State, c: Caller, victim: Key) returns (evs: seq<Event>, s': State)
    requires Inv(s) && s.now == 0 && c in s.calls && s.calls[c].phase == Sweep({})
    requires s.calls[c].key !in s.slots && SlotsBusy(s)
    requires |s.slots| >= MAX_TAP_HEALTH_CACHE_ENTRIES && victim in s.slots
    ensures Exec(Next, s, evs) == Some(s') && Inv(s') && HasJoined(s, c, s')
    ensures s'.slots.Keys == s.slots.Keys - {victim} + {s.calls[c].key}
  {
    var scan, s1 := ScanFullMap(s, c);
    ReplaceAnyBusy(s1, c, victim);
    NextIs(s1, Replace(c, victim));
    s' := Apply(s1, Replace(c, victim));
    ExecConcat(Next, s, scan, [Replace(c, victim)]);
    evs := scan + [Replace(c, victim)];
    JoinsFromAnyPhase(s, c, Scan({}, None), s');
  }

  lemma InsertIntoBusyMap(s: State, c: Caller, victim: Key) returns (evs: seq<Event>, s': State)
    requires Inv(s) && s.now == 0 && c in s.calls && s.calls[c].phase == Sweep({})
    requires s.calls[c].key !in s.slots && SlotsBusy(s)
    requires |s.slots| >= MAX_TAP_HEALTH_CACHE_ENTRIES ==> victim in s.slots
    ensures Exec(Next, s, evs) == Some(s') && Inv(s') && HasJoined(s, c, s')
    ensures s'.slots.Keys ==
        (if |s.slots| >= MAX_TAP_HEALTH_CACHE_ENTRIES then s.slots.Keys - {victim} else s.slots.Keys) + {s.calls[c].key}
  {
    if |s.slots| >= MAX_TAP_HEALTH_CACHE_ENTRIES {
      evs, s' := InsertIntoFullMap(s, c, victim);
    } else {
      NextIs(s, Lookup(c));
      InsertedJoins(s, c);
      evs, s' := [Lookup(c)], Inserted(s, c);
    }
  }

  /** The new caller takes its entry lock and starts to probe; the slots stay busy. */
  lemma ProbeNewEntry(s: State, c: Caller, e: EntryId) returns (evs: seq<Event>, s': State)
    requires Inv(s) && SlotsBusy(s) && c in s.calls && s.calls[c].phase == WaitEntry(e)
    requires e < |s.heap| && s.heap[e].lock.None? && s.heap[e].cached.None?
    ensures Exec(Next, s, evs) == Some(s') && Inv(s') && SlotsBusy(s')
    ensures s'.now == s.now && s'.mapLock == s.mapLock && s'.slots == s.slots
    ensures s'.calls == s.calls[c := s.calls[c].(phase := Probing(e))] && |s'.heap| == |s.heap|
  {
    NextIs(s, TakeEntry(c));
    var s1 := Apply(s, TakeEntry(c));
    NextIs(s1, CheckFresh(c));
    s' := Apply(s1, CheckFresh(c));
    ExecConcat(Next, s, [TakeEntry(c)], [CheckFresh(c)]);
    evs := [TakeEntry(c)] + [CheckFresh(c)];
    assert s'.calls == s.calls[c := s.calls[c].(phase := Probing(e))];
    forall k <- s'.slots ensures SlotOk(s', k) && s'.heap[s'.slots[k].entry].strong == 2 {
      assert SlotOk(s, k);
    }
  }

  /** With every slot busy, a new caller ends up probing a new entry; a full map loses `victim`. */
  lemma Join(s: State, c: Caller, key: Key, victim: Key) returns (evs: seq<Event>, s': State)
    requires AllBusy(s) && c !in s.calls && key !in s.slots
    requires |s.slots| >= MAX_TAP_HEALTH_CACHE_ENTRIES ==> victim in s.slots
    ensures Exec(Next, s, evs) == Some(s') && AllBusy(s')
    ensures s'.calls == s.calls[c := Call(key, 1, Probing(|s.heap|))] && |s'.heap| == |s.heap| + 1
    ensures s'.slots.Keys ==
        (if |s.slots| >= MAX_TAP_HEALTH_CACHE_ENTRIES then s.slots.Keys - {victim} else s.slots.Keys) + {key}
  {
    var enter, s1 := EnterBusyMap(s, c, key);
    BusyFrame(s, s1);
    var insert, s2 := InsertIntoBusyMap(s1, c, victim);
    var probe;
    probe, s' := ProbeNewEntry(s2, c, |s.heap|);
    ExecConcat(Next, s1, insert, probe);
    ExecConcat(Next, s, enter, insert + probe);
    evs := enter + (insert + probe);
    LastUpdateWins(s.calls, c, s1.calls[c], s2.calls[c]);
    LastUpdateWins(s.calls, c, s2.calls[c], s'.calls[c]);
  }

  /** `keys` are the numbers below `n`. */
  ghost predicate Below(keys: set<nat>, n: nat) {
    |keys| == n && forall k: nat :: k in keys <==> k < n
  }

  lemma BelowGrows(keys: set<nat>, n: nat)
    requires Below(keys, n)
    ensures n !in keys && Below(keys + {n}, n + 1)
  {}

  /** `n` callers with different keys can all be probing at once, each with its own slot. */
  ghost predicate AllProbing(s: State, n: nat) {
    && AllBusy(s)
    && Below(s.slots.Keys, n)
    && CallsProbing(s.calls, n)
  }

  /** Calls `0` to `n - 1`, each probing its own key. */
  ghost predicate CallsProbing(calls: map<Caller, Call>, n: nat) {
    Below(calls.Keys, n) && forall c <- calls :: calls[c].key == c && calls[c].phase.Probing?
  }

  lemma CallsGrow(calls: map<Caller, Call>, n: nat, call: Call)
    requires CallsProbing(calls, n) && call.key == n && call.phase.Probing?
    ensures CallsProbing(calls[n := call], n + 1)
  {
    BelowGrows(calls.Keys, n);
    assert calls[n := call].Keys == calls.Keys + {n};
  }

  lemma OneMoreProbes(s: State, n: nat) returns (evs: seq<Event>, s': State)
    requires AllProbing(s, n) && n < MAX_TAP_HEALTH_CACHE_ENTRIES
    ensures Exec(Next, s, evs) == Some(s') && AllProbing(s', n + 1)
  {
    BelowGrows(s.slots.Keys, n);
    evs, s' := Join(s, n, n, n);
    CallsGrow(s.calls, n, s'.calls[n]);
  }

  lemma {:induction false} ManyProbes(n: nat) returns (evs: seq<Event>, s: State)
    requires n <= MAX_TAP_HEALTH_CACHE_ENTRIES
    ensures Run(evs) == Some(s) && AllProbing(s, n)
  {
    if n == 0 {
      evs, s := [], Init;
    } else {
      var first, s1 := ManyProbes(n - 1);
      var last;
      last, s := OneMoreProbes(s1, n - 1);
      ExecConcat(Next, Init, first, last);
      evs := first + last;
    }
  }

  /** Full of busy slots, the map loses key 0 to a new key, and then starts a second entry for key 0. */
  lemma EvictThenRejoin(s: State) returns (evs: seq<Event>, s': State)
    requires AllBusy(s) && |s.slots.Keys| == MAX_TAP_HEALTH_CACHE_ENTRIES
    requires 0 in s.slots && 1 in s.slots && 256 !in s.slots
    requires 0 in s.calls && 256 !in s.calls && 257 !in s.calls
    ensures Exec(Next, s, evs) == Some(s')
    ensures 257 in s'.calls && s'.calls[257].key == 0
    ensures s'.calls[257].phase.Probing? && s'.calls[257].phase.probed > |s.heap|
    ensures 0 in s'.calls && s'.calls[0] == s.calls[0]
  {
    var evict, s1 := Join(s, 256, 256, 0);
    SwapKeepsSize(s.slots.Keys, 0, 256);
    var again;
    again, s' := Join(s1, 257, 0, 1);
    ExecConcat(Next, s, evict, again);
    evs := evict + again;
  }

  lemma SwapKeepsSize(keys: set<Key>, out: Key, added: Key)
    requires out in keys && added !in keys
    ensures |keys - {out} + {added}| == |keys|
  {}

  /**
   Without an idle slot to evict, single flight fails: 256 callers probe 256 keys, the next key
   evicts the slot of key 0 in use, and the next caller for key 0 starts a second probe for it.
   */
  lemma BusyEvictionDoublesProbes() returns (evs: seq<Event>, s: State)
    ensures Run(evs) == Some(s)
    ensures 0 in s.calls && s.calls[0].key == 0 && s.calls[0].phase.Probing?
    ensures 257 in s.calls && s.calls[257].key == 0 && s.calls[257].phase.Probing?
    ensures s.calls[0].phase != s.calls[257].phase
  {
    var full, s1 := ManyProbes(MAX_TAP_HEALTH_CACHE_ENTRIES);
    assert 0 in s1.calls && CallOk(s1, 0);
    var rest;
    rest, s := EvictThenRejoin(s1);
    ExecConcat(Next, Init, full, rest);
    evs := full + rest;
  }
}
