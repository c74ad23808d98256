/**
 What callers of the TAP health cache are answered, said of the events of a run: when they
 arrived, which probes finished on which entry, and how much time has passed.
 */
module TapHealthAnswers {
  import opened Options
  import opened Runs
  import opened TapHealthCache

  // ---------------------------------------------------------------- what the events say

  function Elapsed(ev: Event): nat {
    if ev.Tick? then ev.elapsed else 0
  }

  /** The time after a run: the ticks in it. */
  function Clock(evs: seq<Event>): nat {
    if evs == [] then 0 else Clock(evs[..|evs| - 1]) + Elapsed(evs[|evs| - 1])
  }

  lemma LastStep(evs: seq<Event>)
    requires Run(evs).Some? && evs != []
    ensures var front, last := evs[..|evs| - 1], evs[|evs| - 1];
            Run(front).Some? && Enabled(Run(front).value, last) && Run(evs).value == Apply(Run(front).value, last)
  {
    ExecLast(Next, Init, evs);
  }

  lemma OneMore(evs: seq<Event>, ev: Event)
    requires Run(evs).Some? && Enabled(Run(evs).value, ev)
    ensures Run(evs + [ev]) == Some(Apply(Run(evs).value, ev))
  {
    ExecConcat(Next, Init, evs, [ev]);
    NextIs(Run(evs).value, ev);
  }

  /** How one step changes the clock and the list of calls. */
  ghost predicate CallsFollow(s: State, ev: Event, t: State) {
    && t.now == s.now + Elapsed(ev)
    && (forall c :: c in t.calls <==> c in s.calls || (ev.Arrive? && ev.c == c))
    && (forall c <- s.calls :: c in t.calls && t.calls[c].key == s.calls[c].key && t.calls[c].ttl == s.calls[c].ttl)
    && (ev.Arrive? ==> ev.c !in s.calls && ev.c in t.calls && t.calls[ev.c].key == ev.key && t.calls[ev.c].ttl == ev.ttl)
  }

  lemma StepFollows(s: State, ev: Event)
    requires Inv(s) && Enabled(s, ev)
    ensures CallsFollow(s, ev, Apply(s, ev))
  {
  }

  lemma LastFollows(evs: seq<Event>)
    requires Run(evs).Some? && evs != []
    ensures var front := evs[..|evs| - 1];
            Run(front).Some? && CallsFollow(Run(front).value, evs[|evs| - 1], Run(evs).value)
  {
    LastStep(evs);
    StepFollows(Run(evs[..|evs| - 1]).value, evs[|evs| - 1]);
  }

  lemma {:induction false} ClockIs(evs: seq<Event>)
    requires Run(evs).Some?
    ensures Run(evs).value.now == Clock(evs)
  {
    if evs != [] {
      LastFollows(evs);
      ClockIs(evs[..|evs| - 1]);
    }
  }

  /** The calls of a run are those that arrived, with the key and the ttl they arrived with. */
  lemma {:induction false} CallsAreArrivals(evs: seq<Event>, c: Caller, key: Key, ttl: nat)
    requires Run(evs).Some?
    ensures var calls := Run(evs).value.calls;
            Arrive(c, key, ttl) in evs <==> c in calls && calls[c].key == key && calls[c].ttl == ttl
  {
    if evs != [] {
      var front, last := evs[..|evs| - 1], evs[|evs| - 1];
      LastFollows(evs);
      assert evs == front + [last];
      CallsAreArrivals(front, c, key, ttl);
    }
  }

  /** The event finishes a probe on an entry. */
  ghost predicate FinishesOn(s: State, ev: Event, e: EntryId) {
    ev.FinishProbe? && ev.c in s.calls && s.calls[ev.c].phase == Probing(e)
  }

  /** The last probe that a run has finished on an entry. */
  ghost function LastFinished(evs: seq<Event>, e: EntryId): Option<Probe>
    requires Run(evs).Some?
  {
    if evs == [] then None
    else
      LastFollows(evs);
      var front, last := evs[..|evs| - 1], evs[|evs| - 1];
      var s := Run(front).value;
      if FinishesOn(s, last, e) then Some(Probe(last.c, s.calls[last.c].key, Clock(front), last.report))
      else LastFinished(front, e)
  }

  // ---------------------------------------------------------------- when a report is served

  function CachedIn(heap: seq<Entry>, e: EntryId): Option<Probe> {
    if e < |heap| then heap[e].cached else None
  }

  lemma FinishingCaches(s: State, ev: Event, e: EntryId)
    requires Inv(s) && Enabled(s, ev) && FinishesOn(s, ev, e)
    ensures CachedIn(Apply(s, ev).heap, e) == Some(Probe(ev.c, s.calls[ev.c].key, s.now, ev.report))
  {
    assert CallOk(s, ev.c);
  }

  lemma NothingElseCaches(s: State, ev: Event, e: EntryId)
    requires Inv(s) && Enabled(s, ev) && !FinishesOn(s, ev, e)
    ensures CachedIn(Apply(s, ev).heap, e) == CachedIn(s.heap, e)
  {
    if ByMapOwner(ev) { MapStepsKeepCaches(s, ev, e); }
  }

  lemma MapStepsKeepCaches(s: State, ev: Event, e: EntryId)
    requires Inv(s) && Enabled(s, ev) && ByMapOwner(ev)
    ensures CachedIn(Apply(s, ev).heap, e) == CachedIn(s.heap, e)
  {
  }

  lemma CachedStep(s: State, ev: Event, e: EntryId)
    requires Inv(s) && Enabled(s, ev)
    ensures CachedIn(Apply(s, ev).heap, e) ==
      if FinishesOn(s, ev, e) then Some(Probe(ev.c, s.calls[ev.c].key, s.now, ev.report)) else CachedIn(s.heap, e)
  {
    if FinishesOn(s, ev, e) { FinishingCaches(s, ev, e); } else { NothingElseCaches(s, ev, e); }
  }

  lemma LastCaches(evs: seq<Event>, e: EntryId)
    requires Run(evs).Some? && evs != []
    ensures var front, ev := evs[..|evs| - 1], evs[|evs| - 1];
      && Run(front).Some?
      && CachedIn(Run(evs).value.heap, e) ==
         var s := Run(front).value;
         if FinishesOn(s, ev, e) then Some(Probe(ev.c, s.calls[ev.c].key, s.now, ev.report)) else CachedIn(s.heap, e)
  {
    LastStep(evs);
    CachedStep(Run(evs[..|evs| - 1]).value, evs[|evs| - 1], e);
  }

  /** An entry caches the last probe finished on it, and nothing before the first one. */
  lemma {:induction false} CachedIsLastFinished(evs: seq<Event>, e: EntryId)
    requires Run(evs).Some?
    ensures LastFinished(evs, e) == CachedIn(Run(evs).value.heap, e)
  {
    if evs != [] {
      LastCaches(evs, e);
      CachedIsLastFinished(evs[..|evs| - 1], e);
      ClockIs(evs[..|evs| - 1]);
    }
  }

  /** The phase a caller is in after a run, if it has arrived. */
  ghost function PhaseOf(evs: seq<Event>, c: Caller): Option<Phase>
    requires Run(evs).Some?
  {
    if c in Run(evs).value.calls then Some(Run(evs).value.calls[c].phase) else None
  }

  /**
   The freshness check, over every run: the caller leaves with the last probe finished on its entry
   if and only if there is one and it is younger than the ttl the caller arrived with. Otherwise it
   probes.
   */
  lemma FreshIsServedExactly(evs: seq<Event>, c: Caller, key: Key, ttl: nat, e: EntryId)
    requires Run(evs).Some? && Arrive(c, key, ttl) in evs && PhaseOf(evs, c) == Some(Locked(e))
    ensures Run(evs + [CheckFresh(c)]).Some?
    ensures var last := LastFinished(evs, e);
            PhaseOf(evs + [CheckFresh(c)], c) ==
              if last.Some? && Clock(evs) < last.value.checkedAt + ttl then Some(Leaving(e, Outcome(last.value, Clock(evs))))
              else Some(Probing(e))
  {
    var s := Run(evs).value;
    assert CallOk(s, c);
    CallsAreArrivals(evs, c, key, ttl);
    ClockIs(evs);
    CachedIsLastFinished(evs, e);
    OneMore(evs, CheckFresh(c));
  }

  /** A caller that probes leaves with its own report. */
  lemma ProberLeavesWithItsReport(evs: seq<Event>, c: Caller, key: Key, ttl: nat, e: EntryId, report: Report)
    requires Run(evs).Some? && Arrive(c, key, ttl) in evs && PhaseOf(evs, c) == Some(Probing(e))
    ensures Run(evs + [FinishProbe(c, report)]).Some?
    ensures PhaseOf(evs + [FinishProbe(c, report)], c)
         == Some(Leaving(e, Outcome(Probe(c, key, Clock(evs), report), Clock(evs))))
  {
    CallsAreArrivals(evs, c, key, ttl);
    ClockIs(evs);
    OneMore(evs, FinishProbe(c, report));
  }

  /** What a caller leaves with is what it returns, whatever happens meanwhile. */
  predicate Answered(s: State, c: Caller, out: Outcome) {
    && c in s.calls
    && match s.calls[c].phase
       case Leaving(_, o) => o == out
       case Done(o) => o == out
       case _ => false
  }

  lemma AnswerStays(s: State, ev: Event, c: Caller, out: Outcome)
    requires Inv(s) && Enabled(s, ev) && Answered(s, c, out)
    ensures Answered(Apply(s, ev), c, out)
  {
    if ev.TakeMap? || ev.SweepSlot? || ev.Lookup? || ev.ScanSlot? || ev.Replace? { MapStepsKeepAnswers(s, ev, c, out); }
  }

  lemma MapStepsKeepAnswers(s: State, ev: Event, c: Caller, out: Outcome)
    requires Inv(s) && Enabled(s, ev) && Answered(s, c, out)
    requires ev.TakeMap? || ev.SweepSlot? || ev.Lookup? || ev.ScanSlot? || ev.Replace?
    ensures Answered(Apply(s, ev), c, out)
  {
    assert ev.c != c;
  }

  lemma {:induction false} AnswersAreFinal(s: State, evs: seq<Event>, c: Caller, out: Outcome)
    requires Inv(s) && Exec(Next, s, evs).Some? && Answered(s, c, out)
    ensures Answered(Exec(Next, s, evs).value, c, out)
    decreases |evs|
  {
    if evs != [] {
      KeepsInv(s, evs[0]);
      AnswerStays(s, evs[0], c, out);
      AnswersAreFinal(Apply(s, evs[0]), evs[1..], c, out);
    }
  }

  // ---------------------------------------------------------------- two callers, one report

  /** The state after the first `n` events of a run. */
  ghost function At(evs: seq<Event>, n: nat): (s: State)
    requires Run(evs).Some? && n <= |evs|
    ensures Inv(s) && Run(evs[..n]) == Some(s)
  {
    ExecPrefix(Next, Init, evs, n);
    Run(evs[..n]).value
  }

  lemma StepAt(evs: seq<Event>, n: nat)
    requires Run(evs).Some? && n < |evs|
    ensures Enabled(At(evs, n), evs[n]) && At(evs, n + 1) == Apply(At(evs, n), evs[n])
  {
    assert At(evs, n + 1) == Run(evs[..n + 1]).value;
    assert evs[..n + 1][..n] == evs[..n];
    LastStep(evs[..n + 1]);
  }

  lemma {:induction false} ClockGrows(evs: seq<Event>, m: nat, n: nat)
    requires m <= n <= |evs|
    ensures Clock(evs[..m]) <= Clock(evs[..n])
  {
    if m < n {
      assert evs[..n][..n - 1] == evs[..n - 1];
      ClockGrows(evs, m, n - 1);
    }
  }

  /** The slot of a key keeps its entry between two points of a run. */
  ghost predicate SlotKept(evs: seq<Event>, k: Key, e: EntryId, i: nat, j: nat)
    requires Run(evs).Some? && i <= j <= |evs|
  {
    forall n: nat | i <= n <= j :: HasSlot(At(evs, n), k, e)
  }

  predicate HasSlot(s: State, k: Key, e: EntryId) {
    k in s.slots && s.slots[k].entry == e
  }

  /** No caller of a key that has arrived so far finds a probe of time `since` too old. */
  ghost predicate Patient(evs: seq<Event>, j: nat, k: Key, since: nat)
    requires j <= |evs|
  {
    forall c, ttl :: Arrive(c, k, ttl) in evs[..j] ==> Clock(evs[..j]) < since + ttl
  }

  predicate NobodyProbes(s: State, e: EntryId) {
    forall x <- s.calls :: s.calls[x].phase != Probing(e)
  }

  /** A probe is the last one finished on an entry, and nobody is probing there. */
  ghost predicate Settled(evs: seq<Event>, n: nat, e: EntryId, p: Probe)
    requires Run(evs).Some? && n <= |evs|
  {
    && CachedIn(At(evs, n).heap, e) == Some(p)
    && NobodyProbes(At(evs, n), e)
  }

  lemma FinishingStep(s: State, ev: Event, e: EntryId)
    requires Inv(s) && Enabled(s, ev) && FinishesOn(s, ev, e)
    ensures NobodyProbes(Apply(s, ev), e)
  {
    var t, c := Apply(s, ev), ev.c;
    forall x <- t.calls ensures t.calls[x].phase != Probing(e) {
      if x in s.calls { assert CallOk(s, x) && CallOk(s, c); }
    }
  }

  lemma FinishingSettles(evs: seq<Event>, i: nat, e: EntryId)
    requires Run(evs).Some? && i < |evs| && FinishesOn(At(evs, i), evs[i], e)
    ensures Settled(evs, i + 1, e, Probe(evs[i].c, At(evs, i).calls[evs[i].c].key, Clock(evs[..i]), evs[i].report))
  {
    StepAt(evs, i);
    FinishingStep(At(evs, i), evs[i], e);
    CachedStep(At(evs, i), evs[i], e);
    ClockIs(evs[..i]);
  }

  /** Nobody of the key finds the cached report too old. */
  ghost predicate FreshForAll(s: State, k: Key, p: Probe) {
    forall x <- s.calls | s.calls[x].key == k :: s.now < p.checkedAt + s.calls[x].ttl
  }

  lemma SettledStep(s: State, ev: Event, k: Key, e: EntryId, p: Probe)
    requires Inv(s) && Enabled(s, ev) && HasSlot(s, k, e) && FreshForAll(s, k, p)
    requires CachedIn(s.heap, e) == Some(p) && NobodyProbes(s, e)
    ensures !FinishesOn(s, ev, e) && NobodyProbes(Apply(s, ev), e)
  {
    var t := Apply(s, ev);
    forall x <- t.calls ensures t.calls[x].phase != Probing(e) {
      if x in s.calls { assert CallOk(s, x) && SlotOk(s, k); }
    }
  }

  lemma PatientAreFresh(evs: seq<Event>, n: nat, j: nat, k: Key, p: Probe)
    requires Run(evs).Some? && n <= j <= |evs| && Patient(evs, j, k, p.checkedAt)
    ensures FreshForAll(At(evs, n), k, p)
  {
    var s := At(evs, n);
    ClockIs(evs[..n]);
    ClockGrows(evs, n, j);
    forall x <- s.calls | s.calls[x].key == k ensures s.now < p.checkedAt + s.calls[x].ttl {
      CallsAreArrivals(evs[..n], x, k, s.calls[x].ttl);
      assert evs[..n] == evs[..j][..n];
    }
  }

  lemma SettledAfter(evs: seq<Event>, n: nat, j: nat, k: Key, e: EntryId, p: Probe)
    requires Run(evs).Some? && n < |evs| && n <= j <= |evs| && Settled(evs, n, e, p)
    requires HasSlot(At(evs, n), k, e) && Patient(evs, j, k, p.checkedAt)
    ensures Settled(evs, n + 1, e, p) && !FinishesOn(At(evs, n), evs[n], e)
  {
    PatientAreFresh(evs, n, j, k, p);
    StepAt(evs, n);
    SettledStep(At(evs, n), evs[n], k, e, p);
    CachedStep(At(evs, n), evs[n], e);
  }

  lemma SettledFor(evs: seq<Event>, i: nat, n: nat, j: nat, k: Key, e: EntryId, p: Probe)
    requires Run(evs).Some? && i <= n <= j <= |evs| && Settled(evs, i, e, p)
    requires SlotKept(evs, k, e, i, j) && Patient(evs, j, k, p.checkedAt)
    ensures Settled(evs, n, e, p)
  {
    forall m: nat | i <= m < n && Settled(evs, m, e, p) ensures Settled(evs, m + 1, e, p) {
      assert HasSlot(At(evs, m), k, e);
      SettledAfter(evs, m, j, k, e, p);
    }
    KeptUpTo((m: nat) => m <= |evs| && Settled(evs, m, e, p), i, n);
  }

  /** A caller of the key holds nothing but this entry. */
  predicate HoldsOnly(s: State, d: Caller, k: Key, e: EntryId) {
    d in s.calls && s.calls[d].key == k && (Held(s.calls[d].phase).Some? ==> Held(s.calls[d].phase) == Some(e))
  }

  lemma HoldsStep(s: State, ev: Event, d: Caller, k: Key, e: EntryId)
    requires Inv(s) && Enabled(s, ev) && HoldsOnly(s, d, k, e) && HasSlot(Apply(s, ev), k, e)
    ensures HoldsOnly(Apply(s, ev), d, k, e)
  {
    var t := Apply(s, ev);
    StepFollows(s, ev);
    if Held(t.calls[d].phase).Some? {
      var f := Held(t.calls[d].phase).value;
      HeldBefore(s, ev, d, k, f);
      if !ActiveOn(s, d, k, f) { ObtainedIsMapped(s, ev, k); }
    }
  }

  lemma ArrivalHoldsNothing(s: State, d: Caller, k: Key, ttl: nat, e: EntryId)
    requires Inv(s) && Enabled(s, Arrive(d, k, ttl))
    ensures HoldsOnly(Apply(s, Arrive(d, k, ttl)), d, k, e)
  {
  }

  lemma HoldsAfter(evs: seq<Event>, n: nat, d: Caller, k: Key, e: EntryId)
    requires Run(evs).Some? && n < |evs| && HoldsOnly(At(evs, n), d, k, e) && HasSlot(At(evs, n + 1), k, e)
    ensures HoldsOnly(At(evs, n + 1), d, k, e)
  {
    StepAt(evs, n);
    HoldsStep(At(evs, n), evs[n], d, k, e);
  }

  lemma HoldsAtFirst(evs: seq<Event>, a: nat, d: Caller, k: Key, ttl: nat, e: EntryId)
    requires Run(evs).Some? && a < |evs| && evs[a] == Arrive(d, k, ttl)
    ensures HoldsOnly(At(evs, a + 1), d, k, e)
  {
    StepAt(evs, a);
    ArrivalHoldsNothing(At(evs, a), d, k, ttl, e);
  }

  /** While a slot keeps its entry, those who arrive for it hold that entry or none. */
  lemma HoldsTheSlot(evs: seq<Event>, a: nat, n: nat, d: Caller, k: Key, ttl: nat, e: EntryId)
    requires Run(evs).Some? && a < n <= |evs| && evs[a] == Arrive(d, k, ttl) && SlotKept(evs, k, e, a, n)
    ensures HoldsOnly(At(evs, n), d, k, e)
  {
    HoldsAtFirst(evs, a, d, k, ttl, e);
    forall m: nat | a + 1 <= m < n && HoldsOnly(At(evs, m), d, k, e) ensures HoldsOnly(At(evs, m + 1), d, k, e) {
      assert HasSlot(At(evs, m + 1), k, e);
      HoldsAfter(evs, m, d, k, e);
    }
    KeptUpTo((m: nat) => m <= |evs| && HoldsOnly(At(evs, m), d, k, e), a + 1, n);
  }

  /** The check of a caller that holds nothing but an entry is a check of this entry. */
  lemma CheckIsOfHeld(s: State, d: Caller, k: Key, e: EntryId)
    requires Inv(s) && Enabled(s, CheckFresh(d)) && HoldsOnly(s, d, k, e)
    ensures d in s.calls && s.calls[d].phase == Locked(e)
  {
  }

  /**
   Two callers of one key share one probe: if the slot keeps its entry between the end of the first
   one's probe and the check of the second one, who arrived later, and no caller of the key finds that
   probe too old, then the second one leaves with the first one's report, and nobody probed between.
   */
  lemma SecondCallerShares(evs: seq<Event>, i: nat, a: nat, j: nat, e: EntryId, k: Key, d: Caller, ttl: nat)
    requires Run(evs).Some? && i < a < j < |evs|
    requires FinishesOn(At(evs, i), evs[i], e) && At(evs, i).calls[evs[i].c].key == k
    requires evs[a] == Arrive(d, k, ttl) && evs[j] == CheckFresh(d)
    requires SlotKept(evs, k, e, i + 1, j) && Patient(evs, j, k, Clock(evs[..i]))
    ensures Run(evs[..j + 1]).Some?
    ensures PhaseOf(evs[..j + 1], d)
         == Some(Leaving(e, Outcome(Probe(evs[i].c, k, Clock(evs[..i]), evs[i].report), Clock(evs[..j]))))
    ensures forall n: nat | i < n < j :: !FinishesOn(At(evs, n), evs[n], e)
  {
    var p := Probe(evs[i].c, k, Clock(evs[..i]), evs[i].report);
    FinishingSettles(evs, i, e);
    forall n: nat | i < n < j ensures !FinishesOn(At(evs, n), evs[n], e) {
      SettledFor(evs, i + 1, n, j, k, e, p);
      assert HasSlot(At(evs, n), k, e);
      SettledAfter(evs, n, j, k, e, p);
    }
    SettledFor(evs, i + 1, j, j, k, e, p);
    assert SlotKept(evs, k, e, a, j);
    HoldsTheSlot(evs, a, j, d, k, ttl, e);
    assert evs[..j][a] == Arrive(d, k, ttl);
    SharedCheck(evs, a, j, e, k, d, ttl, p);
  }

  lemma ChecksHeld(evs: seq<Event>, j: nat, k: Key, d: Caller, e: EntryId)
    requires Run(evs).Some? && j < |evs| && evs[j] == CheckFresh(d) && HoldsOnly(At(evs, j), d, k, e)
    ensures Run(evs[..j]).Some? && PhaseOf(evs[..j], d) == Some(Locked(e))
  {
    StepAt(evs, j);
    CheckIsOfHeld(At(evs, j), d, k, e);
  }

  lemma SharedCheck(evs: seq<Event>, a: nat, j: nat, e: EntryId, k: Key, d: Caller, ttl: nat, p: Probe)
    requires Run(evs).Some? && a < j < |evs| && evs[a] == Arrive(d, k, ttl) && evs[j] == CheckFresh(d)
    requires HoldsOnly(At(evs, j), d, k, e) && CachedIn(At(evs, j).heap, e) == Some(p)
    requires Clock(evs[..j]) < p.checkedAt + ttl
    ensures Run(evs[..j + 1]).Some? && PhaseOf(evs[..j + 1], d) == Some(Leaving(e, Outcome(p, Clock(evs[..j]))))
  {
    ChecksHeld(evs, j, k, d, e);
    assert evs[..j][a] == Arrive(d, k, ttl);
    CachedIsLastFinished(evs[..j], e);
    FreshIsServedExactly(evs[..j], d, k, ttl, e);
    assert evs[..j] + [CheckFresh(d)] == evs[..j + 1];
  }

  // ---------------------------------------------------------------- when a slot goes

  /** The last time in a run at which a caller got the entry of a key from the map. */
  ghost function LastUsed(evs: seq<Event>, k: Key): Option<nat>
    requires Run(evs).Some?
  {
    if evs == [] then None
    else
      LastStep(evs);
      var front, last := evs[..|evs| - 1], evs[|evs| - 1];
      if Obtains(Run(front).value, last, k) then Some(Clock(front)) else LastUsed(front, k)
  }

  lemma UsedStep(s: State, ev: Event, k: Key)
    requires Inv(s) && Enabled(s, ev) && k in Apply(s, ev).slots
    ensures Obtains(s, ev, k) ==> Apply(s, ev).slots[k].lastAccessed == s.now
    ensures !Obtains(s, ev, k) ==> k in s.slots && Apply(s, ev).slots[k].lastAccessed == s.slots[k].lastAccessed
  {
  }

  lemma LastUses(evs: seq<Event>, k: Key)
    requires Run(evs).Some? && evs != [] && k in Run(evs).value.slots
    ensures var front, last := evs[..|evs| - 1], evs[|evs| - 1];
            && Run(front).Some? && Enabled(Run(front).value, last)
            && (if Obtains(Run(front).value, last, k) then Run(evs).value.slots[k].lastAccessed == Run(front).value.now
                else k in Run(front).value.slots
                     && Run(evs).value.slots[k].lastAccessed == Run(front).value.slots[k].lastAccessed)
  {
    LastStep(evs);
    UsedStep(Run(evs[..|evs| - 1]).value, evs[|evs| - 1], k);
  }

  /** A slot carries the time at which its key was last used. */
  lemma {:induction false} SlotsKnowTheirLastUse(evs: seq<Event>, k: Key)
    requires Run(evs).Some? && k in Run(evs).value.slots
    ensures LastUsed(evs, k) == Some(Run(evs).value.slots[k].lastAccessed)
  {
    var front := evs[..|evs| - 1];
    LastUses(evs, k);
    ClockIs(front);
    if !Obtains(Run(front).value, evs[|evs| - 1], k) { SlotsKnowTheirLastUse(front, k); }
  }

  /** Whoever looks for a victim does so in a full map. */
  ghost predicate ScansFullMap(s: State) {
    forall c <- s.calls :: s.calls[c].phase.Scan? ==> |s.slots| == 256
  }

  predicate ByMapOwner(ev: Event) {
    ev.SweepSlot? || ev.Lookup? || ev.Replace?
  }

  lemma OthersLeaveSlots(s: State, ev: Event, c: Caller)
    requires Inv(s) && Enabled(s, ev) && !ByMapOwner(ev)
    requires c in Apply(s, ev).calls && Apply(s, ev).calls[c].phase.Scan?
    ensures Apply(s, ev).slots == s.slots && c in s.calls && s.calls[c].phase.Scan?
  {
  }

  /** Only the owner of the map changes its slots, and it starts to scan only a full one. */
  lemma OwnerScans(s: State, ev: Event, c: Caller)
    requires Inv(s) && Enabled(s, ev) && ByMapOwner(ev)
    requires c in Apply(s, ev).calls && Apply(s, ev).calls[c].phase.Scan?
    ensures ev == Lookup(c) && Apply(s, ev).slots == s.slots && |s.slots| == 256
  {
    assert CallOk(s, ev.c);
    if c in s.calls { assert CallOk(s, c); }
  }

  lemma FullStep(s: State, ev: Event)
    requires Inv(s) && Enabled(s, ev) && ScansFullMap(s)
    ensures ScansFullMap(Apply(s, ev))
  {
    var t := Apply(s, ev);
    forall c <- t.calls | t.calls[c].phase.Scan? ensures |t.slots| == 256 {
      if ByMapOwner(ev) { OwnerScans(s, ev, c); } else { OthersLeaveSlots(s, ev, c); }
    }
  }

  lemma {:induction false} AlwaysScansFullMap(evs: seq<Event>)
    requires Run(evs).Some?
    ensures ScansFullMap(Run(evs).value)
  {
    if evs != [] {
      LastStep(evs);
      AlwaysScansFullMap(evs[..|evs| - 1]);
      FullStep(Run(evs[..|evs| - 1]).value, evs[|evs| - 1]);
    }
  }

  /** Some caller uses the entry that the map has for a key. */
  ghost predicate InUse(s: State, k: Key)
    requires k in s.slots
  {
    exists d :: ActiveOn(s, d, k, s.slots[k].entry)
  }

  lemma LeavingStep(s: State, ev: Event, k: Key)
    requires Inv(s) && Enabled(s, ev) && k in s.slots
    ensures k !in Apply(s, ev).slots <==>
      || (ev.SweepSlot? && ev.k == k && !InUse(s, k) && s.now >= s.slots[k].lastAccessed + s.calls[ev.c].ttl)
      || (ev.Replace? && ev.victim == k)
  {
    assert SlotOk(s, k);
    if ev.SweepSlot? && ev.k == k {
      SweepKeepsIffUsed(s, ev.c, k);
      forall d <- s.calls | Held(s.calls[d].phase) == Some(s.slots[k].entry) ensures ActiveOn(s, d, k, s.slots[k].entry) {
        assert CallOk(s, d);
      }
    } else if ev.Replace? {
      assert CallOk(s, ev.c);
    }
  }

  /**
   Exactly when a key loses its slot, over every run: a sweep finds it unused, by callers and for the
   ttl of the sweeping one, or the map is full and it makes room for another key.
   */
  lemma SlotGoesExactly(evs: seq<Event>, ev: Event, k: Key)
    requires Run(evs).Some? && Enabled(Run(evs).value, ev) && k in Run(evs).value.slots
    ensures Run(evs + [ev]).Some? && LastUsed(evs, k).Some?
    ensures var s := Run(evs).value;
      k !in Run(evs + [ev]).value.slots <==>
        || (ev.SweepSlot? && ev.k == k && !InUse(s, k)
            && exists key, ttl :: Arrive(ev.c, key, ttl) in evs && Clock(evs) >= LastUsed(evs, k).value + ttl)
        || (ev.Replace? && ev.victim == k)
    ensures ev.Replace? ==> |Run(evs).value.slots| == 256
  {
    var s := Run(evs).value;
    OneMore(evs, ev);
    SlotsKnowTheirLastUse(evs, k);
    ClockIs(evs);
    LeavingStep(s, ev, k);
    AlwaysScansFullMap(evs);
    if ev.SweepSlot? { TtlOfCall(evs, ev.c, LastUsed(evs, k).value); }
  }

  lemma TtlOfCall(evs: seq<Event>, c: Caller, since: nat)
    requires Run(evs).Some? && c in Run(evs).value.calls
    ensures Clock(evs) >= since + Run(evs).value.calls[c].ttl <==>
            exists key, ttl :: Arrive(c, key, ttl) in evs && Clock(evs) >= since + ttl
  {
    var call := Run(evs).value.calls[c];
    CallsAreArrivals(evs, c, call.key, call.ttl);
    forall key, ttl | Arrive(c, key, ttl) in evs ensures ttl == call.ttl { CallsAreArrivals(evs, c, key, ttl); }
  }

  // ---------------------------------------------------------------- every call can finish

  /** The lock of an entry becomes free by steps of its owner, and another caller stays where it was. */
  lemma LockBecomesFree(s: State, c: Caller, e: EntryId) returns (evs: seq<Event>, t: State)
    requires Inv(s) && c in s.calls && s.calls[c].phase == WaitEntry(e) && e < |s.heap|
    ensures Exec(Next, s, evs) == Some(t) && Inv(t)
    ensures c in t.calls && t.calls[c] == s.calls[c] && e < |t.heap| && t.heap[e].lock.None?
  {
    assert EntryOk(s, e);
    if s.heap[e].lock.None? {
      return [], s;
    }
    var d := s.heap[e].lock.value;
    evs, t := [], s;
    if s.calls[d].phase.Locked? {
      NextIs(s, CheckFresh(d));
      evs, t := [CheckFresh(d)], Apply(s, CheckFresh(d));
    }
    if t.calls[d].phase.Probing? {
      NextIs(t, FinishProbe(d, 0));
      ExecConcat(Next, s, evs, [FinishProbe(d, 0)]);
      evs, t := evs + [FinishProbe(d, 0)], Apply(t, FinishProbe(d, 0));
    }
  }

  function Left(p: Phase): nat {
    match p
    case Done(_) => 0
    case Cancelled => 0
    case Leaving(_, _) => 1
    case Probing(_) => 2
    case Locked(_) => 3
    case WaitEntry(_) => 4
    case _ => 5
  }

  lemma OneStep(s: State, ev: Event, c: Caller) returns (evs: seq<Event>, t: State)
    requires Inv(s) && Enabled(s, ev) && ev in {TakeEntry(c), CheckFresh(c), FinishProbe(c, 0), DropReference(c)}
    ensures Exec(Next, s, evs) == Some(t) && Inv(t) && evs == [ev]
    ensures c in s.calls && c in t.calls && Left(t.calls[c].phase) < Left(s.calls[c].phase)
  {
    NextIs(s, ev);
    evs, t := [ev], Apply(s, ev);
  }

  lemma TakesItsTurn(s: State, c: Caller, e: EntryId) returns (evs: seq<Event>, t: State)
    requires Inv(s) && c in s.calls && s.calls[c].phase == WaitEntry(e) && e < |s.heap|
    ensures Exec(Next, s, evs) == Some(t) && Inv(t)
    ensures c in t.calls && Left(t.calls[c].phase) < Left(s.calls[c].phase)
  {
    var first, u := LockBecomesFree(s, c, e);
    var last;
    last, t := OneStep(u, TakeEntry(c), c);
    ExecConcat(Next, s, first, last);
    evs := first + last;
  }

  lemma GetsIn(s: State, c: Caller) returns (evs: seq<Event>, t: State)
    requires Inv(s) && c in s.calls && s.calls[c].phase.WaitMap?
    ensures Exec(Next, s, evs) == Some(t) && Inv(t)
    ensures c in t.calls && t.calls[c].phase.WaitEntry?
  {
    evs, t := LookupNeverWaitsForProbes(s, c);
    ExecKeepsInv(s, evs);
  }

  /** What brings a caller on: its next step, after those it waits for. */
  lemma Advance(s: State, c: Caller) returns (evs: seq<Event>, t: State)
    requires Inv(s) && c in s.calls && Left(s.calls[c].phase) > 0
    ensures Exec(Next, s, evs) == Some(t) && Inv(t)
    ensures c in t.calls && Left(t.calls[c].phase) < Left(s.calls[c].phase)
  {
    assert CallOk(s, c);
    match s.calls[c].phase
    case WaitMap => evs, t := GetsIn(s, c);
    case WaitEntry(e) => evs, t := TakesItsTurn(s, c, e);
    case Locked(_) => evs, t := OneStep(s, CheckFresh(c), c);
    case Probing(_) => evs, t := OneStep(s, FinishProbe(c, 0), c);
    case Leaving(_, _) => evs, t := OneStep(s, DropReference(c), c);
    case _ => evs, t := FinishWalk(s, c);
  }

  /** No deadlock: from every reachable state, every caller can be brought to its end. */
  lemma {:induction false} EveryCallCanFinish(s: State, c: Caller) returns (evs: seq<Event>, t: State)
    requires Inv(s) && c in s.calls
    ensures Exec(Next, s, evs) == Some(t)
    ensures c in t.calls && (t.calls[c].phase.Done? || t.calls[c].phase.Cancelled?)
    decreases Left(s.calls[c].phase)
  {
    if Left(s.calls[c].phase) == 0 {
      evs, t := [], s;
    } else {
      var first, u := Advance(s, c);
      var rest;
      rest, t := EveryCallCanFinish(u, c);
      ExecConcat(Next, s, first, rest);
      evs := first + rest;
    }
  }
}
