/**
 Finite runs of a state machine given by a partial step function: the events of a run
 are taken one after the other, and a run is undefined once an event is not enabled.
 */
module Runs {
  import opened Options

  ghost function Exec<S, E>(step: (S, E) -> Option<S>, s: S, evs: seq<E>): Option<S>
    decreases |evs|
  {
    if evs == [] then Some(s)
    else if step(s, evs[0]).Some? then Exec(step, step(s, evs[0]).value, evs[1..])
    else None
  }

  lemma {:induction false} ExecConcat<S, E>(step: (S, E) -> Option<S>, s: S, first: seq<E>, second: seq<E>)
    requires Exec(step, s, first).Some?
    ensures Exec(step, s, first + second) == Exec(step, Exec(step, s, first).value, second)
    decreases |first|
  {
    if first == [] {
      assert first + second == second;
    } else {
      ExecConcat(step, step(s, first[0]).value, first[1..], second);
      assert (first + second)[1..] == first[1..] + second;
    }
  }

  lemma ExecOne<S, E>(step: (S, E) -> Option<S>, s: S, ev: E)
    ensures Exec(step, s, [ev]) == step(s, ev)
  {
    if step(s, ev).Some? {
      assert Exec(step, step(s, ev).value, []) == step(s, ev);
    }
  }

  /** What every step keeps, every run keeps. */
  lemma {:induction false} ExecKeeps<S(!new), E(!new)>(
      step: (S, E) -> Option<S>, inv: S -> bool, s: S, evs: seq<E>)
    requires inv(s) && Exec(step, s, evs).Some?
    requires forall t, ev :: inv(t) && step(t, ev).Some? ==> inv(step(t, ev).value)
    ensures inv(Exec(step, s, evs).value)
    decreases |evs|
  {
    if evs != [] {
      ExecKeeps(step, inv, step(s, evs[0]).value, evs[1..]);
    }
  }

  /** Every prefix of a run is a run. */
  lemma {:induction false} ExecPrefix<S, E>(step: (S, E) -> Option<S>, s: S, evs: seq<E>, n: nat)
    requires n <= |evs| && Exec(step, s, evs).Some?
    ensures Exec(step, s, evs[..n]).Some?
    decreases n
  {
    if n > 0 {
      assert evs[..n][1..] == evs[1..][..n - 1];
      ExecPrefix(step, step(s, evs[0]).value, evs[1..], n - 1);
    }
  }

  /** The last event of a run is a step from where the rest of it ends. */
  lemma ExecLast<S, E>(step: (S, E) -> Option<S>, s: S, evs: seq<E>)
    requires evs != [] && Exec(step, s, evs).Some?
    ensures var front := Exec(step, s, evs[..|evs| - 1]);
            front.Some? && step(front.value, evs[|evs| - 1]) == Exec(step, s, evs)
  {
    var n := |evs| - 1;
    ExecPrefix(step, s, evs, n);
    assert evs == evs[..n] + [evs[n]];
    ExecConcat(step, s, evs[..n], [evs[n]]);
    ExecOne(step, Exec(step, s, evs[..n]).value, evs[n]);
  }

  /** What holds at one point and is kept from each point to the next holds at every later one. */
  lemma {:induction false} KeptUpTo(p: nat -> bool, i: nat, n: nat)
    requires i <= n && p(i) && forall m: nat | i <= m < n && p(m) :: p(m + 1)
    ensures p(n)
  {
    if i < n { KeptUpTo(p, i, n - 1); }
  }
}
