/** Health ticks of one process with raft disabled. Each tick runs in its own goroutine, so ticks overlap: between
    reading the flag at its start, storing the answer of its election attempt, and reading the flag again to decide
    whether to register, other ticks may store theirs. The answers are arbitrary here. */
module TickOverlap {

  datatype Live = Live(wasElected: bool, stored: bool)

  /** `rises` counts how often the flag has gone up, `registrations` how often a tick has registered the node. */
  datatype State = State(flag: bool, live: map<nat, Live>, rises: nat, registrations: nat)

  datatype Action = Starts(id: nat) | Stores(id: nat, elected: bool) | Ends(id: nat)

  const INITIAL := State(false, map[], 0, 0)

  function Step(s: State, a: Action): State {
    match a
    case Starts(id) => if id in s.live then s else s.(live := s.live[id := Live(s.flag, false)])
    case Stores(id, elected) =>
      if id !in s.live || s.live[id].stored then s
      else s.(flag := elected, live := s.live[id := s.live[id].(stored := true)],
              rises := s.rises + if elected && !s.flag then 1 else 0)
    case Ends(id) =>
      if id !in s.live || !s.live[id].stored then s
      else s.(live := s.live - {id},
              registrations := s.registrations + if s.flag && !s.live[id].wasElected then 1 else 0)
  }

  function Run(actions: seq<Action>): State {
    if actions == [] then INITIAL else Step(Run(actions[..|actions| - 1]), actions[|actions| - 1])
  }

  /** The ticks in flight that found the flag down. */
  function Waiting(s: State): set<nat> {
    set id: nat | id in s.live && !s.live[id].wasElected
  }

  // ---------------------------------------------------------------------------------------------
  // A bound on registrations

  /** Every rise of the flag pays for one registration of each tick in flight at that time. */
  ghost predicate Paid(s: State, c: nat) {
    s.registrations + (if s.flag then |Waiting(s)| else 0) <= c * s.rises
  }

  lemma SubsetSize<T>(a: set<T>, b: set<T>)
    requires a <= b
    ensures |a| <= |b|
  {
    assert b == a + (b - a);
  }

  lemma StartsKeepsPaid(s: State, id: nat, c: nat)
    requires Paid(s, c)
    ensures Paid(Step(s, Starts(id)), c)
  {
    if s.flag && id !in s.live {
      assert Waiting(Step(s, Starts(id))) == Waiting(s);
    }
  }

  lemma {:induction false} StoresKeepsPaid(s: State, id: nat, elected: bool, c: nat)
    requires Paid(s, c) && |Step(s, Stores(id, elected)).live| <= c
    ensures Paid(Step(s, Stores(id, elected)), c)
  {
    var t := Step(s, Stores(id, elected));
    assert Waiting(t) == Waiting(s);
    SubsetSize(Waiting(t), t.live.Keys);
    assert c * (s.rises + 1) == c * s.rises + c;
  }

  lemma EndsKeepsPaid(s: State, id: nat, c: nat)
    requires Paid(s, c)
    ensures Paid(Step(s, Ends(id)), c)
  {
    var t := Step(s, Ends(id));
    if t != s {
      assert Waiting(t) == Waiting(s) - {id};
    }
  }

  lemma {:induction false} StepKeepsPaid(s: State, a: Action, c: nat)
    requires Paid(s, c) && |Step(s, a).live| <= c
    ensures Paid(Step(s, a), c)
  {
    match a
    case Starts(id) => StartsKeepsPaid(s, id, c);
    case Stores(id, elected) => StoresKeepsPaid(s, id, elected, c);
    case Ends(id) => EndsKeepsPaid(s, id, c);
  }

  /** At no time are more than `c` ticks in flight. */
  ghost predicate Overlapping(actions: seq<Action>, c: nat) {
    forall n :: 0 <= n <= |actions| ==> |Run(actions[..n]).live| <= c
  }

  lemma {:induction false} RunIsPaid(actions: seq<Action>, c: nat)
    requires Overlapping(actions, c)
    ensures Paid(Run(actions), c)
  {
    if actions != [] {
      var front := actions[..|actions| - 1];
      assert Overlapping(front, c) by {
        forall n | 0 <= n <= |front|
          ensures |Run(front[..n]).live| <= c
        {
          assert front[..n] == actions[..n];
        }
      }
      RunIsPaid(front, c);
      assert actions[..|actions|] == actions;
      StepKeepsPaid(Run(front), actions[|actions| - 1], c);
    }
  }

  /** In every run in which at most `c` ticks overlap, the node registers at most `c` times for each rise of its
      flag; if ticks do not overlap, at most once. */
  lemma {:induction false} RegistrationsPerRise(actions: seq<Action>, c: nat)
    requires Overlapping(actions, c)
    ensures Run(actions).registrations <= c * Run(actions).rises
    ensures c == 1 ==> Run(actions).registrations <= Run(actions).rises
  {
    RunIsPaid(actions, c);
  }

  // ---------------------------------------------------------------------------------------------
  // The bound is attained

  lemma RunExtends(actions: seq<Action>, a: Action)
    ensures Run(actions + [a]) == Step(Run(actions), a)
  {
    assert (actions + [a])[..|actions|] == actions;
  }

  /** What a wave of ticks starts from: its own ticks are counted on top of this. */
  datatype Base = Base(rises: nat, registrations: nat)

  /** The ticks from `ended` up to `started` are in flight, all found the flag down, and those below `stored` have
      stored a true answer. */
  ghost predicate Wave(s: State, base: Base, started: nat, stored: nat, ended: nat) {
    && s.flag == (stored > 0) && s.rises == base.rises + (if stored > 0 then 1 else 0)
    && s.registrations == base.registrations + ended
    && (forall id: nat :: id in s.live <==> ended <= id < started)
    && (forall id: nat :: ended <= id < started ==> s.live[id] == Live(false, id < stored))
  }

  lemma {:induction false} FewBelow(ids: set<nat>, c: nat)
    requires forall id :: id in ids ==> id < c
    ensures |ids| <= c
  {
    if c > 0 {
      FewBelow(ids - {c - 1}, c - 1);
    } else {
      assert ids == {};
    }
  }

  lemma OverlapExtends(actions: seq<Action>, a: Action, c: nat)
    requires Overlapping(actions, c) && forall id :: id in Run(actions + [a]).live ==> id < c
    ensures Overlapping(actions + [a], c)
  {
    FewBelow(Run(actions + [a]).live.Keys, c);
    forall n | 0 <= n <= |actions| + 1
      ensures |Run((actions + [a])[..n]).live| <= c
    {
      if n <= |actions| {
        assert (actions + [a])[..n] == actions[..n];
      } else {
        assert (actions + [a])[..n] == actions + [a];
      }
    }
  }

  lemma WaveStep(actions: seq<Action>, a: Action, c: nat, base: Base, started: nat, stored: nat, ended: nat)
    requires Overlapping(actions, c) && Wave(Step(Run(actions), a), base, started, stored, ended) && started <= c
    ensures Overlapping(actions + [a], c) && Wave(Run(actions + [a]), base, started, stored, ended)
  {
    RunExtends(actions, a);
    OverlapExtends(actions, a, c);
  }

  lemma WaveRises(t: State, base: Base, c: nat, i: nat)
    ensures Wave(t, base, i, 0, 0) ==> Wave(Step(t, Starts(i)), base, i + 1, 0, 0)
    ensures i < c && Wave(t, base, c, i, 0) ==> Wave(Step(t, Stores(i, true)), base, c, i + 1, 0)
  {
  }

  lemma WaveFalls(t: State, base: Base, c: nat, i: nat)
    requires i < c && Wave(t, base, c, c, i)
    ensures Wave(Step(t, Ends(i)), base, c, c, i + 1)
  {
  }

  /** No tick is in flight. */
  ghost predicate Resting(s: State, flag: bool, rises: nat, registrations: nat) {
    s == State(flag, map[], rises, registrations)
  }

  /** From rest with the flag down, `c` overlapping ticks raise it once and all register. */
  lemma WholeWave(actions: seq<Action>, c: nat, base: Base) returns (more: seq<Action>)
    requires c > 0 && Overlapping(actions, c) && Resting(Run(actions), false, base.rises, base.registrations)
    ensures Overlapping(more, c) && Resting(Run(more), true, base.rises + 1, base.registrations + c)
  {
    more := actions;
    for i := 0 to c
      invariant Overlapping(more, c) && Wave(Run(more), base, i, 0, 0)
    {
      WaveRises(Run(more), base, c, i);
      WaveStep(more, Starts(i), c, base, i + 1, 0, 0);
      more := more + [Starts(i)];
    }
    for i := 0 to c
      invariant Overlapping(more, c) && Wave(Run(more), base, c, i, 0)
    {
      WaveRises(Run(more), base, c, i);
      WaveStep(more, Stores(i, true), c, base, c, i + 1, 0);
      more := more + [Stores(i, true)];
    }
    for i := 0 to c
      invariant Overlapping(more, c) && Wave(Run(more), base, c, c, i)
    {
      WaveFalls(Run(more), base, c, i);
      WaveStep(more, Ends(i), c, base, c, c, i + 1);
      more := more + [Ends(i)];
    }
    assert Run(more).live == map[];
  }

  /** A single tick that is not elected takes the flag down and does not register. */
  lemma TickLowers(actions: seq<Action>, c: nat, flag: bool, rises: nat, registrations: nat) returns (more: seq<Action>)
    requires c > 0 && Overlapping(actions, c) && Resting(Run(actions), flag, rises, registrations)
    ensures Overlapping(more, c) && Resting(Run(more), false, rises, registrations)
  {
    RunExtends(actions, Starts(0));
    OverlapExtends(actions, Starts(0), c);
    more := actions + [Starts(0)];
    assert Run(more) == State(flag, map[0 := Live(flag, false)], rises, registrations);
    RunExtends(more, Stores(0, false));
    OverlapExtends(more, Stores(0, false), c);
    more := more + [Stores(0, false)];
    assert Run(more) == State(false, map[0 := Live(flag, true)], rises, registrations);
    RunExtends(more, Ends(0));
    OverlapExtends(more, Ends(0), c);
    more := more + [Ends(0)];
    assert Run(more).live == map[];
  }

  /** The bound is attained: however many ticks may overlap and however often the flag rises, all of them may
      register at every rise. */
  lemma {:induction false} OverlappingTicksMayAllRegister(c: nat, r: nat) returns (actions: seq<Action>)
    requires c > 0
    ensures Overlapping(actions, c) && Run(actions).rises == r && Run(actions).registrations == c * r
  {
    actions := [];
    var registrations := 0;
    var flag := false;
    for i := 0 to r
      invariant Overlapping(actions, c) && Resting(Run(actions), flag, i, registrations) && registrations == c * i
    {
      actions := TickLowers(actions, c, flag, i, registrations);
      actions := WholeWave(actions, c, Base(i, registrations));
      assert c * (i + 1) == c * i + c;
      flag, registrations := true, registrations + c;
    }
  }
}
