/** The cross-process build lock: a directory whose creation is the lock, an owner file inside it,
    and recovery of locks whose owner is dead or whose owner file cannot be read and is old.
    Any number of processes interleave; each file-system call and each liveness probe is one atomic
    step; a process may exit at any step. `incarnation` numbers the successful creations and `makers`
    records who made each. */
module BuildLock {
  import opened Wrappers

  type Pid = nat

  datatype Pc =
    | Trying
    | Made(incarnation: nat)
    | Holding(incarnation: nat)
    | RollingBack(incarnation: nat)
    | Refused
    | Probing(owner: Pid, incarnation: nat)
    | Checking
    | Removing(incarnation: nat, byAge: bool)
    | Sleeping
    | Finished

  datatype Dir = Dir(incarnation: nat, owner: Option<Pid>)

  datatype State = State(lock: Option<Dir>, procs: map<Pid, Pc>, alive: set<Pid>, makers: seq<Pid>)

  datatype Action =
    | Mkdir(p: Pid)
    | WriteOwner(p: Pid, written: bool)
    | RollBack(p: Pid)
    | ReadOwner(p: Pid, readable: bool)
    | Probe(p: Pid)
    | StatDir(p: Pid, aged: bool)
    | Remove(p: Pid)
    | Wake(p: Pid)
    | TimeOut(p: Pid)
    | Release(p: Pid)
    | Again(p: Pid)
    | Exit(p: Pid)

  function Start(pids: set<Pid>): State {
    State(None, map p | p in pids :: Trying, pids, [])
  }

  /** Between the successful creation and the end of the removal that gives the lock up. */
  predicate Critical(pc: Pc) {
    pc.Made? || pc.Holding? || pc.RollingBack?
  }

  predicate Can(s: State, a: Action) {
    a.p in s.procs && a.p in s.alive &&
    var pc := s.procs[a.p];
    match a
    case Mkdir(_) => pc.Trying?
    case WriteOwner(_, _) => pc.Made?
    case RollBack(_) => pc.RollingBack?
    case ReadOwner(_, _) => pc.Refused?
    case Probe(_) => pc.Probing?
    case StatDir(_, _) => pc.Checking?
    case Remove(_) => pc.Removing?
    case Wake(_) => pc.Sleeping?
    case TimeOut(_) => pc.Refused?
    case Release(_) => pc.Holding?
    case Again(_) => pc.Finished?
    case Exit(_) => true
  }

  function Goto(s: State, p: Pid, pc: Pc): State {
    s.(procs := s.procs[p := pc])
  }

  function Do(s: State, a: Action): State
    requires Can(s, a)
  {
    var pc := s.procs[a.p];
    match a
    case Mkdir(p) =>
      if s.lock.Some? then Goto(s, p, Refused)
      else Goto(s.(lock := Some(Dir(|s.makers|, None)), makers := s.makers + [p]), p, Made(|s.makers|))
    case WriteOwner(p, written) =>
      // The path may by now lead into another process's directory, or nowhere.
      if written && s.lock.Some?
      then Goto(s.(lock := Some(s.lock.value.(owner := Some(p)))), p, Holding(pc.incarnation))
      else Goto(s, p, RollingBack(pc.incarnation))
    case RollBack(p) => Goto(s.(lock := None), p, Finished)
    case ReadOwner(p, readable) =>
      if readable && s.lock.Some? && s.lock.value.owner.Some?
      then Goto(s, p, Probing(s.lock.value.owner.value, s.lock.value.incarnation))
      else Goto(s, p, Checking)
    case Probe(p) =>
      Goto(s, p, if pc.owner in s.alive then Sleeping else Removing(pc.incarnation, false))
    case StatDir(p, aged) =>
      Goto(s, p, if aged && s.lock.Some? then Removing(s.lock.value.incarnation, true) else Sleeping)
    case Remove(p) => Goto(s.(lock := None), p, Trying)
    case Wake(p) => Goto(s, p, Trying)
    case TimeOut(p) => Goto(s, p, Finished)
    case Release(p) => Goto(s.(lock := None), p, Finished)
    case Again(p) => Goto(s, p, Trying)
    case Exit(p) => s.(alive := s.alive - {p})
  }

  predicate InCritical(s: State, p: Pid) {
    p in s.procs && p in s.alive && Critical(s.procs[p])
  }

  ghost predicate Exclusive(s: State) {
    forall p, q | InCritical(s, p) && InCritical(s, q) :: p == q
  }

  /** A removal hits the incarnation it judged, or nothing; one judged by age alone hits a lock whose
      maker is gone. Every other step is unrestricted. */
  predicate Judged(s: State, a: Action)
    requires Can(s, a)
  {
    a.Remove? ==>
      var Removing(i, byAge) := s.procs[a.p];
      s.lock.None? || (s.lock.value.incarnation == i && (byAge ==> i < |s.makers| && s.makers[i] !in s.alive))
  }

  function Play(s: State, acts: seq<Action>): Option<State>
    decreases |acts|
  {
    if acts == [] then Some(s)
    else if Can(s, acts[0]) then Play(Do(s, acts[0]), acts[1..])
    else None
  }

  ghost predicate AllJudged(s: State, acts: seq<Action>)
    requires Play(s, acts).Some?
    decreases |acts|
  {
    acts == [] || (Judged(s, acts[0]) && AllJudged(Do(s, acts[0]), acts[1..]))
  }

  // The invariant

  /** A live process in its critical section made the lock that is there now. */
  ghost predicate Owns(s: State, p: Pid) {
    InCritical(s, p) ==>
      && s.lock.Some? && s.lock.value.incarnation == s.procs[p].incarnation
      && s.lock.value.incarnation < |s.makers| && s.makers[s.lock.value.incarnation] == p
  }

  ghost predicate OwnerIsMaker(s: State) {
    s.lock.Some? ==>
      && s.lock.value.incarnation < |s.makers|
      && (s.lock.value.owner.Some? ==> s.lock.value.owner.value == s.makers[s.lock.value.incarnation])
  }

  /** A judgement in progress is about the maker of the incarnation it names. */
  ghost predicate JudgesMaker(s: State, p: Pid) {
    p in s.procs ==>
      match s.procs[p]
      case Probing(owner, i) => i < |s.makers| && owner == s.makers[i]
      case Removing(i, byAge) => i < |s.makers| && (byAge || s.makers[i] !in s.alive)
      case _ => true
  }

  /** The lock that is there belongs to the process inside, and its owner file to its maker. */
  ghost predicate Kept(s: State) {
    OwnerIsMaker(s) && forall p :: Owns(s, p)
  }

  ghost predicate Inv(s: State) {
    Kept(s) && forall p :: JudgesMaker(s, p)
  }

  lemma InvExclusive(s: State)
    requires Kept(s)
    ensures Exclusive(s)
  {
    forall p, q | InCritical(s, p) && InCritical(s, q)
      ensures p == q
    {
      assert Owns(s, p) && Owns(s, q);
    }
  }

  /** A removal does not take the lock of a live process that is inside. Every other step is unrestricted. */
  predicate Sparing(s: State, a: Action)
    requires OwnerIsMaker(s) && Can(s, a)
  {
    a.Remove? ==> !(s.lock.Some? && InCritical(s, s.makers[s.lock.value.incarnation]))
  }

  lemma JudgedIsSparing(s: State, a: Action)
    requires Inv(s) && Can(s, a) && Judged(s, a)
    ensures Sparing(s, a)
  {
    assert JudgesMaker(s, a.p);
  }

  lemma OwnsKept(s: State, a: Action, q: Pid)
    requires Kept(s) && Can(s, a) && Sparing(s, a)
    ensures Owns(Do(s, a), q)
  {
    assert Owns(s, q) && Owns(s, a.p);
  }

  lemma OwnerKept(s: State, a: Action)
    requires Kept(s) && Can(s, a) && Sparing(s, a)
    ensures OwnerIsMaker(Do(s, a))
  {
    assert Owns(s, a.p);
  }

  lemma JudgesKept(s: State, a: Action, q: Pid)
    requires Inv(s) && Can(s, a) && Judged(s, a)
    ensures JudgesMaker(Do(s, a), q)
  {
    assert JudgesMaker(s, q) && JudgesMaker(s, a.p);
  }

  lemma SparingKeeps(s: State, a: Action)
    requires Kept(s) && Can(s, a) && Sparing(s, a)
    ensures Kept(Do(s, a))
  {
    hide Can, Do, Owns, OwnerIsMaker, Sparing;
    OwnerKept(s, a);
    forall q
      ensures Owns(Do(s, a), q)
    {
      OwnsKept(s, a, q);
    }
  }

  lemma StepKeeps(s: State, a: Action)
    requires Inv(s) && Can(s, a) && Judged(s, a)
    ensures Inv(Do(s, a))
  {
    JudgedIsSparing(s, a);
    hide Kept, Judged, Can, Do, JudgesMaker, Sparing;
    SparingKeeps(s, a);
    forall q
      ensures JudgesMaker(Do(s, a), q)
    {
      JudgesKept(s, a, q);
    }
  }

  lemma {:induction false} PlayKeeps(s: State, acts: seq<Action>)
    requires Inv(s) && Play(s, acts).Some? && AllJudged(s, acts)
    ensures Inv(Play(s, acts).value)
    decreases |acts|
  {
    hide Inv, Do, Can, Judged;
    if acts == [] {
    } else {
      StepKeeps(s, acts[0]);
      PlayKeeps(Do(s, acts[0]), acts[1..]);
    }
  }

  /** Mutual exclusion for any number of processes, with exits at any point: it holds at the end of
      every run in which each stale-lock removal hits the incarnation it judged and age is only used
      against makers that are gone. */
  lemma MutualExclusion(pids: set<Pid>, acts: seq<Action>)
    requires Play(Start(pids), acts).Some? && AllJudged(Start(pids), acts)
    ensures Exclusive(Play(Start(pids), acts).value)
  {
    assert Inv(Start(pids));
    PlayKeeps(Start(pids), acts);
    InvExclusive(Play(Start(pids), acts).value);
  }

  /** The condition is the exact one: up to here the run was sound, and now a removal lets its own
      process in beside another exactly when the lock it removes is held by a live process. */
  lemma RemovalExact(s: State, p: Pid)
    requires Kept(s) && Can(s, Remove(p))
    ensures Can(Do(s, Remove(p)), Mkdir(p))
    ensures Exclusive(Do(Do(s, Remove(p)), Mkdir(p))) <==> Sparing(s, Remove(p))
  {
    var t := Do(Do(s, Remove(p)), Mkdir(p));
    assert InCritical(t, p);
    assert !InCritical(s, p);
    forall q | q != p
      ensures InCritical(t, q) <==> InCritical(s, q)
    {
    }
    if !Sparing(s, Remove(p)) {
      var q := s.makers[s.lock.value.incarnation];
      assert InCritical(t, q) && q != p;
    } else {
      forall q | InCritical(t, q)
        ensures q == p
      {
        assert Owns(s, q);
      }
    }
  }

  ghost predicate AllSparing(s: State, acts: seq<Action>)
    requires Play(s, acts).Some?
    decreases |acts|
  {
    acts == [] || (OwnerIsMaker(s) && Sparing(s, acts[0]) && AllSparing(Do(s, acts[0]), acts[1..]))
  }

  /** At no point of the run are two inside, nor would two be if whoever just removed a lock were next to make one. */
  ghost predicate AlwaysExclusive(s: State, acts: seq<Action>)
    requires Play(s, acts).Some?
    decreases |acts|
  {
    && Exclusive(s)
    && (acts != [] ==>
          && (acts[0].Remove? ==> Exclusive(Do(Do(s, acts[0]), Mkdir(acts[0].p))))
          && AlwaysExclusive(Do(s, acts[0]), acts[1..]))
  }

  lemma {:induction false} SparingExact(s: State, acts: seq<Action>)
    requires Kept(s) && Play(s, acts).Some?
    ensures AlwaysExclusive(s, acts) <==> AllSparing(s, acts)
    decreases |acts|
  {
    InvExclusive(s);
    if acts == [] {
    } else {
      if acts[0].Remove? {
        RemovalExact(s, acts[0].p);
      }
      if Sparing(s, acts[0]) {
        SparingKeeps(s, acts[0]);
        SparingExact(Do(s, acts[0]), acts[1..]);
      }
    }
  }

  /** The exact condition for whole runs, for any processes and any exits: exclusion holds throughout, whatever the
      removers do next, if and only if no removal takes the lock of a live process that is inside. */
  lemma ExclusionExact(pids: set<Pid>, acts: seq<Action>)
    requires Play(Start(pids), acts).Some?
    ensures AlwaysExclusive(Start(pids), acts) <==> AllSparing(Start(pids), acts)
  {
    assert Kept(Start(pids));
    SparingExact(Start(pids), acts);
  }

  // Runs that break exclusion

  lemma {:induction false} PlayThen(s: State, first: seq<Action>, rest: seq<Action>)
    requires Play(s, first).Some?
    ensures Play(s, first + rest) == Play(Play(s, first).value, rest)
    decreases |first|
  {
    if first == [] {
      assert first + rest == rest;
    } else {
      assert (first + rest)[1..] == first[1..] + rest;
      PlayThen(Do(s, first[0]), first[1..], rest);
    }
  }

  lemma PlayOne(s: State, a: Action)
    requires Can(s, a)
    ensures Play(s, [a]) == Some(Do(s, a))
  {
    assert [a][1..] == [];
  }

  lemma PlayTwo(s: State, a: Action, b: Action)
    requires Can(s, a) && Can(Do(s, a), b)
    ensures Play(s, [a, b]) == Some(Do(Do(s, a), b))
  {
    PlayOne(s, a);
    PlayThen(s, [a], [b]);
    PlayOne(Do(s, a), b);
    assert [a] + [b] == [a, b];
  }

  lemma GotoTwice(procs: map<Pid, Pc>, p: Pid, a: Pc, b: Pc)
    ensures procs[p := a][p := b] == procs[p := b]
  {
  }

  predicate Ready(s: State, p: Pid) {
    p in s.procs && p in s.alive && s.procs[p].Trying?
  }

  /** A free lock is taken and the owner file written. */
  function Taken(s: State, p: Pid): State {
    Goto(s.(lock := Some(Dir(|s.makers|, Some(p))), makers := s.makers + [p]), p, Holding(|s.makers|))
  }

  lemma Take(s: State, p: Pid)
    requires Ready(s, p) && s.lock.None?
    ensures Play(s, [Mkdir(p), WriteOwner(p, true)]) == Some(Taken(s, p))
  {
    PlayTwo(s, Mkdir(p), WriteOwner(p, true));
    GotoTwice(s.procs, p, Made(|s.makers|), Holding(|s.makers|));
  }

  /** A waiter finds the lock taken and reads who owns it. */
  lemma Ask(s: State, p: Pid)
    requires Ready(s, p) && s.lock.Some? && s.lock.value.owner.Some?
    ensures Play(s, [Mkdir(p), ReadOwner(p, true)]) ==
            Some(Goto(s, p, Probing(s.lock.value.owner.value, s.lock.value.incarnation)))
  {
    PlayTwo(s, Mkdir(p), ReadOwner(p, true));
    GotoTwice(s.procs, p, Refused, Probing(s.lock.value.owner.value, s.lock.value.incarnation));
  }

  /** A waiter finds the lock's owner dead. */
  lemma JudgeDead(s: State, p: Pid)
    requires Ready(s, p) && s.lock.Some? && s.lock.value.owner.Some? && s.lock.value.owner.value !in s.alive
    ensures Play(s, [Mkdir(p), ReadOwner(p, true)] + [Probe(p)]) ==
            Some(Goto(s, p, Removing(s.lock.value.incarnation, false)))
  {
    Ask(s, p);
    PlayThen(s, [Mkdir(p), ReadOwner(p, true)], [Probe(p)]);
    var asked := Probing(s.lock.value.owner.value, s.lock.value.incarnation);
    PlayOne(Goto(s, p, asked), Probe(p));
    GotoTwice(s.procs, p, asked, Removing(s.lock.value.incarnation, false));
  }

  /** In any state, two pending removals let both processes in, whatever was judged. */
  lemma TwoRemovals(s: State, p: Pid, q: Pid)
    requires p != q && Can(s, Remove(p)) && Can(s, Remove(q))
    ensures var end := Play(s, [Remove(p), Mkdir(p)] + [Remove(q), Mkdir(q)]);
            end.Some? && !Exclusive(end.value)
  {
    PlayTwo(s, Remove(p), Mkdir(p));
    var t := Do(Do(s, Remove(p)), Mkdir(p));
    PlayThen(s, [Remove(p), Mkdir(p)], [Remove(q), Mkdir(q)]);
    PlayTwo(t, Remove(q), Mkdir(q));
    var u := Do(Do(t, Remove(q)), Mkdir(q));
    assert InCritical(u, p) && InCritical(u, q);
  }

  /** Any two waiters that judge one dead owner end up in the critical section together. */
  lemma TwoWaiters(pids: set<Pid>, dead: Pid, p: Pid, q: Pid) returns (acts: seq<Action>)
    requires dead in pids && p in pids && q in pids && dead != p && dead != q && p != q
    ensures var end := Play(Start(pids), acts); end.Some? && !Exclusive(end.value)
  {
    hide Play;
    var s0 := Start(pids);
    var take := [Mkdir(dead), WriteOwner(dead, true)];
    var gone := [Exit(dead)];
    var judge1, judge2 := [Mkdir(p), ReadOwner(p, true)] + [Probe(p)], [Mkdir(q), ReadOwner(q, true)] + [Probe(q)];
    var both := [Remove(p), Mkdir(p)] + [Remove(q), Mkdir(q)];
    Take(s0, dead);
    var s1 := Taken(s0, dead);
    PlayOne(s1, Exit(dead));
    var s2 := Do(s1, Exit(dead));
    JudgeDead(s2, p);
    var s3 := Goto(s2, p, Removing(0, false));
    JudgeDead(s3, q);
    var s4 := Goto(s3, q, Removing(0, false));
    TwoRemovals(s4, p, q);
    acts := take + (gone + (judge1 + (judge2 + both)));
    PlayThen(s0, take, gone + (judge1 + (judge2 + both)));
    PlayThen(s1, gone, judge1 + (judge2 + both));
    PlayThen(s2, judge1, judge2 + both);
    PlayThen(s3, judge2, both);
  }

  /** One waiter is enough, and nobody need die holding the lock: the owner it read about releases and
      exits before the probe, another process takes the lock, and the waiter removes that one. */
  lemma OneWaiter(pids: set<Pid>, first: Pid, p: Pid, next: Pid) returns (acts: seq<Action>)
    requires first in pids && p in pids && next in pids && first != p && first != next && p != next
    ensures var end := Play(Start(pids), acts); end.Some? && !Exclusive(end.value)
  {
    hide Play;
    var s0 := Start(pids);
    var take1, take2 := [Mkdir(first), WriteOwner(first, true)], [Mkdir(next), WriteOwner(next, true)];
    var ask := [Mkdir(p), ReadOwner(p, true)];
    var leave := [Release(first), Exit(first)];
    var probe := [Probe(p)];
    var enter := [Remove(p), Mkdir(p)];
    Take(s0, first);
    var s1 := Taken(s0, first);
    Ask(s1, p);
    var s2 := Goto(s1, p, Probing(first, 0));
    PlayTwo(s2, Release(first), Exit(first));
    var s3 := Do(Do(s2, Release(first)), Exit(first));
    Take(s3, next);
    var s4 := Taken(s3, next);
    PlayOne(s4, Probe(p));
    var s5 := Do(s4, Probe(p));
    PlayTwo(s5, Remove(p), Mkdir(p));
    var s6 := Do(Do(s5, Remove(p)), Mkdir(p));
    assert InCritical(s6, p) && InCritical(s6, next);
    acts := take1 + (ask + (leave + (take2 + (probe + enter))));
    PlayThen(s0, take1, ask + (leave + (take2 + (probe + enter))));
    PlayThen(s1, ask, leave + (take2 + (probe + enter)));
    PlayThen(s2, leave, take2 + (probe + enter));
    PlayThen(s3, take2, probe + enter);
    PlayThen(s4, probe, enter);
  }

  // What each step does to the lock

  /** The directory is made only where there is none, its owner is set only by a process that made one, and giving up,
      rolling back and removing leave none behind. Nothing else touches it. */
  lemma LockExact(s: State, a: Action)
    requires Can(s, a)
    ensures var t := Do(s, a);
            && (a.Mkdir? ==> (t.procs[a.p].Made? <==> s.lock.None?) && (t.procs[a.p].Refused? <==> s.lock.Some?))
            && (a.Mkdir? && s.lock.None? ==> t.lock.Some? && t.lock.value.owner.None? && t.makers == s.makers + [a.p])
            && (a.WriteOwner? ==> (t.procs[a.p].Holding? <==> a.written && s.lock.Some?))
            && (a.WriteOwner? ==> (t.procs[a.p].RollingBack? <==> !(a.written && s.lock.Some?)))
            && (a.Release? || a.RollBack? || a.Remove? ==> t.lock.None?)
            && (a.Release? || a.RollBack? || a.TimeOut? ==> t.procs[a.p].Finished?)
            && (t.lock != s.lock ==>
                  || (a.Mkdir? && s.lock.None?) || a.Release? || a.RollBack? || a.Remove?
                  || (a.WriteOwner? && a.written && s.lock.Some? && t.lock == Some(s.lock.value.(owner := Some(a.p)))))
  {
  }

  /** A removal is decided on exactly when the recorded owner was probed and found dead, or when the owner could not be
      read and the directory is there and old. */
  lemma JudgementExact(s: State, a: Action)
    requires Can(s, a)
    ensures var t := Do(s, a);
            t.procs[a.p].Removing? && !s.procs[a.p].Removing?
            <==> || (a.Probe? && s.procs[a.p].owner !in s.alive)
                 || (a.StatDir? && a.aged && s.lock.Some?)
    ensures a.ReadOwner? ==>
              (Do(s, a).procs[a.p].Probing? <==> a.readable && s.lock.Some? && s.lock.value.owner.Some?)
    ensures a.ReadOwner? && Do(s, a).procs[a.p].Probing? ==> Some(Do(s, a).procs[a.p].owner) == s.lock.value.owner
  {
  }

  /** A waiter lets a live owner finish, sleeps, and gets in when the lock has been given up. */
  lemma WaiterGetsIn(s: State, p: Pid, q: Pid)
    requires p != q && Ready(s, q) && s.lock.Some? && s.lock.value.owner == Some(p) && p in s.alive
    requires p in s.procs && s.procs[p].Holding?
    ensures var end := Play(s, [Mkdir(q), ReadOwner(q, true)] +
                               ([Probe(q), Wake(q)] + ([Release(p), Mkdir(q)] + [WriteOwner(q, true)])));
            && end.Some? && InCritical(end.value, q) && !InCritical(end.value, p)
            && end.value.lock.Some? && end.value.lock.value.owner == Some(q)
  {
    hide Play;
    Ask(s, q);
    var s1 := Goto(s, q, Probing(p, s.lock.value.incarnation));
    PlayTwo(s1, Probe(q), Wake(q));
    var s2 := Do(Do(s1, Probe(q)), Wake(q));
    HandedOver(s2, p, q);
    PlayThen(s1, [Probe(q), Wake(q)], [Release(p), Mkdir(q)] + [WriteOwner(q, true)]);
    PlayThen(s, [Mkdir(q), ReadOwner(q, true)], [Probe(q), Wake(q)] + ([Release(p), Mkdir(q)] + [WriteOwner(q, true)]));
  }

  lemma HandedOver(s: State, p: Pid, q: Pid)
    requires p != q && Ready(s, q) && p in s.alive && p in s.procs && s.procs[p].Holding?
    ensures var end := Play(s, [Release(p), Mkdir(q)] + [WriteOwner(q, true)]);
            && end.Some? && InCritical(end.value, q) && !InCritical(end.value, p)
            && end.value.lock.Some? && end.value.lock.value.owner == Some(q)
  {
    hide Play;
    PlayTwo(s, Release(p), Mkdir(q));
    var t := Do(Do(s, Release(p)), Mkdir(q));
    PlayOne(t, WriteOwner(q, true));
    PlayThen(s, [Release(p), Mkdir(q)], [WriteOwner(q, true)]);
  }
}
