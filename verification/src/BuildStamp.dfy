/** The build stamp: any number of calls that return early when a binary exists and the stamp names the
    checked-out commit, and otherwise rebuild under the lock and write the stamp. The working tree may
    move, and the binary vanish, between any two steps; looking for the binary and reading the stamp are
    two steps. The critical section is exclusive here; `BuildLock` says when. */
module BuildStamp {
  import opened Wrappers

  type Sha = nat

  /** What a binary is built from: a commit as checked out, or a tree with local edits. */
  datatype Tree = Committed(sha: Sha) | Edited(id: nat)

  datatype Call =
    | HasRev(rev: Sha)
    | Expecting(expected: Option<Sha>)
    | SawBinary(expected: Option<Sha>)
    | Waiting(expected: Option<Sha>)
    | Inside(expected: Option<Sha>)
    | SawBinaryInside(expected: Option<Sha>)
    | Building(expected: Option<Sha>)
    | Built(expected: Option<Sha>)
    | Confirmed(expected: Option<Sha>)
    | ReturnedEarly
    | ReturnedBuilt
    | Failed

  datatype World = World(
    head: Sha,
    working: Tree,
    binary: Option<Tree>,
    stamp: Option<Sha>,
    lock: Option<nat>,
    calls: map<nat, Call>)

  datatype Action =
    | Move(head: Sha, working: Tree)
    | DropBinary
    | RevParse(i: nat)
    | Status(i: nat, readable: bool)
    | FindBinary(i: nat)
    | ReadStamp(i: nat)
    | Enter(i: nat)
    | FindAgain(i: nat)
    | ReadAgain(i: nat)
    | Build(i: nat, succeeds: bool)
    | Confirm(i: nat)
    | WriteStamp(i: nat, succeeds: bool)
    | Abandon(i: nat)

  predicate Clean(w: World) {
    w.working == Committed(w.head)
  }

  function Put(w: World, i: nat, c: Call): World {
    w.(calls := w.calls[i := c])
  }

  predicate Can(w: World, a: Action) {
    match a
    case Move(_, _) => true
    case DropBinary => true
    case RevParse(i) => i !in w.calls
    case Status(i, _) => i in w.calls && w.calls[i].HasRev?
    case FindBinary(i) => i in w.calls && w.calls[i].Expecting?
    case ReadStamp(i) => i in w.calls && w.calls[i].SawBinary?
    case Enter(i) => i in w.calls && w.calls[i].Waiting? && w.lock.None?
    case FindAgain(i) => i in w.calls && w.calls[i].Inside?
    case ReadAgain(i) => i in w.calls && w.calls[i].SawBinaryInside?
    case Build(i, _) => i in w.calls && w.calls[i].Building?
    case Confirm(i) => i in w.calls && w.calls[i].Built?
    case WriteStamp(i, _) => i in w.calls && w.calls[i].Confirmed?
    case Abandon(i) => i in w.calls
  }

  /** Without an expected commit the early-return test fails at once; else the binary must be there and
      then, a step later, the stamp must name that commit. */
  function Do(w: World, a: Action): World
    requires Can(w, a)
  {
    match a
    case Move(head, working) => w.(head := head, working := working)
    case DropBinary => w.(binary := None)
    case RevParse(i) => Put(w, i, HasRev(w.head))
    case Status(i, readable) =>
      Put(w, i, Expecting(if readable && Clean(w) then Some(w.calls[i].rev) else None))
    case FindBinary(i) =>
      var e := w.calls[i].expected;
      Put(w, i, if e.Some? && w.binary.Some? then SawBinary(e) else Waiting(e))
    case ReadStamp(i) =>
      var e := w.calls[i].expected;
      Put(w, i, if w.stamp == e then ReturnedEarly else Waiting(e))
    case Enter(i) => Put(w, i, Inside(w.calls[i].expected)).(lock := Some(i))
    case FindAgain(i) =>
      var e := w.calls[i].expected;
      Put(w, i, if e.Some? && w.binary.Some? then SawBinaryInside(e) else Building(e))
    case ReadAgain(i) =>
      var e := w.calls[i].expected;
      if w.stamp == e then Put(w, i, ReturnedEarly).(lock := None) else Put(w, i, Building(e))
    case Build(i, succeeds) =>
      if succeeds then Put(w, i, Built(w.calls[i].expected)).(binary := Some(w.working))
      else Put(w, i, Failed).(lock := None)
    case Confirm(i) =>
      if w.binary.Some? then Put(w, i, Confirmed(w.calls[i].expected)) else Put(w, i, Failed).(lock := None)
    case WriteStamp(i, succeeds) =>
      var w := if succeeds && w.calls[i].expected.Some? then w.(stamp := w.calls[i].expected) else w;
      Put(w, i, ReturnedBuilt).(lock := None)
    case Abandon(i) => Put(w, i, Failed).(lock := if w.lock == Some(i) then None else w.lock)
  }

  /** The stamp, if there is a binary at all, names the commit the binary was built from. */
  predicate Coherent(w: World) {
    w.stamp.Some? && w.binary.Some? ==> w.binary.value == Committed(w.stamp.value)
  }

  /** A call that has replaced the binary and not yet written its stamp. */
  predicate Owes(c: Call) {
    c.Built? || c.Confirmed?
  }

  predicate StampOwed(w: World) {
    exists i | i in w.calls :: Owes(w.calls[i])
  }

  /** A build reads the commit its stamp will name; from then until the stamp is on disk the tree does
      not move, the call is not cut short and the write succeeds. The binary may vanish at any time. */
  predicate Careful(w: World, a: Action)
    requires Can(w, a)
  {
    match a
    case Build(i, true) => Clean(w) && w.calls[i].expected == Some(w.head)
    case WriteStamp(_, succeeds) => succeeds
    case Move(_, _) => !StampOwed(w)
    case Abandon(i) => !Owes(w.calls[i])
    case _ => true
  }

  // The invariant

  /** Only the lock's holder is past its entry. */
  ghost predicate Exclusive(w: World) {
    forall i | i in w.calls :: PastEntry(w.calls[i]) ==> w.lock == Some(i)
  }

  predicate PastEntry(c: Call) {
    c.Inside? || c.SawBinaryInside? || c.Building? || c.Built? || c.Confirmed?
  }

  /** While a stamp is owed, the binary is the checked-out commit and the stamp will say so. */
  ghost predicate Owed(w: World) {
    forall i | i in w.calls ::
      Owes(w.calls[i]) ==> w.calls[i].expected == Some(w.head) && w.binary in {None, Some(Committed(w.head))}
  }

  /** A binary is only looked for with a commit in mind. */
  ghost predicate Minded(w: World) {
    forall i | i in w.calls :: w.calls[i].SawBinary? || w.calls[i].SawBinaryInside? ==> w.calls[i].expected.Some?
  }

  ghost predicate Inv(w: World) {
    Exclusive(w) && Owed(w) && Minded(w) && (StampOwed(w) || Coherent(w))
  }

  lemma BuildKeeps(w: World, i: nat)
    requires Inv(w) && Can(w, Build(i, true)) && Careful(w, Build(i, true))
    ensures Inv(Do(w, Build(i, true)))
  {
    var x := Do(w, Build(i, true));
    assert Owes(x.calls[i]);
  }

  /** The holder of the lock is the only one that can owe a stamp. */
  lemma OnlyHolderOwes(w: World, i: nat)
    requires Exclusive(w) && i in w.calls && PastEntry(w.calls[i])
    ensures StampOwed(w) <==> Owes(w.calls[i])
  {
    if StampOwed(w) {
      var j :| j in w.calls && Owes(w.calls[j]);
      assert PastEntry(w.calls[j]) && w.lock == Some(j) == Some(i);
    }
  }

  /** The holder leaves the critical section and nobody owes a stamp any more. */
  lemma LeavingKeeps(w: World, i: nat, x: World, c: Call)
    requires Inv(w) && i in w.calls && PastEntry(w.calls[i]) && !PastEntry(c) && !c.SawBinary?
    requires x == Put(w, i, c).(lock := None, stamp := x.stamp) && Coherent(x)
    ensures Inv(x)
  {
    forall j | j in x.calls
      ensures !PastEntry(x.calls[j])
    {
      assert j != i ==> x.calls[j] == w.calls[j];
    }
  }

  /** Steps by which the holder gives the lock up. */
  predicate Leaves(w: World, a: Action)
    requires Can(w, a)
  {
    (a.WriteStamp? || a.Confirm? || a.ReadAgain? || (a.Build? && !a.succeeds)) && Do(w, a).lock.None?
  }

  lemma LeaveKeeps(w: World, a: Action)
    requires Inv(w) && Can(w, a) && Careful(w, a) && Leaves(w, a)
    ensures Inv(Do(w, a))
  {
    OnlyHolderOwes(w, a.i);
    LeavingKeeps(w, a.i, Do(w, a), Do(w, a).calls[a.i]);
  }

  /** Steps that change neither the stamp nor which calls owe one, and put no other binary in place. */
  lemma QuietKeeps(w: World, a: Action)
    requires Inv(w) && Can(w, a) && Careful(w, a) && !Leaves(w, a) && !a.Build?
    ensures Inv(Do(w, a))
  {
    var x := Do(w, a);
    QuietOwes(w, a);
    assert Exclusive(x) && Minded(x);
  }

  lemma QuietOwes(w: World, a: Action)
    requires Can(w, a) && Careful(w, a) && !Leaves(w, a) && !a.Build?
    ensures StampOwed(Do(w, a)) <==> StampOwed(w)
    ensures forall j | j in Do(w, a).calls && Owes(Do(w, a).calls[j]) ::
              j in w.calls && Owes(w.calls[j]) && w.calls[j].expected == Do(w, a).calls[j].expected
  {
    var x := Do(w, a);
    if StampOwed(w) {
      var i :| i in w.calls && Owes(w.calls[i]);
      assert i in x.calls && Owes(x.calls[i]);
    }
  }

  lemma StepKeeps(w: World, a: Action)
    requires Inv(w) && Can(w, a) && Careful(w, a)
    ensures Inv(Do(w, a))
  {
    hide Inv, Careful;
    if Leaves(w, a) {
      LeaveKeeps(w, a);
    } else if a.Build? {
      BuildKeeps(w, a.i);
    } else {
      QuietKeeps(w, a);
    }
  }

  function Play(w: World, acts: seq<Action>): Option<World>
    decreases |acts|
  {
    if acts == [] then Some(w)
    else if Can(w, acts[0]) then Play(Do(w, acts[0]), acts[1..])
    else None
  }

  ghost predicate AllCareful(w: World, acts: seq<Action>)
    requires Play(w, acts).Some?
    decreases |acts|
  {
    acts == [] || (Careful(w, acts[0]) && AllCareful(Do(w, acts[0]), acts[1..]))
  }

  lemma {:induction false} PlayKeeps(w: World, acts: seq<Action>)
    requires Inv(w) && Play(w, acts).Some? && AllCareful(w, acts)
    ensures Inv(Play(w, acts).value)
    decreases |acts|
  {
    hide Inv, Can, Do, Careful;
    if acts == [] {
    } else {
      StepKeeps(w, acts[0]);
      PlayKeeps(Do(w, acts[0]), acts[1..]);
    }
  }

  function Initial(head: Sha, working: Tree): World {
    World(head, working, None, None, None, map[])
  }

  // What an early return hands out

  /** The call is about to return without building. */
  predicate Returning(w: World, i: nat) {
    i in w.calls && (w.calls[i].SawBinary? || w.calls[i].SawBinaryInside?) && w.stamp == w.calls[i].expected
  }

  /** Every early return of every careful run. Before the lock it hands out the expected commit's binary
      exactly when the binary has not vanished since it was seen and no other call, building another
      commit, is about to write its stamp; and the checked-out commit's exactly when it has not vanished
      and either nothing moved or such a call just built it. Under the lock only vanishing is left. */
  lemma EarlyReturnExact(head: Sha, working: Tree, acts: seq<Action>, i: nat)
    requires Play(Initial(head, working), acts).Some? && AllCareful(Initial(head, working), acts)
    requires Returning(Play(Initial(head, working), acts).value, i)
    ensures var w := Play(Initial(head, working), acts).value;
            var e := w.calls[i].expected;
            && e.Some?
            && (w.calls[i].SawBinary? ==>
                  && Can(w, ReadStamp(i)) && Do(w, ReadStamp(i)).calls[i].ReturnedEarly?
                  && (w.binary == Some(Committed(e.value)) <==> w.binary.Some? && (e == Some(w.head) || !StampOwed(w)))
                  && (w.binary == Some(Committed(w.head)) <==> w.binary.Some? && (e == Some(w.head) || StampOwed(w))))
            && (w.calls[i].SawBinaryInside? ==>
                  && Can(w, ReadAgain(i)) && Do(w, ReadAgain(i)).calls[i].ReturnedEarly?
                  && (w.binary == Some(Committed(e.value)) <==> w.binary.Some?)
                  && (w.binary == Some(Committed(w.head)) <==> w.binary.Some? && e == Some(w.head)))
  {
    PlayKeeps(Initial(head, working), acts);
    ReturnExact(Play(Initial(head, working), acts).value, i);
  }

  lemma ReturnExact(w: World, i: nat)
    requires Inv(w) && Returning(w, i)
    ensures var e := w.calls[i].expected;
            && e.Some?
            && (w.calls[i].SawBinary? ==>
                  && (w.binary == Some(Committed(e.value)) <==> w.binary.Some? && (e == Some(w.head) || !StampOwed(w)))
                  && (w.binary == Some(Committed(w.head)) <==> w.binary.Some? && (e == Some(w.head) || StampOwed(w))))
            && (w.calls[i].SawBinaryInside? ==>
                  && (w.binary == Some(Committed(e.value)) <==> w.binary.Some?)
                  && (w.binary == Some(Committed(w.head)) <==> w.binary.Some? && e == Some(w.head)))
  {
    if w.calls[i].SawBinaryInside? {
      OnlyHolderOwes(w, i);
    }
    if StampOwed(w) {
      var j :| j in w.calls && Owes(w.calls[j]);
    }
  }

  /** While a call runs, nobody moves the tree or removes the binary. */
  ghost predicate Undisturbed(w: World, i: nat) {
    i in w.calls ==>
      match w.calls[i]
      case HasRev(rev) => rev == w.head
      case Expecting(e) => e.Some? ==> e.value == w.head
      case SawBinary(e) => e == Some(w.head) && w.binary.Some?
      case Waiting(e) => e.Some? ==> e.value == w.head
      case Inside(e) => e.Some? ==> e.value == w.head
      case SawBinaryInside(e) => e == Some(w.head) && w.binary.Some?
      case _ => true
  }

  predicate Disturbs(a: Action) {
    a.Move? || a.DropBinary?
  }

  predicate Quiet(acts: seq<Action>) {
    forall k | 0 <= k < |acts| :: !Disturbs(acts[k])
  }

  lemma QuietStep(w: World, a: Action, i: nat)
    requires Undisturbed(w, i) && Can(w, a) && !Disturbs(a)
    ensures Undisturbed(Do(w, a), i)
  {
  }

  lemma {:induction false} QuietPlay(w: World, acts: seq<Action>, i: nat)
    requires Undisturbed(w, i) && Play(w, acts).Some? && Quiet(acts)
    ensures Undisturbed(Play(w, acts).value, i)
    decreases |acts|
  {
    if acts == [] {
    } else {
      assert !Disturbs(acts[0]);
      QuietStep(w, acts[0], i);
      hide Undisturbed, Can, Do;
      QuietPlay(Do(w, acts[0]), acts[1..], i);
    }
  }

  /** Stamp soundness: in a careful run, a call during which the tree does not move and the binary does
      not vanish returns without building only with a binary built from the checked-out commit. Other
      calls may do what they like meanwhile. */
  lemma EarlyReturnIsSound(head: Sha, working: Tree, before: seq<Action>, during: seq<Action>, i: nat)
    requires Play(Initial(head, working), before).Some? && i !in Play(Initial(head, working), before).value.calls
    requires Play(Initial(head, working), before + during).Some? && AllCareful(Initial(head, working), before + during)
    requires Quiet(during) && Returning(Play(Initial(head, working), before + during).value, i)
    ensures var w := Play(Initial(head, working), before + during).value;
            w.binary == Some(Committed(w.head)) && w.calls[i].expected == Some(w.head)
  {
    var w0 := Initial(head, working);
    PlayThen(w0, before, during);
    QuietPlay(Play(w0, before).value, during, i);
    PlayKeeps(w0, before + during);
    ReturnExact(Play(w0, before + during).value, i);
  }

  lemma {:induction false} PlayThen(w: World, first: seq<Action>, rest: seq<Action>)
    requires Play(w, first).Some?
    ensures Play(w, first + rest) == Play(Play(w, first).value, rest)
    decreases |first|
  {
    if first == [] {
      assert first + rest == rest;
    } else {
      assert (first + rest)[1..] == first[1..] + rest;
      PlayThen(Do(w, first[0]), first[1..], rest);
    }
  }

  /** Which builds keep the stamp truthful, exactly: with a stamp to write, those that read that
      commit; without one, those after which an existing stamp still happens to be right. */
  lemma BuildExact(w: World, i: nat)
    requires Coherent(w) && Can(w, Build(i, true))
    ensures Can(Do(w, Build(i, true)), Confirm(i)) && Can(Do(Do(w, Build(i, true)), Confirm(i)), WriteStamp(i, true))
    ensures Coherent(Do(Do(Do(w, Build(i, true)), Confirm(i)), WriteStamp(i, true))) <==>
            match w.calls[i].expected
            case Some(sha) => w.working == Committed(sha)
            case None => w.stamp.Some? ==> w.working == Committed(w.stamp.value)
  {
  }

  /** A stamp that is not truthful is believed: check out the commit it names and call. */
  lemma IncoherentIsBelieved(w: World, i: nat)
    requires !Coherent(w) && i !in w.calls
    ensures var there := Do(w, Move(w.stamp.value, Committed(w.stamp.value)));
            var called := Do(Do(Do(there, RevParse(i)), Status(i, true)), FindBinary(i));
            && Returning(called, i) && called.binary != Some(Committed(called.head))
            && Do(called, ReadStamp(i)).calls[i].ReturnedEarly?
  {
  }

  // Runs

  /** Some run leads from one world to the other, careful at every step when that is asked for. */
  ghost predicate Leads(careful: bool, w: World, x: World) {
    exists acts: seq<Action> :: LeadsBy(careful, w, acts, x)
  }

  ghost predicate LeadsBy(careful: bool, w: World, acts: seq<Action>, x: World) {
    Play(w, acts) == Some(x) && (careful ==> AllCareful(w, acts))
  }

  lemma LeadsNowhere(careful: bool, w: World)
    ensures Leads(careful, w, w)
  {
    assert LeadsBy(careful, w, [], w);
  }

  lemma {:induction false} OneMore(w: World, acts: seq<Action>, a: Action)
    requires Play(w, acts).Some? && Can(Play(w, acts).value, a)
    ensures Play(w, acts + [a]) == Some(Do(Play(w, acts).value, a))
    ensures AllCareful(w, acts) && Careful(Play(w, acts).value, a) ==> AllCareful(w, acts + [a])
    decreases |acts|
  {
    hide Can, Do, Careful;
    if acts == [] {
      assert acts + [a] == [a] && [a][1..] == [];
    } else {
      assert (acts + [a])[1..] == acts[1..] + [a];
      OneMore(Do(w, acts[0]), acts[1..], a);
    }
  }

  lemma LeadsOn(careful: bool, w: World, x: World, a: Action)
    requires Leads(careful, w, x) && Can(x, a) && (careful ==> Careful(x, a))
    ensures Leads(careful, w, Do(x, a))
  {
    hide Can, Do, Careful;
    var acts :| LeadsBy(careful, w, acts, x);
    OneMore(w, acts, a);
    assert LeadsBy(careful, w, acts + [a], Do(x, a));
  }

  /** What a call on a tree expects. */
  function Expected(w: World): Option<Sha> {
    if Clean(w) then Some(w.head) else None
  }

  lemma Asks(careful: bool, w0: World, w: World, i: nat)
    requires Leads(careful, w0, w) && i !in w.calls
    ensures Leads(careful, w0, Put(w, i, Expecting(Expected(w))))
  {
    hide Leads;
    var w1 := Put(w, i, HasRev(w.head));
    LeadsOn(careful, w0, w, RevParse(i));
    assert Do(w1, Status(i, true)) == Put(w, i, Expecting(Expected(w)));
    LeadsOn(careful, w0, w1, Status(i, true));
  }

  /** The call finds no binary, or one under another stamp. */
  lemma Waits(careful: bool, w0: World, w: World, i: nat)
    requires Leads(careful, w0, w) && i !in w.calls
    requires Expected(w).None? || w.binary.None? || w.stamp != Expected(w)
    ensures Leads(careful, w0, Put(w, i, Waiting(Expected(w))))
  {
    hide Leads;
    var e := Expected(w);
    Asks(careful, w0, w, i);
    var w1, saw := Put(w, i, Expecting(e)), Put(w, i, SawBinary(e));
    LeadsOn(careful, w0, w1, FindBinary(i));
    if e.Some? && w.binary.Some? {
      assert Do(w1, FindBinary(i)) == saw;
      LeadsOn(careful, w0, saw, ReadStamp(i));
      assert Do(saw, ReadStamp(i)) == Put(w, i, Waiting(e));
    } else {
      assert Do(w1, FindBinary(i)) == Put(w, i, Waiting(e));
    }
  }

  /** It enters and starts to build. */
  lemma Enters(careful: bool, w0: World, w: World, i: nat)
    requires Leads(careful, w0, w) && i !in w.calls && w.lock.None?
    requires Expected(w).None? || w.binary.None? || w.stamp != Expected(w)
    ensures Leads(careful, w0, Put(w, i, Building(Expected(w))).(lock := Some(i)))
  {
    hide Leads, Expected;
    var e := Expected(w);
    Waits(careful, w0, w, i);
    var waits, inside := Put(w, i, Waiting(e)), Put(w, i, Inside(e)).(lock := Some(i));
    LeadsOn(careful, w0, waits, Enter(i));
    assert Do(waits, Enter(i)) == inside;
    Looks(careful, w0, inside, i);
    assert Put(inside, i, Building(e)) == Put(w, i, Building(e)).(lock := Some(i));
  }

  /** Inside, the call looks again and starts to build. */
  lemma Looks(careful: bool, w0: World, w: World, i: nat)
    requires Leads(careful, w0, w) && i in w.calls && w.calls[i].Inside?
    requires var e := w.calls[i].expected; e.None? || w.binary.None? || w.stamp != e
    ensures Leads(careful, w0, Put(w, i, Building(w.calls[i].expected)))
  {
    hide Leads;
    var e := w.calls[i].expected;
    LeadsOn(careful, w0, w, FindAgain(i));
    if e.Some? && w.binary.Some? {
      var saw := Put(w, i, SawBinaryInside(e));
      LeadsOn(careful, w0, saw, ReadAgain(i));
      assert Put(saw, i, Building(e)) == Put(w, i, Building(e));
    }
  }

  function AfterBuild(w: World, i: nat): World {
    w.(binary := Some(w.working), stamp := if Clean(w) then Some(w.head) else w.stamp,
       calls := w.calls[i := ReturnedBuilt])
  }

  /** One undisturbed call that finds the binary out of date, up to its build. */
  lemma BuildsFirst(careful: bool, w0: World, w: World, i: nat)
    requires Leads(careful, w0, w) && i !in w.calls && w.lock.None? && (careful ==> Clean(w))
    requires Expected(w).None? || w.binary.None? || w.stamp != Expected(w)
    ensures Leads(careful, w0, Put(w, i, Built(Expected(w))).(lock := Some(i), binary := Some(w.working)))
  {
    hide Leads;
    var e := Expected(w);
    Enters(careful, w0, w, i);
    var w1 := Put(w, i, Building(e)).(lock := Some(i));
    LeadsOn(careful, w0, w1, Build(i, true));
    assert Do(w1, Build(i, true)) == Put(w, i, Built(e)).(lock := Some(i), binary := Some(w.working));
  }

  /** And on to its stamp. */
  lemma Builds(careful: bool, w0: World, w: World, i: nat)
    requires Leads(careful, w0, w) && i !in w.calls && w.lock.None? && (careful ==> Clean(w))
    requires Expected(w).None? || w.binary.None? || w.stamp != Expected(w)
    ensures Leads(careful, w0, AfterBuild(w, i))
  {
    hide Leads;
    var e := Expected(w);
    BuildsFirst(careful, w0, w, i);
    var w2 := Put(w, i, Built(e)).(lock := Some(i), binary := Some(w.working));
    var w3 := Put(w, i, Confirmed(e)).(lock := Some(i), binary := Some(w.working));
    LeadsOn(careful, w0, w2, Confirm(i));
    assert Do(w2, Confirm(i)) == w3;
    LeadsOn(careful, w0, w3, WriteStamp(i, true));
    assert Do(w3, WriteStamp(i, true)) == AfterBuild(w, i);
  }

  /** A commit is built and stamped, and a second call on it has seen the binary. */
  function SeenAfterBuild(a: Sha): World {
    World(a, Committed(a), Some(Committed(a)), Some(a), None, map[0 := ReturnedBuilt, 1 := SawBinary(Some(a))])
  }

  lemma SeesAfterBuild(a: Sha)
    ensures Leads(true, Initial(a, Committed(a)), SeenAfterBuild(a))
  {
    hide Leads;
    var w0 := Initial(a, Committed(a));
    LeadsNowhere(true, w0);
    Builds(true, w0, w0, 0);
    var w1 := AfterBuild(w0, 0);
    Asks(true, w0, w1, 1);
    var w2 := Put(w1, 1, Expecting(Some(a)));
    LeadsOn(true, w0, w2, FindBinary(1));
    assert Do(w2, FindBinary(1)) == SeenAfterBuild(a);
  }

  /** The tree moves during the call: a careful run hands out the binary of the commit checked out before. */
  lemma MovedTreeIsHandedOld(a: Sha, b: Sha) returns (w: World)
    requires a != b
    ensures Leads(true, Initial(a, Committed(a)), w) && Returning(w, 1) && Clean(w)
    ensures w.head == b && w.binary == Some(Committed(a))
  {
    hide Leads;
    SeesAfterBuild(a);
    LeadsOn(true, Initial(a, Committed(a)), SeenAfterBuild(a), Move(b, Committed(b)));
    w := SeenAfterBuild(a).(head := b, working := Committed(b));
  }

  /** Another call has built the commit moved to and not written its stamp: the old stamp vouches for
      the new binary. */
  lemma OwedStampIsNotWaitedFor(a: Sha, b: Sha) returns (w: World)
    requires a != b
    ensures Leads(true, Initial(a, Committed(a)), w) && Returning(w, 1)
    ensures w.calls[1].expected == Some(a) && w.binary == Some(Committed(b))
  {
    hide Leads;
    var w0 := Initial(a, Committed(a));
    SeesAfterBuild(a);
    LeadsOn(true, w0, SeenAfterBuild(a), Move(b, Committed(b)));
    var moved := SeenAfterBuild(a).(head := b, working := Committed(b));
    BuildsFirst(true, w0, moved, 2);
    w := Put(moved, 2, Built(Some(b))).(lock := Some(2), binary := Some(Committed(b)));
  }

  /** The binary vanishes between the two looks: the call returns early with no binary at all. */
  lemma VanishedBinaryIsHandedOut(a: Sha) returns (w: World)
    ensures Leads(true, Initial(a, Committed(a)), w) && Returning(w, 1)
    ensures Clean(w) && w.head == a && w.binary == None
  {
    hide Leads;
    SeesAfterBuild(a);
    LeadsOn(true, Initial(a, Committed(a)), SeenAfterBuild(a), DropBinary);
    w := SeenAfterBuild(a).(binary := None);
  }

  /** Clean build of a commit, then a build with local edits, then the commit again: the early return
      hands out the binary with the edits. */
  lemma EditedBuildIsHandedOut(sha: Sha, edit: nat) returns (w: World)
    ensures Leads(false, Initial(sha, Committed(sha)), w) && Returning(w, 2)
    ensures Clean(w) && w.head == sha && w.binary == Some(Edited(edit))
  {
    hide Leads;
    var w0 := Initial(sha, Committed(sha));
    LeadsNowhere(false, w0);
    Builds(false, w0, w0, 0);
    var w1 := AfterBuild(w0, 0);
    LeadsOn(false, w0, w1, Move(sha, Edited(edit)));
    var w2 := w1.(working := Edited(edit));
    Builds(false, w0, w2, 1);
    var w3 := AfterBuild(w2, 1);
    LeadsOn(false, w0, w3, Move(sha, Committed(sha)));
    var w4 := w3.(working := Committed(sha));
    Asks(false, w0, w4, 2);
    var w5 := Put(w4, 2, Expecting(Some(sha)));
    LeadsOn(false, w0, w5, FindBinary(2));
    w := Put(w4, 2, SawBinary(Some(sha)));
    assert Do(w5, FindBinary(2)) == w;
  }

  // What each step does to the world

  /** Only a build that succeeds puts a binary in place, made of the tree as it is then, and only a stamp write that
      succeeds changes the stamp, to the commit that call expected. */
  lemma OnlyBuildsChange(w: World, a: Action)
    requires Can(w, a)
    ensures var x := Do(w, a);
            && (x.binary != w.binary ==>
                  (a.DropBinary? && x.binary == None) || (a.Build? && a.succeeds && x.binary == Some(w.working)))
            && (a.Build? && a.succeeds ==> x.binary == Some(w.working))
            && (x.stamp != w.stamp ==>
                  a.WriteStamp? && a.succeeds && w.calls[a.i].expected.Some? && x.stamp == w.calls[a.i].expected)
            && (a.WriteStamp? && a.succeeds && w.calls[a.i].expected.Some? ==> x.stamp == w.calls[a.i].expected)
            && ((a.Build? && !a.succeeds) || (a.Confirm? && w.binary.None?) ==> x.calls[a.i].Failed? && x.lock.None?)
            && (x.head != w.head || x.working != w.working ==> a.Move?)
  {
  }

  /** A call returns without building exactly when it reads a stamp that names the commit it expects, having seen a
      binary. */
  lemma ReturnsEarlyExactly(w: World, a: Action, i: nat)
    requires Can(w, a) && (i in w.calls ==> !w.calls[i].ReturnedEarly?)
    ensures var x := Do(w, a);
            i in x.calls && x.calls[i].ReturnedEarly? <==> (a == ReadStamp(i) || a == ReadAgain(i)) && Returning(w, i)
  {
  }

  /** The lock is held by a call that is past its entry, or by nobody. */
  ghost predicate HeldInside(w: World) {
    w.lock.Some? ==> w.lock.value in w.calls && PastEntry(w.calls[w.lock.value])
  }

  lemma StepHeld(w: World, a: Action)
    requires HeldInside(w) && Exclusive(w) && Can(w, a)
    ensures HeldInside(Do(w, a)) && Exclusive(Do(w, a))
  {
  }

  /** In every run, careful or not, a call that has returned, failed or been cut short holds no lock. */
  lemma {:induction false} NoLockLeftBehind(w: World, acts: seq<Action>)
    requires HeldInside(w) && Exclusive(w) && Play(w, acts).Some?
    ensures var x := Play(w, acts).value; HeldInside(x) && Exclusive(x)
    decreases |acts|
  {
    if acts == [] {
    } else {
      StepHeld(w, acts[0]);
      hide Can, Do, HeldInside, Exclusive;
      NoLockLeftBehind(Do(w, acts[0]), acts[1..]);
    }
  }

  /** A call that saw a tree with local edits, or could not read its status. */
  predicate ExpectsNothing(w: World, i: nat) {
    i in w.calls &&
    match w.calls[i]
    case Expecting(e) => e.None?
    case Waiting(e) => e.None?
    case Inside(e) => e.None?
    case Building(e) => e.None?
    case Built(e) => e.None?
    case Confirmed(e) => e.None?
    case ReturnedBuilt => true
    case Failed => true
    case _ => false
  }

  lemma StepExpectsNothing(w: World, a: Action, i: nat)
    requires ExpectsNothing(w, i) && Can(w, a)
    ensures ExpectsNothing(Do(w, a), i)
  {
  }

  lemma {:induction false} PlayExpectsNothing(w: World, acts: seq<Action>, i: nat)
    requires ExpectsNothing(w, i) && Play(w, acts).Some?
    ensures ExpectsNothing(Play(w, acts).value, i)
    decreases |acts|
  {
    if acts == [] {
    } else {
      StepExpectsNothing(w, acts[0], i);
      hide Can, Do, ExpectsNothing;
      PlayExpectsNothing(Do(w, acts[0]), acts[1..], i);
    }
  }

  /** A call that finds local edits, or cannot tell, never returns without building, whatever happens after. */
  lemma EditedNeverEarly(w: World, i: nat, readable: bool, acts: seq<Action>)
    requires Can(w, Status(i, readable)) && (!readable || w.working != Committed(w.head))
    requires Play(Do(w, Status(i, readable)), acts).Some?
    ensures var x := Play(Do(w, Status(i, readable)), acts).value; i in x.calls && !x.calls[i].ReturnedEarly?
  {
    PlayExpectsNothing(Do(w, Status(i, readable)), acts, i);
  }

  /** A call that finds the tree clean expects the commit it read before. */
  lemma CleanExpects(w: World, i: nat)
    requires Can(w, Status(i, true)) && w.working == Committed(w.head)
    ensures Do(w, Status(i, true)).calls[i] == Expecting(Some(w.calls[i].rev))
  {
  }
}
