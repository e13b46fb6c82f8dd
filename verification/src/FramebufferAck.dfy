/** The framebuffer with acknowledgements: the writer begins a frame only while `frame_dirty` is
    clear, and the consumer clears it, guarded by the sequence number, when it has finished reading.
    The writer's own steps are those of `Framebuffer`. */
module FramebufferAck {
  import opened Wrappers
  import opened Framebuffer

  /** The consumer between its atomic steps; `seen` is the number of the frame it is at. */
  datatype Consumer =
    | Polling(last: int, seen: nat)
    | HasFrame(word: int, seen: nat)
    | Viewing(word: int, seen: nat, slot: nat, got: map<nat, int>)
    | Acking(word: int, seen: nat)

  datatype System = System(shared: Shared, consumer: Consumer)

  datatype ConsumerStep = Poll | LoadSlot | View(at: nat) | AckCheck | AckStore

  datatype Move = Produce(w: WriterStep) | Consume(c: ConsumerStep)

  function Initial(slot0: Frame, slot1: Frame): System {
    System(Start(slot0, slot1), Polling(0, 0))
  }

  predicate Can(s: System, t: Move) {
    && Shaped(s.shared)
    && (s.consumer.Viewing? ==> s.consumer.slot < 2)
    && match t
       case Produce(w) => WriterCan(s.shared, w) && (w.StartFill? ==> !s.shared.dirty)
       case Consume(Poll) => s.consumer.Polling?
       case Consume(LoadSlot) => s.consumer.HasFrame?
       case Consume(View(at)) => s.consumer.Viewing? && at < s.shared.width
       case Consume(AckCheck) => s.consumer.Viewing?
       case Consume(AckStore) => s.consumer.Acking?
  }

  function Do(s: System, t: Move): System
    requires Can(s, t)
  {
    var m, c := s.shared, s.consumer;
    match t
    case Produce(w) => s.(shared := WriterDoes(m, w))
    case Consume(Poll) => if m.frameSeq == c.last then s else s.(consumer := HasFrame(m.frameSeq, m.done))
    case Consume(LoadSlot) => s.(consumer := Viewing(c.word, c.seen, m.active, map[]))
    case Consume(View(at)) => s.(consumer := c.(got := c.got[at := m.slots[c.slot][at]]))
    case Consume(AckCheck) =>
      s.(consumer := if m.frameSeq == c.word then Acking(c.word, c.seen) else Polling(c.word, c.seen))
    case Consume(AckStore) => System(m.(dirty := false), Polling(c.word, c.seen))
  }

  function Play(s: System, moves: seq<Move>): Option<System>
    decreases |moves|
  {
    if moves == [] then Some(s)
    else if Can(s, moves[0]) then Play(Do(s, moves[0]), moves[1..])
    else None
  }

  /** The writer has announced its last frame and cannot begin another until an acknowledgement. */
  predicate Blocked(m: Shared) {
    m.phase.Announced? || (m.phase.Idle? && m.dirty)
  }

  ghost predicate ConsumerInv(s: System)
    requires WriterInv(s.shared)
  {
    var m := s.shared;
    match s.consumer
    case Polling(last, seen) => last == ToI32(seen) && (m.done == seen || (m.done == seen + 1 && Blocked(m)))
    case HasFrame(word, seen) => word == ToI32(seen) && m.done == seen && Blocked(m)
    case Viewing(word, seen, slot, got) =>
      && word == ToI32(seen) && m.done == seen && Blocked(m) && slot == seen % 2
      && (forall j | j in got :: j < m.width && got[j] == m.frames[seen][j])
    case Acking(word, seen) => word == ToI32(seen) && m.done == seen && Blocked(m)
  }

  ghost predicate Inv(s: System) {
    WriterInv(s.shared) && ConsumerInv(s)
  }

  lemma ClearKeeps(m: Shared)
    requires WriterInv(m)
    ensures WriterInv(m.(dirty := false))
  {
    assert Holds(m, 0) && Holds(m, 1);
    assert Holds(m.(dirty := false), 0) && Holds(m.(dirty := false), 1);
  }

  lemma ProduceKeeps(s: System, w: WriterStep)
    requires Inv(s) && Can(s, Produce(w))
    ensures Inv(Do(s, Produce(w)))
  {
    hide Holds, ToI32, Counts;
    WriterKeeps(s.shared, w);
    WriterAdvance(s.shared, w);
  }

  lemma WriterAdvance(m: Shared, w: WriterStep)
    requires WriterInv(m) && WriterCan(m, w)
    ensures var n := WriterDoes(m, w);
            && n.done == m.done + (if w.StoreSeq? then 1 else 0)
            && n.width == m.width && m.frames <= n.frames && m.done < |m.frames|
  {
    hide Holds, ToI32;
  }

  lemma ConsumeKeeps(s: System, c: ConsumerStep)
    requires Inv(s) && Can(s, Consume(c))
    ensures Inv(Do(s, Consume(c)))
  {
    hide Holds, ToI32;
    var m := s.shared;
    match c
    case AckStore => ClearKeeps(m);
    case View(at) => SlotStillHolds(m, m.done);
    case _ =>
  }

  lemma MoveKeeps(s: System, t: Move)
    requires Inv(s) && Can(s, t)
    ensures Inv(Do(s, t))
  {
    match t
    case Produce(w) => ProduceKeeps(s, w);
    case Consume(c) => ConsumeKeeps(s, c);
  }

  lemma {:induction false} PlayKeeps(s: System, moves: seq<Move>)
    requires Inv(s) && Play(s, moves).Some?
    ensures Inv(Play(s, moves).value)
    decreases |moves|
  {
    if moves == [] {
    } else {
      MoveKeeps(s, moves[0]);
      PlayKeeps(Do(s, moves[0]), moves[1..]);
    }
  }

  /** With acknowledgements no interleaving tears a frame: whatever the consumer has read is the
      newest published frame, and that frame stays put until it is acknowledged. */
  lemma AcknowledgedReadsAreWhole(slot0: Frame, slot1: Frame, moves: seq<Move>)
    requires |slot0| == |slot1|
    ensures var end := Play(Initial(slot0, slot1), moves);
            end.Some? && end.value.consumer.Viewing? ==>
              var m, c := end.value.shared, end.value.consumer;
              && c.seen == m.done < |m.frames| && c.slot < |m.slots| && m.slots[c.slot] == m.frames[c.seen]
              && forall j | j in c.got :: j < |m.frames[c.seen]| && c.got[j] == m.frames[c.seen][j]
  {
    StartInv(slot0, slot1);
    var end := Play(Initial(slot0, slot1), moves);
    if end.Some? {
      PlayKeeps(Initial(slot0, slot1), moves);
      if end.value.consumer.Viewing? {
        SlotStillHolds(end.value.shared, end.value.shared.done);
      }
    }
  }

  /** And none is skipped: in every reachable state a poll that finds a frame finds the next one. */
  lemma NoFrameSkipped(slot0: Frame, slot1: Frame, moves: seq<Move>)
    requires |slot0| == |slot1|
    ensures var end := Play(Initial(slot0, slot1), moves);
            end.Some? && end.value.consumer.Polling? && Can(end.value, Consume(Poll)) ==>
              var next := Do(end.value, Consume(Poll)).consumer;
              next.HasFrame? ==> next.seen == end.value.consumer.seen + 1
  {
    StartInv(slot0, slot1);
    if Play(Initial(slot0, slot1), moves).Some? {
      PlayKeeps(Initial(slot0, slot1), moves);
    }
  }

  // The lost acknowledgement

  /** The flag is set for a frame that has already been acknowledged. */
  predicate Stuck(s: System) {
    s.consumer.Polling? && s.shared.done == s.consumer.seen && s.shared.phase.Idle? && s.shared.dirty
  }

  /** From there neither side ever moves on: the writer may not begin and the poll finds nothing. */
  lemma StuckForever(s: System, moves: seq<Move>)
    requires Inv(s) && Stuck(s) && Play(s, moves).Some?
    ensures Play(s, moves).value == s
    decreases |moves|
  {
    if moves != [] {
      assert moves[0] == Consume(Poll);
      assert Do(s, moves[0]) == s;
      StuckForever(s, moves[1..]);
    }
  }

  /** A step gets stuck exactly when it stores the flag after the acknowledgement of that frame. */
  lemma StuckExactly(s: System, t: Move)
    requires Inv(s) && Can(s, t) && !Stuck(s)
    ensures Stuck(Do(s, t)) <==>
            t == Produce(StoreDirty) && s.consumer.Polling? && s.shared.done == s.consumer.seen
  {
    hide Holds, ToI32;
  }

  lemma PlayOne(s: System, t: Move, rest: seq<Move>)
    requires Can(s, t)
    ensures Play(s, [t] + rest) == Play(Do(s, t), rest)
  {
    assert ([t] + rest)[1..] == rest;
  }

  /** It happens: the sequence word is stored before the flag, and a quick consumer fits in between. */
  lemma LostAcknowledgement() returns (moves: seq<Move>)
    ensures Play(Initial([], []), moves).Some? && Stuck(Play(Initial([], []), moves).value)
  {
    var quick := [Consume(Poll)] + ([Consume(LoadSlot)] + ([Consume(AckCheck)] +
                 ([Consume(AckStore)] + ([Produce(StoreDirty)] + []))));
    moves := FirstFrame(quick);
    AcknowledgedEarly(System(FirstAnnounced(), Polling(0, 0)), quick);
  }

  /** An empty first frame has been announced and its flag not yet stored. */
  function FirstAnnounced(): Shared {
    Shared(0, 1, 1, [0, 1], false, [[], []], 0, Announced, 1, [0, 1], [[], []])
  }

  /** The empty first frame is filled, and nothing published yet. */
  function FirstLoaded(): Shared {
    Shared(0, 0, 0, [0, 0], false, [[], []], 0, Loaded(1), 0, [0, 0], [[], []])
  }

  lemma FirstFilled(rest: seq<Move>) returns (moves: seq<Move>)
    ensures Play(Initial([], []), moves) == Play(System(FirstLoaded(), Polling(0, 0)), rest)
  {
    hide Play;
    var s0 := Initial([], []);
    var m1 := s0.shared.(phase := Filling({}));
    var last := [Produce(EndFill)] + rest;
    moves := [Produce(StartFill)] + last;
    PlayOne(s0, Produce(StartFill), last);
    PlayOne(System(m1, s0.consumer), Produce(EndFill), rest);
    assert m1.frames + [m1.slots[1]] == [[], []];
  }

  lemma FirstFrame(rest: seq<Move>) returns (moves: seq<Move>)
    ensures Play(Initial([], []), moves) == Play(System(FirstAnnounced(), Polling(0, 0)), rest)
  {
    hide Play;
    var m2, idle := FirstLoaded(), Polling(0, 0);
    var m3 := m2.(phase := TagStored(1), tag := [0, 1], tagged := [0, 1]);
    var m4 := m3.(phase := Flipped(1), active := 1);
    var r4 := [Produce(StoreSeq)] + rest;
    var r3 := [Produce(StoreActive)] + r4;
    moves := FirstFilled([Produce(StoreTag)] + r3);
    PlayOne(System(m2, idle), Produce(StoreTag), r3);
    assert m2.tag[1 := 1] == [0, 1] && m2.tagged[1 := 1] == [0, 1];
    PlayOne(System(m3, idle), Produce(StoreActive), r4);
    PlayOne(System(m4, idle), Produce(StoreSeq), rest);
  }

  lemma AcknowledgedEarly(s: System, moves: seq<Move>)
    requires Shaped(s.shared) && s.shared.phase.Announced? && s.shared.done == 1
    requires s.shared.frameSeq == 1 && s.shared.active < 2 && s.consumer == Polling(0, 0)
    requires moves == [Consume(Poll)] + ([Consume(LoadSlot)] + ([Consume(AckCheck)] +
                      ([Consume(AckStore)] + ([Produce(StoreDirty)] + []))))
    ensures Play(s, moves).Some? && Stuck(Play(s, moves).value)
  {
    var m := s.shared;
    var end := [Produce(StoreDirty)] + [];
    PlayOne(s, Consume(Poll), [Consume(LoadSlot)] + ([Consume(AckCheck)] + ([Consume(AckStore)] + end)));
    var s1 := System(m, HasFrame(1, 1));
    PlayOne(s1, Consume(LoadSlot), [Consume(AckCheck)] + ([Consume(AckStore)] + end));
    var s2 := System(m, Viewing(1, 1, m.active, map[]));
    PlayOne(s2, Consume(AckCheck), [Consume(AckStore)] + end);
    var s3 := System(m, Acking(1, 1));
    PlayOne(s3, Consume(AckStore), end);
    var s4 := System(m.(dirty := false), Polling(1, 1));
    PlayOne(s4, Produce(StoreDirty), []);
  }
}
