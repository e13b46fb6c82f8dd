/** The double-buffered framebuffer: a writer that fills the back slot and publishes it with a
    sequence of header stores, and an optimistic reader that samples the header and then the pixels.
    Every load and store is one atomic step, so a run is any interleaving. Header words are signed
    32-bit; `done`, `tagged` and `frames` only record history. */
module Framebuffer {
  import opened Wrappers
  import opened Words

  const TWO31: nat := 0x8000_0000

  type Frame = seq<int>

  /** `n >>> 0` and `n | 0`. */
  function ToU32(n: int): (u: nat)
    ensures u < U32
  {
    n % U32
  }

  function ToI32(n: int): int {
    if ToU32(n) < TWO31 then ToU32(n) else ToU32(n) - U32
  }

  /** The one signed 32-bit number, and the one unsigned, that agree with `n` modulo 2^32. */
  lemma WrapExact(n: int)
    ensures -0x8000_0000 <= ToI32(n) < 0x8000_0000 && (ToI32(n) - n) % 0x1_0000_0000 == 0
    ensures 0 <= ToU32(n) < 0x1_0000_0000 && (ToU32(n) - n) % 0x1_0000_0000 == 0
  {
    var q := n / U32;
    assert n == q * U32 + ToU32(n);
    Multiple(-q);
    Multiple(-q - 1);
  }

  lemma Multiple(k: int)
    ensures k * 0x1_0000_0000 % 0x1_0000_0000 == 0
  {
  }

  lemma WrapSuccessor(n: int)
    ensures ToI32(ToI32(n) + 1) == ToI32(n + 1)
    ensures ToU32(ToI32(n)) == ToU32(n)
  {
  }

  /** Where the writer stands in publishing one frame. */
  datatype Phase =
    | Idle
    | Filling(stored: set<nat>)
    | Loaded(newSeq: int)
    | TagStored(newSeq: int)
    | Flipped(newSeq: int)
    | Announced

  /** Header words, the two slots, and the writer's own variables. */
  datatype Shared = Shared(
    width: nat,
    active: nat,
    frameSeq: int,
    tag: seq<int>,
    dirty: bool,
    slots: seq<Frame>,
    local: nat,
    phase: Phase,
    done: nat,
    tagged: seq<nat>,
    frames: seq<Frame>)

  function Start(slot0: Frame, slot1: Frame): Shared {
    Shared(|slot0|, 0, 0, [0, 0], false, [slot0, slot1], 0, Idle, 0, [0, 0], [slot0])
  }

  datatype WriterStep =
    | StartFill
    | StorePixel(at: nat, value: int)
    | EndFill
    | StoreTag
    | StoreActive
    | StoreSeq
    | StoreDirty

  /** Two slots of `width` pixels, two tags, indices 0 or 1. */
  predicate Shaped(m: Shared) {
    && m.local in {0, 1} && m.active in {0, 1}
    && |m.tag| == 2 && |m.tagged| == 2 && |m.slots| == 2
    && (forall b | 0 <= b < 2 :: |m.slots[b]| == m.width)
    && (forall k | 0 <= k < |m.frames| :: |m.frames[k]| == m.width)
  }

  function Back(m: Shared): int {
    1 - m.local
  }

  predicate WriterCan(m: Shared, w: WriterStep) {
    Shaped(m) &&
    match w
    case StartFill => m.phase.Idle?
    case StorePixel(at, _) => m.phase.Filling? && at < m.width
    case EndFill => m.phase.Filling?
    case StoreTag => m.phase.Loaded?
    case StoreActive => m.phase.TagStored?
    case StoreSeq => m.phase.Flipped?
    case StoreDirty => m.phase.Announced?
  }

  function WriterDoes(m: Shared, w: WriterStep): Shared
    requires WriterCan(m, w)
  {
    var back := Back(m);
    match w
    case StartFill => m.(phase := Filling({}))
    case StorePixel(at, value) =>
      m.(slots := m.slots[back := m.slots[back][at := value]], phase := Filling(m.phase.stored + {at}))
    case EndFill => m.(phase := Loaded(ToI32(m.frameSeq + 1)), frames := m.frames + [m.slots[back]])
    case StoreTag =>
      m.(tag := m.tag[back := m.phase.newSeq], tagged := m.tagged[back := m.done + 1],
         phase := TagStored(m.phase.newSeq))
    case StoreActive => m.(active := back, phase := Flipped(m.phase.newSeq))
    case StoreSeq => m.(frameSeq := m.phase.newSeq, done := m.done + 1, phase := Announced)
    case StoreDirty => m.(dirty := true, local := back, phase := Idle)
  }

  /** The newest frame up to `m` that belongs in slot `b`; 0 before slot 1 has had any. */
  function Latest(b: nat, m: nat): nat {
    if m % 2 == b then m else if m == 0 then 0 else m - 1
  }

  /** Frames whose fill has begun. */
  function Begun(m: Shared): nat {
    if m.phase.Idle? || m.phase.Announced? then m.done else m.done + 1
  }

  /** The newest frame number stored in a slot tag. */
  function Newest(m: Shared): nat {
    if m.phase.TagStored? || m.phase.Flipped? then m.done + 1 else m.done
  }

  ghost predicate Counts(m: Shared)
    requires Shaped(m)
  {
    && m.frameSeq == ToI32(m.done)
    && (if m.phase.Announced? then m.done >= 1 && m.local == (m.done - 1) % 2 else m.local == m.done % 2)
    && m.active == (if m.phase.Flipped? then m.done + 1 else m.done) % 2
    && |m.frames| == (if m.phase.Loaded? || m.phase.TagStored? || m.phase.Flipped? then m.done + 2 else m.done + 1)
    && (m.phase.Loaded? || m.phase.TagStored? || m.phase.Flipped? ==> m.phase.newSeq == ToI32(m.done + 1))
    && (forall b | 0 <= b < 2 :: m.tagged[b] == Latest(b, Newest(m)) && m.tag[b] == ToI32(m.tagged[b]))
  }

  /** The slot's tag names the frame it holds, unless the slot is being refilled. */
  ghost predicate Holds(m: Shared, b: nat)
    requires Shaped(m) && Counts(m) && b < 2
  {
    var k := m.tagged[b];
    k % 2 == b ==>
      if b == Back(m) && m.phase.Filling?
      then forall j | 0 <= j < m.width && j !in m.phase.stored :: m.slots[b][j] == m.frames[k][j]
      else if b == Back(m) && m.phase.Loaded? then m.slots[b] == m.frames[m.done + 1]
      else m.slots[b] == m.frames[k]
  }

  ghost predicate WriterInv(m: Shared) {
    && Shaped(m) && Counts(m)
    && Holds(m, 0) && Holds(m, 1)
    && (m.phase.Loaded? ==> m.slots[Back(m)] == m.frames[m.done + 1])
  }

  lemma StartInv(slot0: Frame, slot1: Frame)
    requires |slot0| == |slot1|
    ensures WriterInv(Start(slot0, slot1))
  {
  }

  lemma ShapedKept(m: Shared, w: WriterStep)
    requires WriterCan(m, w)
    ensures Shaped(WriterDoes(m, w))
  {
    hide ToI32;
  }

  lemma CountsKept(m: Shared, w: WriterStep)
    requires Shaped(m) && Counts(m) && WriterCan(m, w) && Shaped(WriterDoes(m, w))
    ensures Counts(WriterDoes(m, w))
  {
    WrapSuccessor(m.done);
    hide ToI32, ToU32;
    match w
    case StoreTag =>
    case StoreSeq =>
    case StoreDirty =>
    case _ =>
  }

  lemma HoldsKept(m: Shared, w: WriterStep, b: nat)
    requires WriterInv(m) && WriterCan(m, w) && b < 2
    requires Shaped(WriterDoes(m, w)) && Counts(WriterDoes(m, w))
    ensures Holds(WriterDoes(m, w), b)
  {
    hide ToI32;
    var n := WriterDoes(m, w);
    assert Holds(m, b);
    match w
    case StorePixel(at, value) =>
    case _ =>
  }

  lemma WriterKeeps(m: Shared, w: WriterStep)
    requires WriterInv(m) && WriterCan(m, w)
    ensures WriterInv(WriterDoes(m, w))
    ensures m.frames <= WriterDoes(m, w).frames
  {
    ShapedKept(m, w);
    CountsKept(m, w);
    HoldsKept(m, w, 0);
    HoldsKept(m, w, 1);
  }

  // The optimistic reader

  datatype Reader =
    | Waiting
    | HasSeq(seq_: nat, seen: nat)
    | HasActive(seq_: nat, seen: nat, active: nat)
    | Reading(seq_: nat, seen: nat, active: nat, frame: nat, got: map<nat, int>)

  datatype ReaderStep = LoadSeq | LoadActive | Check | ReadPixel(at: nat) | GiveUp

  datatype State = State(shared: Shared, reader: Reader)

  datatype Step = ByWriter(w: WriterStep) | ByReader(r: ReaderStep)

  predicate ReaderCan(s: State, r: ReaderStep) {
    Shaped(s.shared) && (s.reader.HasActive? || s.reader.Reading? ==> s.reader.active < 2) &&
    match r
    case LoadSeq => s.reader.Waiting?
    case LoadActive => s.reader.HasSeq?
    case Check => s.reader.HasActive?
    case ReadPixel(at) => s.reader.Reading? && at < s.shared.width
    case GiveUp => true
  }

  function ReaderDoes(s: State, r: ReaderStep): Reader
    requires ReaderCan(s, r)
  {
    var m := s.shared;
    match r
    case LoadSeq => HasSeq(ToU32(m.frameSeq), m.done)
    case LoadActive => HasActive(s.reader.seq_, s.reader.seen, m.active)
    case Check =>
      // An unsigned sequence is compared with a signed tag.
      if m.tag[s.reader.active] == s.reader.seq_
      then Reading(s.reader.seq_, s.reader.seen, s.reader.active, m.tagged[s.reader.active], map[])
      else Waiting
    case ReadPixel(at) => s.reader.(got := s.reader.got[at := m.slots[s.reader.active][at]])
    case GiveUp => Waiting
  }

  ghost predicate ReaderInv(s: State)
    requires WriterInv(s.shared)
  {
    var m := s.shared;
    match s.reader
    case Waiting => true
    case HasSeq(q, seen) => q == ToU32(seen) && seen <= m.done
    case HasActive(q, seen, a) =>
      q == ToU32(seen) && seen <= m.done && a < 2 && m.tagged[a] % 2 == a && seen <= m.tagged[a]
    case Reading(q, seen, a, n, got) =>
      && q == ToU32(seen) && q == ToU32(n) && q < TWO31
      && seen <= n && n % 2 == a && a < 2 && n <= m.tagged[a] && n < |m.frames|
      && (forall j | j in got :: j < m.width)
      && (Begun(m) < n + 2 ==> forall j | j in got :: got[j] == m.frames[n][j])
  }

  ghost predicate Inv(s: State) {
    WriterInv(s.shared) && ReaderInv(s)
  }

  predicate Can(s: State, t: Step) {
    match t
    case ByWriter(w) => WriterCan(s.shared, w)
    case ByReader(r) => ReaderCan(s, r)
  }

  function Do(s: State, t: Step): State
    requires Can(s, t)
  {
    match t
    case ByWriter(w) => s.(shared := WriterDoes(s.shared, w))
    case ByReader(r) => s.(reader := ReaderDoes(s, r))
  }

  lemma TagsGrow(m: Shared, w: WriterStep)
    requires WriterInv(m) && WriterCan(m, w)
    ensures var n := WriterDoes(m, w);
            && m.done <= n.done && Begun(m) <= Begun(n)
            && forall b | 0 <= b < 2 :: m.tagged[b] <= n.tagged[b] && (m.tagged[b] % 2 == b ==> n.tagged[b] % 2 == b)
  {
    hide Holds, ToI32;
  }

  lemma WriterKeepsReader(s: State, w: WriterStep)
    requires Inv(s) && WriterCan(s.shared, w)
    ensures Inv(s.(shared := WriterDoes(s.shared, w)))
  {
    hide Holds, Counts, ToU32;
    WriterKeeps(s.shared, w);
    TagsGrow(s.shared, w);
    if s.reader.Reading? {
      assert WriterDoes(s.shared, w).frames[s.reader.frame] == s.shared.frames[s.reader.frame];
    }
  }

  /** While frame `n + 2` is not begun, the slot that holds frame `n` still holds all of it. */
  lemma SlotStillHolds(m: Shared, n: nat)
    requires WriterInv(m) && n <= m.tagged[n % 2] && n < |m.frames| && Begun(m) < n + 2
    ensures m.slots[n % 2] == m.frames[n]
  {
    hide ToI32;
    assert m.tagged[n % 2] == n;
    assert Holds(m, n % 2);
  }

  lemma ActiveIsTagged(m: Shared)
    requires WriterInv(m)
    ensures m.done <= m.tagged[m.active] && m.tagged[m.active] % 2 == m.active
  {
    hide Holds, ToI32;
  }

  lemma SignedMatch(n: int, q: nat)
    requires ToI32(n) == q
    ensures ToU32(n) == q && q < TWO31
  {
  }

  lemma ReaderKeeps(s: State, r: ReaderStep)
    requires Inv(s) && ReaderCan(s, r)
    ensures Inv(s.(reader := ReaderDoes(s, r)))
  {
    hide Holds, ToU32, ToI32;
    var m := s.shared;
    match r
    case LoadSeq => WrapSuccessor(m.done);
    case LoadActive => ActiveIsTagged(m);
    case Check =>
      if m.tag[s.reader.active] == s.reader.seq_ {
        SignedMatch(m.tagged[s.reader.active], s.reader.seq_);
      }
    case ReadPixel(at) =>
      if Begun(m) < s.reader.frame + 2 {
        SlotStillHolds(m, s.reader.frame);
      }
    case GiveUp =>
  }

  lemma StepKeeps(s: State, t: Step)
    requires Inv(s) && Can(s, t)
    ensures Inv(Do(s, t))
  {
    match t
    case ByWriter(w) => WriterKeepsReader(s, w);
    case ByReader(r) => ReaderKeeps(s, r);
  }

  /** A run: the steps in order, each enabled where it is taken. */
  function Play(s: State, steps: seq<Step>): Option<State>
    decreases |steps|
  {
    if steps == [] then Some(s)
    else if Can(s, steps[0]) then Play(Do(s, steps[0]), steps[1..])
    else None
  }

  function Begin(slot0: Frame, slot1: Frame): State {
    State(Start(slot0, slot1), Waiting)
  }

  lemma {:induction false} PlayKeeps(s: State, steps: seq<Step>)
    requires Inv(s) && Play(s, steps).Some?
    ensures Inv(Play(s, steps).value)
    decreases |steps|
  {
    if steps == [] {
    } else {
      StepKeeps(s, steps[0]);
      PlayKeeps(Do(s, steps[0]), steps[1..]);
    }
  }

  /** No reachable state stops the writer: some step is always enabled. */
  lemma WriterProgress(m: Shared)
    requires WriterInv(m)
    ensures exists w: WriterStep :: WriterCan(m, w)
  {
    var w := match m.phase
      case Idle => StartFill
      case Filling(_) => EndFill
      case Loaded(_) => StoreTag
      case TagStored(_) => StoreActive
      case Flipped(_) => StoreSeq
      case Announced => StoreDirty;
    assert WriterCan(m, w);
  }

  /** Safety over all interleavings and any number of frames: once the check has passed, the active
      slot is the frame's parity, the frame is no older than the sequence that was loaded, and until
      the writer begins frame `n + 2` every pixel read is frame `n`'s. */
  lemma CheckedReadIsFrame(slot0: Frame, slot1: Frame, steps: seq<Step>)
    requires |slot0| == |slot1|
    ensures var end := Play(Begin(slot0, slot1), steps);
            end.Some? && end.value.reader.Reading? ==>
              var m, r := end.value.shared, end.value.reader;
              && r.active == r.frame % 2 && r.seq_ == ToU32(r.frame) && r.seen <= r.frame < |m.frames|
              && (Begun(m) < r.frame + 2 ==>
                    forall j | j in r.got :: j < |m.frames[r.frame]| && r.got[j] == m.frames[r.frame][j])
  {
    StartInv(slot0, slot1);
    if Play(Begin(slot0, slot1), steps).Some? {
      PlayKeeps(Begin(slot0, slot1), steps);
    }
  }

  /** Frame `n + 2` is not begun, or pixel `j` of it is not yet stored. */
  predicate NotYetStored(m: Shared, n: nat, j: nat) {
    Begun(m) < n + 2 || (Begun(m) == n + 2 && m.phase.Filling? && j !in m.phase.stored)
  }

  lemma PixelStillFrames(s: State, j: nat)
    requires Inv(s) && s.reader.Reading? && j < s.shared.width && NotYetStored(s.shared, s.reader.frame, j)
    ensures s.shared.slots[s.reader.active][j] == s.shared.frames[s.reader.frame][j]
  {
    hide ToI32, ToU32;
    var m, n := s.shared, s.reader.frame;
    if Begun(m) < n + 2 {
      SlotStillHolds(m, n);
    } else {
      assert m.tagged[n % 2] == n;
      assert Holds(m, n % 2);
    }
  }

  /** The pixel a reader of frame `n` would read next is still frame `n`'s until frame `n + 2` is begun, and even then
      until that very pixel is stored. */
  lemma NextPixelIsFrames(slot0: Frame, slot1: Frame, steps: seq<Step>, j: nat)
    requires |slot0| == |slot1|
    ensures var end := Play(Begin(slot0, slot1), steps);
            end.Some? && end.value.reader.Reading? && j < end.value.shared.width ==>
              var m, r := end.value.shared, end.value.reader;
              && ReaderCan(end.value, ReadPixel(j)) && r.frame < |m.frames| && |m.frames[r.frame]| == m.width
              && (NotYetStored(m, r.frame, j) ==>
                    ReaderDoes(end.value, ReadPixel(j)).got == r.got[j := m.frames[r.frame][j]])
  {
    hide Play, NotYetStored, Counts, Holds;
    StartInv(slot0, slot1);
    var end := Play(Begin(slot0, slot1), steps);
    if end.Some? && end.value.reader.Reading? && j < end.value.shared.width {
      PlayKeeps(Begin(slot0, slot1), steps);
      if NotYetStored(end.value.shared, end.value.reader.frame, j) {
        PixelStillFrames(end.value, j);
      }
    }
  }

  predicate Overtaken(s: State, j: nat) {
    && s.reader.Reading? && s.shared.phase.Filling? && j < s.shared.width
    && Begun(s.shared) == s.reader.frame + 2
  }

  lemma StoreThenRead(s: State, j: nat, v: int)
    requires Inv(s) && Overtaken(s, j)
    ensures var torn := Play(s, [ByWriter(StorePixel(j, v)), ByReader(ReadPixel(j))]);
            && torn.Some? && torn.value.reader == s.reader.(got := s.reader.got[j := v])
            && torn.value.shared.frames == s.shared.frames
  {
    hide Play, Holds, ToI32, ToU32;
    var store, read := ByWriter(StorePixel(j, v)), ByReader(ReadPixel(j));
    var t := Do(s, store);
    ShapedKept(s.shared, StorePixel(j, v));
    assert [store, read] == [store] + [read];
    PlayOne(s, store, [read]);
    PlayOneLast(t, read);
  }

  /** The bound cannot be moved: once frame `n + 2` is begun, one store and one read hand a reader of frame `n` any
      value at all. */
  lemma TornOnceBegun(slot0: Frame, slot1: Frame, steps: seq<Step>, j: nat, v: int)
    requires |slot0| == |slot1|
    ensures var end := Play(Begin(slot0, slot1), steps);
            var torn := Play(Begin(slot0, slot1), steps + [ByWriter(StorePixel(j, v)), ByReader(ReadPixel(j))]);
            end.Some? && Overtaken(end.value, j) ==>
              && torn.Some? && torn.value.reader == end.value.reader.(got := end.value.reader.got[j := v])
              && torn.value.shared.frames == end.value.shared.frames
  {
    hide Play, Inv;
    var s0 := Begin(slot0, slot1);
    StartInv(slot0, slot1);
    if Play(s0, steps).Some? && Overtaken(Play(s0, steps).value, j) {
      PlayKeeps(s0, steps);
      PlayThen(s0, steps, [ByWriter(StorePixel(j, v)), ByReader(ReadPixel(j))]);
      StoreThenRead(Play(s0, steps).value, j, v);
    }
  }

  /** With fewer than 2^32 frames published in the meantime it is the very frame that was loaded. */
  lemma CheckedReadIsTheLoadedFrame(slot0: Frame, slot1: Frame, steps: seq<Step>)
    requires |slot0| == |slot1|
    ensures var end := Play(Begin(slot0, slot1), steps);
            end.Some? && end.value.reader.Reading? &&
            end.value.shared.done + 1 < end.value.reader.seen + U32 ==>
              end.value.reader.frame == end.value.reader.seen
  {
    hide Holds;
    StartInv(slot0, slot1);
    var end := Play(Begin(slot0, slot1), steps);
    if end.Some? && end.value.reader.Reading? {
      PlayKeeps(Begin(slot0, slot1), steps);
      var m, r := end.value.shared, end.value.reader;
      assert r.frame <= m.tagged[r.active] <= m.done + 1;
      if m.done + 1 < r.seen + U32 {
        SameResidue(r.seen, r.frame);
      }
    }
  }

  lemma SameResidue(a: nat, b: nat)
    requires ToU32(a) == ToU32(b) && a <= b < a + U32
    ensures a == b
  {
  }

  /** With the writer at rest, three loads in a row pass the check exactly while the frame number
      modulo 2^32 is below 2^31: in the other half of every 2^32 frames the unsigned sequence does not
      equal the signed tag. */
  lemma QuietCheck(m: Shared)
    requires WriterInv(m) && m.phase.Idle?
    ensures var s0 := State(m, Waiting);
            var s1 := s0.(reader := ReaderDoes(s0, LoadSeq));
            var s2 := s1.(reader := ReaderDoes(s1, LoadActive));
            ReaderDoes(s2, Check).Reading? <==> m.done % U32 < TWO31
  {
    WrapSuccessor(m.done);
  }

  // A torn read

  lemma PlayThen(s: State, first: seq<Step>, rest: seq<Step>)
    requires Play(s, first).Some?
    ensures Play(s, first + rest) == Play(Play(s, first).value, rest)
    decreases |first|
  {
    if first == [] {
      assert first + rest == rest;
    } else {
      assert (first + rest)[1..] == first[1..] + rest;
      PlayThen(Do(s, first[0]), first[1..], rest);
    }
  }

  lemma PlayOne(s: State, t: Step, rest: seq<Step>)
    requires Can(s, t)
    ensures Play(s, [t] + rest) == Play(Do(s, t), rest)
  {
    assert ([t] + rest)[1..] == rest;
  }

  function Publish(): seq<Step> {
    [ByWriter(EndFill)] + ([ByWriter(StoreTag)] + ([ByWriter(StoreActive)] +
      ([ByWriter(StoreSeq)] + ([ByWriter(StoreDirty)] + []))))
  }

  function FillBoth(v: int): seq<Step> {
    [ByWriter(StartFill)] + ([ByWriter(StorePixel(0, v))] + ([ByWriter(StorePixel(1, v))] + []))
  }

  function Filled(m: Shared, v: int): Shared
    requires Shaped(m)
  {
    m.(slots := m.slots[Back(m) := [v, v]], phase := Filling({0, 1}))
  }

  lemma PlayFill(s: State, v: int)
    requires Shaped(s.shared) && s.shared.width == 2 && s.shared.phase.Idle?
    ensures Play(s, FillBoth(v)) == Some(s.(shared := Filled(s.shared, v)))
  {
    var m := s.shared;
    var b := Back(m);
    var s1 := s.(shared := m.(phase := Filling({})));
    PlayOne(s, ByWriter(StartFill), [ByWriter(StorePixel(0, v))] + ([ByWriter(StorePixel(1, v))] + []));
    var s2 := Do(s1, ByWriter(StorePixel(0, v)));
    PlayOne(s1, ByWriter(StorePixel(0, v)), [ByWriter(StorePixel(1, v))] + []);
    ShapedKept(s1.shared, StorePixel(0, v));
    PlayOne(s2, ByWriter(StorePixel(1, v)), []);
    assert m.slots[b][0 := v][1 := v] == [v, v];
    assert m.slots[b := m.slots[b][0 := v]][b := [v, v]] == m.slots[b := [v, v]];
    assert {} + {0} + {1} == {0, 1};
  }

  function Published(m: Shared): Shared
    requires Shaped(m)
  {
    var b, q := Back(m), ToI32(m.frameSeq + 1);
    m.(frames := m.frames + [m.slots[b]], tag := m.tag[b := q], tagged := m.tagged[b := m.done + 1],
       active := b, frameSeq := q, done := m.done + 1, dirty := true, local := b, phase := Idle)
  }

  lemma PlayPublish(s: State)
    requires Shaped(s.shared) && s.shared.phase.Filling?
    ensures Play(s, Publish()) == Some(s.(shared := Published(s.shared)))
  {
    hide ToI32, Play;
    ShapedKept(s.shared, EndFill);
    var tail4 := [ByWriter(StoreDirty)] + [];
    var tail3 := [ByWriter(StoreSeq)] + tail4;
    var tail2 := [ByWriter(StoreActive)] + tail3;
    var tail1 := [ByWriter(StoreTag)] + tail2;
    var s1 := Do(s, ByWriter(EndFill));
    PlayOne(s, ByWriter(EndFill), tail1);
    var s2 := Do(s1, ByWriter(StoreTag));
    PlayOne(s1, ByWriter(StoreTag), tail2);
    ShapedKept(s1.shared, StoreTag);
    var s3 := Do(s2, ByWriter(StoreActive));
    PlayOne(s2, ByWriter(StoreActive), tail3);
    ShapedKept(s2.shared, StoreActive);
    var s4 := Do(s3, ByWriter(StoreSeq));
    PlayOne(s3, ByWriter(StoreSeq), tail4);
    PlayOneLast(s4, ByWriter(StoreDirty));
    assert [ByWriter(StoreDirty)] + [] == [ByWriter(StoreDirty)];
  }

  /** One whole frame of equal pixels. */
  lemma PlayFrame(s: State, v: int)
    requires Shaped(s.shared) && s.shared.width == 2 && s.shared.phase.Idle?
    ensures Shaped(Filled(s.shared, v))
    ensures Play(s, FillBoth(v) + Publish()) == Some(s.(shared := Published(Filled(s.shared, v))))
  {
    hide ToI32, FillBoth, Publish, Play, Published;
    PlayFill(s, v);
    PlayThen(s, FillBoth(v), Publish());
    PlayPublish(s.(shared := Filled(s.shared, v)));
  }

  function Sample(): seq<Step> {
    [ByReader(LoadSeq)] + ([ByReader(LoadActive)] + ([ByReader(Check)] + ([ByReader(ReadPixel(0))] + [])))
  }

  lemma PlaySample(s: State)
    requires Shaped(s.shared) && s.reader.Waiting? && s.shared.width == 2 && s.shared.frameSeq == 1
    requires s.shared.active == 1 && s.shared.tag[1] == 1 && s.shared.tagged[1] == 1
    ensures Play(s, Sample()) == Some(s.(reader := Reading(1, s.shared.done, 1, 1, map[0 := s.shared.slots[1][0]])))
  {
    var r1, r2 := HasSeq(1, s.shared.done), HasActive(1, s.shared.done, 1);
    var r3 := Reading(1, s.shared.done, 1, 1, map[]);
    PlayOne(s, ByReader(LoadSeq), [ByReader(LoadActive)] + ([ByReader(Check)] + ([ByReader(ReadPixel(0))] + [])));
    PlayOne(s.(reader := r1), ByReader(LoadActive), [ByReader(Check)] + ([ByReader(ReadPixel(0))] + []));
    PlayOne(s.(reader := r2), ByReader(Check), [ByReader(ReadPixel(0))] + []);
    PlayOne(s.(reader := r3), ByReader(ReadPixel(0)), []);
  }

  /** Without that last condition a read can mix two frames: the check passes on frame 1, the writer
      publishes frame 2 and refills the slot, and the reader returns one pixel of each. */
  lemma TornRead() returns (steps: seq<Step>)
    ensures var end := Play(Begin([0, 0], [0, 0]), steps);
            && end.Some? && end.value.reader.Reading? && end.value.reader.frame == 1
            && end.value.shared.frames == [[0, 0], [1, 1], [2, 2]]
            && end.value.reader.got == map[0 := 1, 1 := 3]
  {
    hide FillBoth, Publish, Sample, Play;
    var s0 := Begin([0, 0], [0, 0]);
    var frame1, frame2 := FillBoth(1) + Publish(), FillBoth(2) + Publish();
    PlayFrame(s0, 1);
    var s1 := Play(s0, frame1).value;
    PlaySample(s1);
    var s2 := Play(s1, Sample()).value;
    PlayFrame(s2, 2);
    var s3 := Play(s2, frame2).value;
    PlayFill(s3, 3);
    var s4 := Play(s3, FillBoth(3)).value;
    PlayOneLast(s4, ByReader(ReadPixel(1)));
    steps := frame1 + (Sample() + (frame2 + (FillBoth(3) + [ByReader(ReadPixel(1))])));
    PlayThen(s0, frame1, Sample() + (frame2 + (FillBoth(3) + [ByReader(ReadPixel(1))])));
    PlayThen(s1, Sample(), frame2 + (FillBoth(3) + [ByReader(ReadPixel(1))]));
    PlayThen(s2, frame2, FillBoth(3) + [ByReader(ReadPixel(1))]);
    PlayThen(s3, FillBoth(3), [ByReader(ReadPixel(1))]);
  }

  lemma PlayOneLast(s: State, t: Step)
    requires Can(s, t)
    ensures Play(s, [t]) == Some(Do(s, t))
  {
    PlayOne(s, t, []);
    assert [t] + [] == [t];
  }

  // A check that fails at rest

  lemma {:induction false} PlayFrames(n: nat) returns (steps: seq<Step>)
    ensures var end := Play(Begin([0, 0], [0, 0]), steps);
            && end.Some? && end.value.reader.Waiting? && Shaped(end.value.shared) && end.value.shared.width == 2
            && end.value.shared.phase.Idle? && end.value.shared.done == n
    decreases n
  {
    hide FillBoth, Publish, Play, ToI32;
    var s0 := Begin([0, 0], [0, 0]);
    if n == 0 {
      steps := [];
      PlayNothing(s0);
    } else {
      var before := PlayFrames(n - 1);
      var s := Play(s0, before).value;
      PlayFrame(s, 0);
      steps := before + (FillBoth(0) + Publish());
      PlayThen(s0, before, FillBoth(0) + Publish());
    }
  }

  lemma PlayNothing(s: State)
    ensures Play(s, []) == Some(s)
  {
  }

  /** After 2^31 frames the writer is at rest and three loads in a row fail the check. */
  lemma CheckFailsAt2To31() returns (steps: seq<Step>)
    ensures var end := Play(Begin([0, 0], [0, 0]), steps);
            && end.Some? && end.value.shared.done == TWO31 && end.value.shared.phase.Idle?
            && Shaped(end.value.shared) && end.value.reader.Waiting?
            && var s1 := end.value.(reader := ReaderDoes(end.value, LoadSeq));
               var s2 := s1.(reader := ReaderDoes(s1, LoadActive));
               !ReaderDoes(s2, Check).Reading?
  {
    hide Play;
    steps := PlayFrames(TWO31);
    var s0 := Begin([0, 0], [0, 0]);
    StartInv([0, 0], [0, 0]);
    PlayKeeps(s0, steps);
    QuietCheck(Play(s0, steps).value.shared);
  }
}
