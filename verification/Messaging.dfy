/** Inter-core messaging, src/tpg_msg.c, as a transition system. Every core has a
    stack of msg_do_send and msg_process activations; a step of a core is one
    access to shared memory together with the private work around it; the cores
    interleave in any order. */
module Messaging {
  import opened Prelude

  type MsgId = nat
  type Core = nat

  /** Each core has a queue for other cores and one for itself. */
  datatype Ring = Ring(core: Core, isLocal: bool)

  datatype MsgState = Init | Queued | Dequeued

  /** The activation at this depth of the stack of this core. */
  datatype Slot = Slot(core: Core, depth: nat)

  /** Where a message is. Not in the code: this records who may use it. */
  datatype Place =
    | Owned(core: Core)        // by the application, which may send or free it
    | Entering(slot: Slot)     // being put on a ring
    | InRing(ring: Ring)
    | Handled(slot: Slot)
    | Done                     // handled for good, marked as dequeued
    | Freed

  /** The header fields, whether the memory is allocated, and three recordings:
      the place, the activation that spins on the state, and whether a handler
      has finished with a result other than -EAGAIN since the last send. */
  datatype Msg = Msg(state: MsgState, toFree: bool, isLocal: bool, dest: Core, live: bool,
                     place: Place, waiter: Option<Slot>, finished: bool)

  datatype SendAt = Enqueue | Wait | Finish | Return(ok: bool)
  datatype HandleAt = Check | Running | Reposted | Complete

  datatype Frame =
    | Sending(m: MsgId, ring: Ring, noblock: bool, nowait: bool, toFree: bool, sendAt: SendAt)
    | Handling(m: MsgId, toFree: bool, handleAt: HandleAt)

  /** fault is set by any access to memory that is not allocated and by the
      failure of the assertion at line 118. */
  datatype State = State(msgs: map<MsgId, Msg>, rings: map<Ring, seq<MsgId>>,
                         stacks: map<Core, seq<Frame>>, fault: bool)

  datatype Step =
    | InitMsg(core: Core, m: MsgId, dest: Core, isLocal: bool, toFree: bool)
    | FreeMsg(core: Core, m: MsgId)
    | Reclaim(core: Core, m: MsgId)
    | Send(core: Core, m: MsgId, noblock: bool, nowait: bool)
    | TryEnqueue(core: Core)
    | Spin(core: Core)
    | FinishSend(core: Core)
    | Poll(core: Core, isLocal: bool)
    | StartHandler(core: Core)
    | HandlerReturns(core: Core, again: bool)
    | CompleteHandling(core: Core)
    | ReturnToCaller(core: Core)

  // ----- the code

  function Contents(s: State, r: Ring): seq<MsgId> {
    if r in s.rings then s.rings[r] else []
  }

  function Stack(s: State, c: Core): seq<Frame> {
    if c in s.stacks then s.stacks[c] else []
  }

  function Top(s: State, c: Core): Frame
    requires Stack(s, c) != []
  {
    Stack(s, c)[|Stack(s, c)| - 1]
  }

  function Below(s: State, c: Core): seq<Frame>
    requires Stack(s, c) != []
  {
    Stack(s, c)[..|Stack(s, c)| - 1]
  }

  function TopSlot(s: State, c: Core): Slot
    requires Stack(s, c) != []
  {
    Slot(c, |Stack(s, c)| - 1)
  }

  predicate TopSends(s: State, c: Core, at: SendAt) {
    Stack(s, c) != [] && Top(s, c).Sending? && Top(s, c).sendAt == at
  }

  predicate TopHandles(s: State, c: Core, at: HandleAt) {
    Stack(s, c) != [] && Top(s, c).Handling? && Top(s, c).handleAt == at
  }

  /** Application code runs on the core: its packet loop, or a message handler. */
  predicate AppRuns(s: State, c: Core) {
    Stack(s, c) == [] || TopHandles(s, c, Running)
  }

  predicate OwnedBy(s: State, c: Core, m: MsgId) {
    m in s.msgs && s.msgs[m].place == Owned(c)
  }

  /** The application initialises, frees and sends only messages it owns. It gets
      a message sent without waiting back when it sees that it was dequeued. */
  predicate Enabled(s: State, st: Step) {
    match st
    case InitMsg(c, m, _, _, _) => AppRuns(s, c) && (m !in s.msgs || OwnedBy(s, c, m))
    case FreeMsg(c, m) => AppRuns(s, c) && OwnedBy(s, c, m)
    case Reclaim(c, m) =>
      AppRuns(s, c) && m in s.msgs && s.msgs[m].place == Done && s.msgs[m].waiter == None
    case Send(c, m, _, _) => AppRuns(s, c) && OwnedBy(s, c, m)
    case TryEnqueue(c) => TopSends(s, c, Enqueue)
    case Spin(c) => TopSends(s, c, Wait)
    case FinishSend(c) => TopSends(s, c, Finish)
    case Poll(c, l) => Stack(s, c) == [] && Contents(s, Ring(c, l)) != []
    case StartHandler(c) => TopHandles(s, c, Check)
    case HandlerReturns(c, _) => TopHandles(s, c, Running)
    case CompleteHandling(c) => TopHandles(s, c, Complete)
    case ReturnToCaller(c) =>
      TopHandles(s, c, Reposted) || TopSends(s, c, Return(true)) || TopSends(s, c, Return(false))
  }

  /** The messages whose memory the step reads or writes. */
  function Accesses(s: State, st: Step): set<MsgId>
    requires Enabled(s, st)
  {
    match st
    case InitMsg(c, m, _, _, _) => if m in s.msgs then {m} else {}
    case FreeMsg(c, m) => {m}
    case Reclaim(c, m) => {m}
    case Send(c, m, _, _) => {m}
    case TryEnqueue(c) => {}
    case Spin(c) => {Top(s, c).m}
    case FinishSend(c) => {Top(s, c).m}
    case Poll(c, l) => {}
    case StartHandler(c) => {Top(s, c).m}
    case HandlerReturns(c, again) => if again then {Top(s, c).m} else {}
    case CompleteHandling(c) => {Top(s, c).m}
    case ReturnToCaller(c) => {}
  }

  function SetMsg(s: State, m: MsgId, msg: Msg): State {
    s.(msgs := s.msgs[m := msg])
  }

  function SetStack(s: State, c: Core, stack: seq<Frame>): State {
    s.(stacks := s.stacks[c := stack])
  }

  function Push(s: State, c: Core, f: Frame): State {
    SetStack(s, c, Stack(s, c) + [f])
  }

  function Pop(s: State, c: Core): State
    requires Stack(s, c) != []
  {
    SetStack(s, c, Stack(s, c)[..|Stack(s, c)| - 1])
  }

  function SetTop(s: State, c: Core, f: Frame): State
    requires Stack(s, c) != []
  {
    SetStack(s, c, Stack(s, c)[|Stack(s, c)| - 1 := f])
  }

  function Lookup(s: State, m: MsgId): Msg {
    if m in s.msgs then s.msgs[m] else Msg(Init, false, false, 0, false, Freed, None, false)
  }

  /** msg_do_send up to the loop: the TO_FREE flag is taken away from the receiver
      of a blocking send, and the state is set. */
  function BeginSend(s: State, c: Core, m: MsgId, ring: Ring, noblock: bool, nowait: bool): State {
    var msg := Lookup(s, m);
    var slot := Slot(c, |Stack(s, c)|);
    Push(SetMsg(s, m, msg.(state := Queued, toFree := msg.toFree && nowait, place := Entering(slot),
                           waiter := if nowait then msg.waiter else Some(slot))),
         c, Sending(m, ring, noblock, nowait, msg.toFree, Enqueue))
  }

  /** rte_ring_enqueue on a ring of the given capacity, lines 176-178. */
  function Enqueued(s: State, c: Core, capacity: nat): State
    requires Stack(s, c) != [] && Top(s, c).Sending?
  {
    var f := Top(s, c);
    var msg := Lookup(s, f.m);
    if |Contents(s, f.ring)| < capacity then
      var t := SetTop(SetMsg(s, f.m, msg.(place := InRing(f.ring))), c,
                      f.(sendAt := if f.nowait then Return(true) else Wait));
      t.(rings := t.rings[f.ring := Contents(s, f.ring) + [f.m]])
    else if f.noblock then
      SetTop(SetMsg(s, f.m, msg.(place := Owned(c), waiter := None)), c, f.(sendAt := Return(false)))
    else s
  }

  function Execute(s: State, st: Step, capacity: nat): State
    requires Enabled(s, st)
  {
    match st
    case InitMsg(c, m, dest, isLocal, toFree) =>
      SetMsg(s, m, Msg(Init, toFree, isLocal, dest, if m in s.msgs then s.msgs[m].live else true,
                       Owned(c), None, false))
    case FreeMsg(c, m) => SetMsg(s, m, s.msgs[m].(live := false, place := Freed))
    case Reclaim(c, m) => SetMsg(s, m, s.msgs[m].(place := Owned(c)))
    case Send(c, m, noblock, nowait) =>
      var msg := s.msgs[m];
      BeginSend(SetMsg(s, m, msg.(finished := false)), c, m, Ring(msg.dest, msg.isLocal), noblock, nowait)
    case TryEnqueue(c) => Enqueued(s, c, capacity)
    case Spin(c) =>
      var f := Top(s, c);
      if Lookup(s, f.m).state == Dequeued then SetTop(s, c, f.(sendAt := Finish)) else s
    case FinishSend(c) =>
      var f := Top(s, c);
      var msg := Lookup(s, f.m);
      SetTop(SetMsg(s, f.m, if f.toFree then msg.(live := false, place := Freed, waiter := None)
                            else msg.(state := Init, place := Owned(c), waiter := None)),
             c, f.(sendAt := Return(true)))
    case Poll(c, l) =>
      var r := Ring(c, l);
      var m := Contents(s, r)[0];
      var t := s.(rings := s.rings[r := Contents(s, r)[1..]]);
      Push(SetMsg(t, m, Lookup(s, m).(place := Handled(Slot(c, 0)))), c, Handling(m, false, Check))
    case StartHandler(c) =>
      var f := Top(s, c);
      SetTop(s.(fault := s.fault || Lookup(s, f.m).state != Queued), c,
             f.(toFree := Lookup(s, f.m).toFree, handleAt := Running))
    case HandlerReturns(c, again) =>
      var f := Top(s, c);
      var msg := Lookup(s, f.m);
      if again then
        BeginSend(SetMsg(SetTop(s, c, f.(handleAt := Reposted)), f.m, msg.(toFree := false)),
                  c, f.m, Ring(msg.dest, true), false, true)
      else
        SetTop(SetMsg(s, f.m, msg.(finished := true)), c, f.(handleAt := Complete))
    case CompleteHandling(c) =>
      var f := Top(s, c);
      var msg := Lookup(s, f.m);
      Pop(SetMsg(s, f.m, if f.toFree then msg.(live := false, place := Freed)
                         else msg.(state := Dequeued, place := Done)), c)
    case ReturnToCaller(c) => Pop(s, c)
  }

  /** One step, which faults when it touches memory that is not allocated. */
  function Next(s: State, st: Step, capacity: nat): State
    requires Enabled(s, st)
  {
    var t := Execute(s, st, capacity);
    t.(fault := t.fault || exists m :: m in Accesses(s, st) && !Lookup(s, m).live)
  }

  // ----- the invariant

  function FrameAt(s: State, slot: Slot): Option<Frame> {
    if slot.depth < |Stack(s, slot.core)| then Some(Stack(s, slot.core)[slot.depth]) else None
  }

  /** An activation that will use its message again is where the message is, or
      is the one that waits for it. */
  predicate FrameOk(s: State, slot: Slot, f: Frame) {
    f.m in s.msgs && FrameFits(s.msgs[f.m], slot, f)
  }

  predicate FrameFits(msg: Msg, slot: Slot, f: Frame) {
    match f
    case Sending(_, ring, noblock, nowait, _, Enqueue) =>
      && msg.place == Entering(slot) && ring.core == msg.dest
      && (if nowait then noblock ==> msg.waiter == None else msg.waiter == Some(slot))
    case Sending(_, _, _, nowait, _, Wait) => !nowait && msg.waiter == Some(slot)
    case Sending(_, _, _, nowait, _, Finish) => !nowait && msg.waiter == Some(slot) && msg.place == Done
    case Sending(_, _, _, _, _, Return(_)) => true
    case Handling(_, _, Check) => msg.place == Handled(slot)
    case Handling(_, toFree, Running) => msg.place == Handled(slot) && toFree == msg.toFree
    case Handling(_, toFree, Complete) => msg.place == Handled(slot) && toFree == msg.toFree && msg.finished
    case Handling(_, _, Reposted) => true
  }

  predicate MsgOk(s: State, m: MsgId, msg: Msg) {
    && (match msg.place
        case Owned(_) => msg.live && msg.waiter == None
        case Entering(slot) =>
          && msg.live && msg.state == Queued
          && var f := FrameAt(s, slot); f.Some? && f.value.m == m && f.value.Sending? && f.value.sendAt == Enqueue
        case InRing(r) => msg.live && msg.state == Queued && m in Contents(s, r) && r.core == msg.dest
        case Handled(slot) =>
          && msg.live && msg.state == Queued && slot.core == msg.dest
          && var f := FrameAt(s, slot); f.Some? && f.value.m == m && f.value.Handling? && f.value.handleAt != Reposted
        case Done => msg.live && msg.state == Dequeued && msg.finished
        case Freed => !msg.live && msg.waiter == None)
    && (msg.waiter.Some? ==>
          && !msg.toFree
          && var f := FrameAt(s, msg.waiter.value);
             f.Some? && f.value.m == m && f.value.Sending? && !f.value.nowait && !f.value.sendAt.Return?)
  }

  predicate RingOk(s: State, r: Ring) {
    var q := Contents(s, r);
    && (forall i :: 0 <= i < |q| ==> q[i] in s.msgs && s.msgs[q[i]].place == InRing(r))
    && (forall i, j :: 0 <= i < j < |q| ==> q[i] != q[j])
  }

  ghost predicate FramesOk(s: State) {
    forall c, i :: 0 <= i < |Stack(s, c)| ==> FrameOk(s, Slot(c, i), Stack(s, c)[i])
  }

  ghost predicate MsgsOk(s: State) {
    forall m :: m in s.msgs ==> MsgOk(s, m, s.msgs[m])
  }

  ghost predicate RingsOk(s: State) {
    forall r :: RingOk(s, r)
  }

  ghost predicate Inv(s: State) {
    !s.fault && FramesOk(s) && MsgsOk(s) && RingsOk(s)
  }

  // ----- each step keeps the invariant

  /** t differs from s at most in message m, and in the stack of core c from
      depth n on. */
  ghost predicate Differ(s: State, t: State, m: MsgId, c: Core, n: nat) {
    && t.msgs.Keys == s.msgs.Keys + {m}
    && (forall k :: k in s.msgs && k != m ==> t.msgs[k] == s.msgs[k])
    && (forall d :: d != c ==> Stack(t, d) == Stack(s, d))
    && n <= |Stack(s, c)| && n <= |Stack(t, c)| && Stack(t, c)[..n] == Stack(s, c)[..n]
  }

  /** Then the frames that stayed remain as they should be if those of m do. */
  lemma FramesKept(s: State, t: State, m: MsgId, c: Core, n: nat)
    requires FramesOk(s) && Differ(s, t, m, c, n)
    requires forall d, i :: 0 <= i < |Stack(s, d)| && (d != c || i < n) && Stack(s, d)[i].m == m
               ==> FrameOk(t, Slot(d, i), Stack(s, d)[i])
    requires forall i :: n <= i < |Stack(t, c)| ==> FrameOk(t, Slot(c, i), Stack(t, c)[i])
    ensures FramesOk(t)
  {
    forall d, i | 0 <= i < |Stack(t, d)|
      ensures FrameOk(t, Slot(d, i), Stack(t, d)[i])
    {
      if d != c || i < n {
        var f := Stack(s, d)[i];
        assert Stack(t, d)[i] == f by {
          if d == c {
            assert Stack(t, c)[..n][i] == Stack(s, c)[..n][i];
          }
        }
        assert FrameOk(s, Slot(d, i), f);
      }
    }
  }

  /** And so do the other messages, if the changed frames were about m. */
  lemma MsgsKept(s: State, t: State, m: MsgId, c: Core, n: nat)
    requires MsgsOk(s) && Differ(s, t, m, c, n)
    requires forall i :: n <= i < |Stack(s, c)| ==> Stack(s, c)[i].m == m
    requires forall r, k :: k != m && k in Contents(s, r) ==> k in Contents(t, r)
    requires MsgOk(t, m, t.msgs[m])
    ensures MsgsOk(t)
  {
    forall k | k in t.msgs
      ensures MsgOk(t, k, t.msgs[k])
    {
      if k != m {
        assert MsgOk(s, k, s.msgs[k]);
        FrameStays(s, t, m, c, n, k);
      }
    }
  }

  lemma FrameStays(s: State, t: State, m: MsgId, c: Core, n: nat, k: MsgId)
    requires Differ(s, t, m, c, n) && k != m
    requires forall i :: n <= i < |Stack(s, c)| ==> Stack(s, c)[i].m == m
    ensures forall slot :: FrameAt(s, slot).Some? && FrameAt(s, slot).value.m == k
              ==> FrameAt(t, slot) == FrameAt(s, slot)
  {
    forall slot | FrameAt(s, slot).Some? && FrameAt(s, slot).value.m == k
      ensures FrameAt(t, slot) == FrameAt(s, slot)
    {
      if slot.core == c {
        assert slot.depth < n;
        assert Stack(t, c)[..n][slot.depth] == Stack(s, c)[..n][slot.depth];
      }
    }
  }

  /** t is s with other activations in the place of the top one of core c, which was about
      message m. */
  ghost predicate TopReplaced(s: State, t: State, c: Core, top: seq<Frame>) {
    && Stack(s, c) != []
    && forall d :: Stack(t, d) == if d == c then Below(s, c) + top else Stack(s, d)
  }

  lemma SetTopReplaces(s: State, c: Core, g: Frame)
    requires Stack(s, c) != []
    ensures TopReplaced(s, SetTop(s, c, g), c, [g])
    ensures forall t: State :: t.stacks == SetTop(s, c, g).stacks ==> TopReplaced(s, t, c, [g])
  {
    assert Stack(SetTop(s, c, g), c) == Below(s, c) + [g];
  }

  lemma OtherFramesStay(s: State, t: State, c: Core, top: seq<Frame>)
    requires TopReplaced(s, t, c, top)
    ensures forall slot: Slot :: slot.core != c || slot.depth < |Stack(s, c)| - 1 ==> FrameAt(t, slot) == FrameAt(s, slot)
    ensures forall i :: 0 <= i < |top| ==> FrameAt(t, Slot(c, |Stack(s, c)| - 1 + i)) == Some(top[i])
  {
  }

  /** What fits an activation other than the one at slot top before still does. */
  ghost predicate FitsStay(was: Msg, now: Msg, top: Slot) {
    forall slot, f :: slot != top && FrameFits(was, slot, f) ==> FrameFits(now, slot, f)
  }

  /** Only the activation at the place of the message cares about the rest of it. */
  lemma FitsStayBut(was: Msg, now: Msg, top: Slot)
    requires was.place == Entering(top) || was.place == Handled(top)
    requires now.waiter == was.waiter
    ensures FitsStay(was, now, top)
  {
  }

  /** The same for the activation that waits for it. */
  lemma FitsStayAfterWait(was: Msg, now: Msg, top: Slot)
    requires was.waiter == Some(top) && was.place == Done
    ensures FitsStay(was, now, top)
  {
  }

  lemma FitsStayRefused(was: Msg, now: Msg, top: Slot)
    requires was.place == Entering(top) && (was.waiter == None || was.waiter == Some(top))
    ensures FitsStay(was, now, top)
  {
  }

  /** A step that replaces the top activation and changes its message. */
  lemma TopChangeKeepsInv(s: State, t: State, c: Core, top: seq<Frame>)
    requires Inv(s) && !t.fault && TopReplaced(s, t, c, top) && RingsOk(t)
    requires var m := Top(s, c).m; m in s.msgs && m in t.msgs && t.msgs == s.msgs[m := t.msgs[m]]
    requires var m := Top(s, c).m; MsgOk(t, m, t.msgs[m]) && FitsStay(s.msgs[m], t.msgs[m], TopSlot(s, c))
    requires forall r, k :: k != Top(s, c).m && k in Contents(s, r) ==> k in Contents(t, r)
    requires forall i :: 0 <= i < |top| ==> FrameOk(t, Slot(c, |Stack(s, c)| - 1 + i), top[i])
    ensures Inv(t)
  {
    var m, n := Top(s, c).m, |Stack(s, c)| - 1;
    MsgsKept(s, t, m, c, n);
    forall d, i | 0 <= i < |Stack(s, d)| && (d != c || i < n) && Stack(s, d)[i].m == m
      ensures FrameOk(t, Slot(d, i), Stack(s, d)[i])
    {
      assert FrameOk(s, Slot(d, i), Stack(s, d)[i]);
    }
    forall i | n <= i < |Stack(t, c)|
      ensures FrameOk(t, Slot(c, i), Stack(t, c)[i])
    {
      assert Stack(t, c)[i] == top[i - n];
    }
    FramesKept(s, t, m, c, n);
  }

  /** Changing a message that is on no ring changes no ring. */
  lemma RingsKept(s: State, t: State, m: MsgId)
    requires RingsOk(s) && t.rings == s.rings
    requires t.msgs.Keys == s.msgs.Keys + {m}
    requires m in s.msgs ==> !s.msgs[m].place.InRing? || t.msgs[m] == s.msgs[m]
    requires forall k :: k in s.msgs && k != m ==> t.msgs[k] == s.msgs[k]
    ensures RingsOk(t)
  {
    forall r
      ensures RingOk(t, r)
    {
      assert RingOk(s, r);
    }
  }

  /** No step of a state in the invariant touches memory that is not allocated. */
  lemma AccessesAreLive(s: State, st: Step)
    requires Inv(s) && Enabled(s, st)
    ensures forall m :: m in Accesses(s, st) ==> Lookup(s, m).live
  {
  }

  lemma InitKeepsInv(s: State, c: Core, m: MsgId, dest: Core, isLocal: bool, toFree: bool)
    requires Inv(s) && Enabled(s, InitMsg(c, m, dest, isLocal, toFree))
    ensures Inv(Execute(s, InitMsg(c, m, dest, isLocal, toFree), 0))
  {
    AppKeepsInv(s, Execute(s, InitMsg(c, m, dest, isLocal, toFree), 0), c, m);
  }

  /** The application changes a message it owns, or creates one. */
  lemma AppKeepsInv(s: State, t: State, c: Core, m: MsgId)
    requires Inv(s) && (m !in s.msgs || OwnedBy(s, c, m) || (s.msgs[m].place == Done && s.msgs[m].waiter == None))
    requires m in t.msgs && t == SetMsg(s, m, t.msgs[m]) && (t.msgs[m].place == Owned(c) || t.msgs[m].place == Freed)
    requires t.msgs[m].live == (t.msgs[m].place == Owned(c)) && t.msgs[m].waiter == None
    ensures Inv(t)
  {
    RingsKept(s, t, m);
    MsgsKept(s, t, m, c, |Stack(s, c)|);
    FramesKept(s, t, m, c, |Stack(s, c)|);
  }

  lemma FreeKeepsInv(s: State, c: Core, m: MsgId)
    requires Inv(s) && Enabled(s, FreeMsg(c, m))
    ensures Inv(Execute(s, FreeMsg(c, m), 0))
  {
    AppKeepsInv(s, Execute(s, FreeMsg(c, m), 0), c, m);
  }

  lemma ReclaimKeepsInv(s: State, c: Core, m: MsgId)
    requires Inv(s) && Enabled(s, Reclaim(c, m))
    ensures Inv(Execute(s, Reclaim(c, m), 0))
  {
    AppKeepsInv(s, Execute(s, Reclaim(c, m), 0), c, m);
  }

  lemma SendKeepsInv(s: State, c: Core, m: MsgId, noblock: bool, nowait: bool)
    requires Inv(s) && Enabled(s, Send(c, m, noblock, nowait))
    ensures Inv(Execute(s, Send(c, m, noblock, nowait), 0))
  {
    var t, n := Execute(s, Send(c, m, noblock, nowait), 0), |Stack(s, c)|;
    var now, f := SentMsg(s.msgs[m], Slot(c, n), nowait), SendFrame(s.msgs[m], m, noblock, nowait);
    ExecuteSend(s, c, m, noblock, nowait);
    PushShape(s, c, m, now, f);
    SentKeepsInv(s, t, c, m, f, n);
  }

  function SentMsg(msg: Msg, slot: Slot, nowait: bool): Msg {
    msg.(state := Queued, toFree := msg.toFree && nowait, finished := false, place := Entering(slot),
         waiter := if nowait then msg.waiter else Some(slot))
  }

  function SendFrame(msg: Msg, m: MsgId, noblock: bool, nowait: bool): Frame {
    Sending(m, Ring(msg.dest, msg.isLocal), noblock, nowait, msg.toFree, Enqueue)
  }

  lemma ExecuteSend(s: State, c: Core, m: MsgId, noblock: bool, nowait: bool)
    requires Enabled(s, Send(c, m, noblock, nowait))
    ensures Execute(s, Send(c, m, noblock, nowait), 0)
            == Push(SetMsg(s, m, SentMsg(s.msgs[m], Slot(c, |Stack(s, c)|), nowait)), c,
                    SendFrame(s.msgs[m], m, noblock, nowait))
  {
    var msg := s.msgs[m];
    var now := SentMsg(msg, Slot(c, |Stack(s, c)|), nowait);
    assert s.msgs[m := msg.(finished := false)][m := now] == s.msgs[m := now];
  }

  /** Pushing an activation and changing its message. */
  lemma PushShape(s: State, c: Core, m: MsgId, msg: Msg, f: Frame)
    ensures var t, n := Push(SetMsg(s, m, msg), c, f), |Stack(s, c)|;
            && Stack(t, c) == Stack(s, c) + [f] && Top(t, c) == f && TopSlot(t, c) == Slot(c, n)
            && Differ(s, t, m, c, n) && t.rings == s.rings && t.fault == s.fault && t.msgs[m] == msg
  {
  }

  /** t is s with message m about to be put on a ring by the new top activation,
      above n activations that stay. */
  lemma SentKeepsInv(s: State, t: State, c: Core, m: MsgId, f: Frame, n: nat)
    requires Inv(s) && m in s.msgs && Differ(s, t, m, c, n) && t.rings == s.rings && !t.fault
    requires forall i :: n <= i < |Stack(s, c)| ==> Stack(s, c)[i].m == m && Stack(s, c)[i].Handling?
    requires |Stack(t, c)| > n && Top(t, c) == f && f.m == m && f.Sending? && f.sendAt == Enqueue
    requires forall i :: n <= i < |Stack(t, c)| - 1 ==>
               (var g := Stack(t, c)[i]; g.m == m && g.Handling? && g.handleAt == Reposted)
    requires var old_, new_ := s.msgs[m], t.msgs[m];
             && (old_.place.Owned? || (old_.place == Handled(Slot(c, n)) && f.nowait && !f.noblock))
             && new_.live && new_.state == Queued && new_.place == Entering(TopSlot(t, c))
             && new_.dest == old_.dest == f.ring.core
             && (if f.nowait then new_.waiter == old_.waiter && (new_.toFree ==> old_.toFree)
                 else new_.waiter == Some(TopSlot(t, c)) && !new_.toFree)
    ensures Inv(t)
  {
    assert MsgOk(s, m, s.msgs[m]);
    RingsKept(s, t, m);
    if s.msgs[m].waiter.Some? && f.nowait {
      WaiterStays(s, t, m, c, n);
    }
    MsgsKept(s, t, m, c, n);
    forall d, i | 0 <= i < |Stack(s, d)| && (d != c || i < n) && Stack(s, d)[i].m == m
      ensures FrameOk(t, Slot(d, i), Stack(s, d)[i])
    {
      assert FrameOk(s, Slot(d, i), Stack(s, d)[i]);
    }
    FramesKept(s, t, m, c, n);
  }

  /** The activation that waits for m is not among those that changed. */
  lemma WaiterStays(s: State, t: State, m: MsgId, c: Core, n: nat)
    requires Differ(s, t, m, c, n) && m in s.msgs && MsgOk(s, m, s.msgs[m]) && s.msgs[m].waiter.Some?
    requires forall i :: n <= i < |Stack(s, c)| ==> Stack(s, c)[i].Handling?
    ensures FrameAt(t, s.msgs[m].waiter.value) == FrameAt(s, s.msgs[m].waiter.value)
  {
    var slot := s.msgs[m].waiter.value;
    if slot.core == c {
      assert slot.depth < n;
      assert Stack(t, c)[..n][slot.depth] == Stack(s, c)[..n][slot.depth];
    }
  }

  lemma EnqueueKeepsInv(s: State, c: Core, capacity: nat)
    requires Inv(s) && Enabled(s, TryEnqueue(c))
    ensures Inv(Execute(s, TryEnqueue(c), capacity))
  {
    var t := Execute(s, TryEnqueue(c), capacity);
    var f := Top(s, c);
    assert FrameOk(s, TopSlot(s, c), f);
    if |Contents(s, f.ring)| < capacity {
      SetTopReplaces(s, c, f.(sendAt := if f.nowait then Return(true) else Wait));
      EnqueuedKeepsInv(s, t, c);
    } else if f.noblock {
      assert TopReplaced(s, t, c, [f.(sendAt := Return(false))]);
      RefusedKeepsInv(s, t, c);
    }
  }

  lemma RefusedKeepsInv(s: State, t: State, c: Core)
    requires Inv(s) && TopSends(s, c, Enqueue) && FrameOk(s, TopSlot(s, c), Top(s, c)) && !t.fault
    requires Top(s, c).noblock
    requires var f := Top(s, c);
             t.rings == s.rings && t.msgs == s.msgs[f.m := s.msgs[f.m].(place := Owned(c), waiter := None)]
    requires TopReplaced(s, t, c, [Top(s, c).(sendAt := Return(false))])
    ensures Inv(t)
  {
    var f := Top(s, c);
    assert MsgOk(s, f.m, s.msgs[f.m]);
    RingsKept(s, t, f.m);
    OtherFramesStay(s, t, c, [f.(sendAt := Return(false))]);
    FitsStayRefused(s.msgs[f.m], t.msgs[f.m], TopSlot(s, c));
    TopChangeKeepsInv(s, t, c, [f.(sendAt := Return(false))]);
  }

  lemma EnqueuedKeepsInv(s: State, t: State, c: Core)
    requires Inv(s) && TopSends(s, c, Enqueue) && !t.fault && FrameOk(s, TopSlot(s, c), Top(s, c))
    requires var f := Top(s, c);
             && t.rings == s.rings[f.ring := Contents(s, f.ring) + [f.m]]
             && t.msgs == s.msgs[f.m := s.msgs[f.m].(place := InRing(f.ring))]
             && TopReplaced(s, t, c, [f.(sendAt := if f.nowait then Return(true) else Wait)])
    ensures Inv(t)
  {
    var f := Top(s, c);
    var g := f.(sendAt := if f.nowait then Return(true) else Wait);
    assert MsgOk(s, f.m, s.msgs[f.m]);
    EnqueuedRings(s, t, f.m, f.ring);
    OtherFramesStay(s, t, c, [g]);
    FitsStayBut(s.msgs[f.m], t.msgs[f.m], TopSlot(s, c));
    TopChangeKeepsInv(s, t, c, [g]);
  }

  lemma EnqueuedRings(s: State, t: State, m: MsgId, ring: Ring)
    requires RingsOk(s) && m in s.msgs && !s.msgs[m].place.InRing?
    requires t.rings == s.rings[ring := Contents(s, ring) + [m]]
    requires t.msgs == s.msgs[m := s.msgs[m].(place := InRing(ring))]
    ensures RingsOk(t) && m in Contents(t, ring)
    ensures forall r, k :: k != m && k in Contents(s, r) ==> k in Contents(t, r)
  {
    assert Contents(t, ring)[|Contents(s, ring)|] == m;
    forall r
      ensures RingOk(t, r)
    {
      assert RingOk(s, r);
    }
  }

  lemma SpinKeepsInv(s: State, c: Core)
    requires Inv(s) && Enabled(s, Spin(c))
    ensures Inv(Execute(s, Spin(c), 0))
  {
    var t := Execute(s, Spin(c), 0);
    var m := Top(s, c).m;
    assert FrameOk(s, TopSlot(s, c), Top(s, c));
    if t != s {
      RingsKept(s, t, m);
      MsgsKept(s, t, m, c, |Stack(s, c)| - 1);
      FramesKept(s, t, m, c, |Stack(s, c)| - 1);
    }
  }

  lemma FinishKeepsInv(s: State, c: Core)
    requires Inv(s) && Enabled(s, FinishSend(c))
    ensures Inv(Execute(s, FinishSend(c), 0))
  {
    var t := Execute(s, FinishSend(c), 0);
    assert FrameOk(s, TopSlot(s, c), Top(s, c));
    assert TopReplaced(s, t, c, [Top(s, c).(sendAt := Return(true))]);
    FinishedKeepsInv(s, t, c);
  }

  lemma FinishedKeepsInv(s: State, t: State, c: Core)
    requires Inv(s) && TopSends(s, c, Finish) && FrameOk(s, TopSlot(s, c), Top(s, c)) && !t.fault
    requires var f := Top(s, c);
             && t.rings == s.rings
             && t.msgs == s.msgs[f.m := if f.toFree then s.msgs[f.m].(live := false, place := Freed, waiter := None)
                                        else s.msgs[f.m].(state := Init, place := Owned(c), waiter := None)]
    requires TopReplaced(s, t, c, [Top(s, c).(sendAt := Return(true))])
    ensures Inv(t)
  {
    var f := Top(s, c);
    assert MsgOk(s, f.m, s.msgs[f.m]);
    RingsKept(s, t, f.m);
    OtherFramesStay(s, t, c, [f.(sendAt := Return(true))]);
    FitsStayAfterWait(s.msgs[f.m], t.msgs[f.m], TopSlot(s, c));
    TopChangeKeepsInv(s, t, c, [f.(sendAt := Return(true))]);
  }

  lemma PollKeepsInv(s: State, c: Core, l: bool)
    requires Inv(s) && Enabled(s, Poll(c, l))
    ensures Inv(Execute(s, Poll(c, l), 0))
  {
    var t := Execute(s, Poll(c, l), 0);
    var m := Contents(s, Ring(c, l))[0];
    assert RingOk(s, Ring(c, l));
    assert forall d :: Stack(t, d) == if d == c then [Handling(m, false, Check)] else Stack(s, d);
    PolledKeepsInv(s, t, m, Ring(c, l));
  }

  /** t is s with the first message of a ring on the empty stack of its core. */
  lemma PolledKeepsInv(s: State, t: State, m: MsgId, r: Ring)
    requires Inv(s) && !t.fault && Contents(s, r) != [] && m == Contents(s, r)[0] && m in s.msgs
    requires t.msgs == s.msgs[m := s.msgs[m].(place := Handled(Slot(r.core, 0)))]
    requires t.rings == s.rings[r := Contents(s, r)[1..]] && Stack(s, r.core) == []
    requires forall d :: Stack(t, d) == if d == r.core then [Handling(m, false, Check)] else Stack(s, d)
    ensures Inv(t)
  {
    assert RingOk(s, r);
    DequeuedRings(s, t, m, r);
    assert MsgOk(t, m, t.msgs[m]) by {
      assert MsgOk(s, m, s.msgs[m]);
    }
    MsgsKept(s, t, m, r.core, 0);
    forall d, i | 0 <= i < |Stack(s, d)| && Stack(s, d)[i].m == m
      ensures FrameOk(t, Slot(d, i), Stack(s, d)[i])
    {
      assert FrameOk(s, Slot(d, i), Stack(s, d)[i]);
    }
    FramesKept(s, t, m, r.core, 0);
  }

  lemma DequeuedRings(s: State, t: State, m: MsgId, ring: Ring)
    requires RingsOk(s) && Contents(s, ring) != [] && m == Contents(s, ring)[0] && m in s.msgs && m in t.msgs
    requires t.rings == s.rings[ring := Contents(s, ring)[1..]]
    requires t.msgs == s.msgs[m := t.msgs[m]]
    ensures RingsOk(t)
    ensures forall r, k :: k != m && k in Contents(s, r) ==> k in Contents(t, r)
  {
    forall r
      ensures RingOk(t, r)
    {
      assert RingOk(s, r);
      assert RingOk(s, ring);
    }
    forall r, k | k != m && k in Contents(s, r)
      ensures k in Contents(t, r)
    {
      if r == ring {
        var i :| 0 <= i < |Contents(s, r)| && Contents(s, r)[i] == k;
        assert Contents(t, r)[i - 1] == k;
      }
    }
  }

  lemma StartKeepsInv(s: State, c: Core)
    requires Inv(s) && Enabled(s, StartHandler(c))
    ensures Inv(Execute(s, StartHandler(c), 0))
  {
    var t := Execute(s, StartHandler(c), 0);
    var f := Top(s, c);
    assert FrameOk(s, TopSlot(s, c), f);
    assert MsgOk(s, f.m, s.msgs[f.m]);
    var g := f.(toFree := s.msgs[f.m].toFree, handleAt := Running);
    SetTopReplaces(s, c, g);
    StepsOnKeepsInv(s, t, c, g);
  }

  /** t is s with the handling of a message one step further. */
  lemma StepsOnKeepsInv(s: State, t: State, c: Core, g: Frame)
    requires Inv(s) && !t.fault && Stack(s, c) != [] && Top(s, c).Handling? && FrameOk(s, TopSlot(s, c), Top(s, c))
    requires g.Handling? && g.m == Top(s, c).m && Top(s, c).handleAt != Reposted && g.handleAt != Reposted
    requires var msg := s.msgs[g.m];
             && t.rings == s.rings && TopReplaced(s, t, c, [g]) && g.m in t.msgs
             && t.msgs == s.msgs[g.m := t.msgs[g.m]]
             && (t.msgs[g.m] == msg || t.msgs[g.m] == msg.(finished := true))
             && FrameOk(t, TopSlot(s, c), g)
    ensures Inv(t)
  {
    var f := Top(s, c);
    RingsKept(s, t, f.m);
    HandledMsgStaysOk(s, t, c, g);
    FitsStayBut(s.msgs[f.m], t.msgs[f.m], TopSlot(s, c));
    TopChangeKeepsInv(s, t, c, [g]);
  }

  lemma HandledMsgStaysOk(s: State, t: State, c: Core, g: Frame)
    requires TopReplaced(s, t, c, [g]) && Top(s, c).Handling? && g.Handling? && g.m == Top(s, c).m && g.handleAt != Reposted
    requires g.m in s.msgs && g.m in t.msgs && MsgOk(s, g.m, s.msgs[g.m]) && s.msgs[g.m].place == Handled(TopSlot(s, c))
    requires t.msgs[g.m] == s.msgs[g.m] || t.msgs[g.m] == s.msgs[g.m].(finished := true)
    ensures MsgOk(t, g.m, t.msgs[g.m])
  {
    OtherFramesStay(s, t, c, [g]);
  }

  lemma RepostKeepsInv(s: State, c: Core)
    requires Inv(s) && Enabled(s, HandlerReturns(c, true))
    ensures Inv(Execute(s, HandlerReturns(c, true), 0))
  {
    var t := Execute(s, HandlerReturns(c, true), 0);
    var m, n := Top(s, c).m, |Stack(s, c)| - 1;
    assert FrameOk(s, TopSlot(s, c), Top(s, c));
    assert MsgOk(s, m, s.msgs[m]);
    var f := Sending(m, Ring(s.msgs[m].dest, true), false, true, false, Enqueue);
    ExecuteRepost(s, c);
    SentKeepsInv(s, t, c, m, f, n);
  }

  lemma ExecuteRepost(s: State, c: Core)
    requires Enabled(s, HandlerReturns(c, true)) && Top(s, c).m in s.msgs
    ensures var t, m, n := Execute(s, HandlerReturns(c, true), 0), Top(s, c).m, |Stack(s, c)| - 1;
            var f := Sending(m, Ring(s.msgs[m].dest, true), false, true, false, Enqueue);
            && Stack(t, c) == Stack(s, c)[..n] + [Top(s, c).(handleAt := Reposted), f]
            && Differ(s, t, m, c, n) && t.rings == s.rings && t.fault == s.fault
            && t.msgs[m] == s.msgs[m].(state := Queued, toFree := false, place := Entering(TopSlot(t, c)))
            && Top(t, c) == f
  {
  }

  lemma HandlerKeepsInv(s: State, c: Core, again: bool)
    requires Inv(s) && Enabled(s, HandlerReturns(c, again))
    ensures Inv(Execute(s, HandlerReturns(c, again), 0))
  {
    if again {
      RepostKeepsInv(s, c);
    } else {
      var t := Execute(s, HandlerReturns(c, again), 0);
      assert FrameOk(s, TopSlot(s, c), Top(s, c));
      SetTopReplaces(s, c, Top(s, c).(handleAt := Complete));
      StepsOnKeepsInv(s, t, c, Top(s, c).(handleAt := Complete));
    }
  }

  lemma CompleteKeepsInv(s: State, c: Core)
    requires Inv(s) && Enabled(s, CompleteHandling(c))
    ensures Inv(Execute(s, CompleteHandling(c), 0))
  {
    var t := Execute(s, CompleteHandling(c), 0);
    assert FrameOk(s, TopSlot(s, c), Top(s, c));
    assert Below(s, c) + [] == Below(s, c);
    assert TopReplaced(s, t, c, []);
    CompletedKeepsInv(s, t, c);
  }

  lemma CompletedKeepsInv(s: State, t: State, c: Core)
    requires Inv(s) && TopHandles(s, c, Complete) && FrameOk(s, TopSlot(s, c), Top(s, c)) && !t.fault
    requires var f := Top(s, c);
             && t.rings == s.rings
             && t.msgs == s.msgs[f.m := if f.toFree then s.msgs[f.m].(live := false, place := Freed)
                                        else s.msgs[f.m].(state := Dequeued, place := Done)]
    requires TopReplaced(s, t, c, [])
    ensures Inv(t)
  {
    var f := Top(s, c);
    assert MsgOk(s, f.m, s.msgs[f.m]);
    RingsKept(s, t, f.m);
    OtherFramesStay(s, t, c, []);
    FitsStayBut(s.msgs[f.m], t.msgs[f.m], TopSlot(s, c));
    TopChangeKeepsInv(s, t, c, []);
  }

  lemma PopLeavesTheRest(s: State, c: Core)
    requires Stack(s, c) != []
    ensures forall slot :: slot != TopSlot(s, c) ==> FrameAt(Pop(s, c), slot) == FrameAt(s, slot)
  {
  }

  /** An activation that returns has nothing more to do with its message. */
  lemma ReturnKeepsInv(s: State, c: Core)
    requires Inv(s) && Enabled(s, ReturnToCaller(c))
    ensures Inv(Execute(s, ReturnToCaller(c), 0))
  {
    var t := Execute(s, ReturnToCaller(c), 0);
    PopLeavesTheRest(s, c);
    forall m | m in t.msgs
      ensures MsgOk(t, m, t.msgs[m])
    {
      assert MsgOk(s, m, s.msgs[m]);
    }
    forall d, i | 0 <= i < |Stack(t, d)|
      ensures FrameOk(t, Slot(d, i), Stack(t, d)[i])
    {
      assert FrameOk(s, Slot(d, i), Stack(s, d)[i]);
    }
    forall r
      ensures RingOk(t, r)
    {
      assert RingOk(s, r);
    }
  }

  // ----- every run

  lemma NextKeepsInv(s: State, st: Step, capacity: nat)
    requires Inv(s) && Enabled(s, st)
    ensures Inv(Next(s, st, capacity))
  {
    AccessesAreLive(s, st);
    match st {
      case InitMsg(c, m, dest, isLocal, toFree) => InitKeepsInv(s, c, m, dest, isLocal, toFree);
      case FreeMsg(c, m) => FreeKeepsInv(s, c, m);
      case Reclaim(c, m) => ReclaimKeepsInv(s, c, m);
      case Send(c, m, noblock, nowait) => SendKeepsInv(s, c, m, noblock, nowait);
      case TryEnqueue(c) => EnqueueKeepsInv(s, c, capacity);
      case Spin(c) => SpinKeepsInv(s, c);
      case FinishSend(c) => FinishKeepsInv(s, c);
      case Poll(c, l) => PollKeepsInv(s, c, l);
      case StartHandler(c) => StartKeepsInv(s, c);
      case HandlerReturns(c, again) => HandlerKeepsInv(s, c, again);
      case CompleteHandling(c) => CompleteKeepsInv(s, c);
      case ReturnToCaller(c) => ReturnKeepsInv(s, c);
    }
    var t := Execute(s, st, capacity);
    assert Next(s, st, capacity) == t;
  }

  predicate RunEnabled(s: State, steps: seq<Step>, capacity: nat)
    decreases |steps|
  {
    steps == [] || (Enabled(s, steps[0]) && RunEnabled(Next(s, steps[0], capacity), steps[1..], capacity))
  }

  function Run(s: State, steps: seq<Step>, capacity: nat): State
    requires RunEnabled(s, steps, capacity)
    decreases |steps|
  {
    if steps == [] then s else Run(Next(s, steps[0], capacity), steps[1..], capacity)
  }

  const START := State(map[], map[], map[], false)

  /** In every interleaving of senders, pollers and handlers no core touches memory
      that is not allocated, so nothing is freed twice or while in use, and
      the assertion that a dequeued message is QUEUED never fails. */
  lemma {:induction false} RunIsSafe(s: State, steps: seq<Step>, capacity: nat)
    requires Inv(s) && RunEnabled(s, steps, capacity)
    ensures Inv(Run(s, steps, capacity)) && !Run(s, steps, capacity).fault
    decreases |steps|
  {
    if steps != [] {
      NextKeepsInv(s, steps[0], capacity);
      RunIsSafe(Next(s, steps[0], capacity), steps[1..], capacity);
    }
  }

  lemma StartIsSafe()
    ensures Inv(START)
  {
  }

  // ----- what a step changes

  /** The one message that a step is about. */
  function Target(s: State, st: Step): MsgId
    requires Enabled(s, st)
  {
    match st
    case InitMsg(_, m, _, _, _) => m
    case FreeMsg(_, m) => m
    case Reclaim(_, m) => m
    case Send(_, m, _, _) => m
    case Poll(c, l) => Contents(s, Ring(c, l))[0]
    case TryEnqueue(c) => Top(s, c).m
    case Spin(c) => Top(s, c).m
    case FinishSend(c) => Top(s, c).m
    case StartHandler(c) => Top(s, c).m
    case HandlerReturns(c, _) => Top(s, c).m
    case CompleteHandling(c) => Top(s, c).m
    case ReturnToCaller(c) => Top(s, c).m
  }

  lemma OnlyTargetIsWritten(s: State, st: Step, capacity: nat, k: MsgId)
    requires Enabled(s, st) && k in s.msgs && (k != Target(s, st) || st.ReturnToCaller?)
    ensures k in Execute(s, st, capacity).msgs && Execute(s, st, capacity).msgs[k] == s.msgs[k]
  {
  }

  lemma OnlyTargetChanges(s: State, st: Step, capacity: nat, k: MsgId)
    requires Enabled(s, st) && k in s.msgs && (k != Target(s, st) || st.ReturnToCaller?)
    ensures k in Next(s, st, capacity).msgs && Lookup(Next(s, st, capacity), k) == s.msgs[k]
    ensures k !in Accesses(s, st)
  {
    OnlyTargetIsWritten(s, st, capacity, k);
    assert Next(s, st, capacity).msgs == Execute(s, st, capacity).msgs;
  }

  predicate OfApp(st: Step) {
    st.InitMsg? || st.FreeMsg? || st.Reclaim? || st.Send?
  }

  predicate OfSend(st: Step) {
    st.TryEnqueue? || st.Spin? || st.FinishSend?
  }

  predicate OfHandler(st: Step) {
    st.StartHandler? || st.HandlerReturns? || st.CompleteHandling?
  }

  /** Who may use the target: the application that owns it or sees that it is done, a
      send that puts it on a ring or waits for it, the ring, or its handler. */
  lemma TargetIsThere(s: State, st: Step)
    requires Inv(s) && Enabled(s, st) && !st.ReturnToCaller? && Target(s, st) in s.msgs
    ensures var place, waiter, slot := s.msgs[Target(s, st)].place, s.msgs[Target(s, st)].waiter, SlotOf(s, st.core);
            || (OfApp(st) && (place == Owned(st.core) || (place == Done && waiter == None)))
            || (OfSend(st) && (place == Entering(slot) || waiter == Some(slot)))
            || (st.Poll? && place == InRing(Ring(st.core, st.isLocal)))
            || (OfHandler(st) && place == Handled(slot))
  {
    if OfSend(st) || OfHandler(st) {
      assert FrameOk(s, TopSlot(s, st.core), Top(s, st.core));
    } else if st.Poll? {
      assert RingOk(s, Ring(st.core, st.isLocal));
    }
  }

  function SlotOf(s: State, c: Core): Slot {
    if Stack(s, c) == [] then Slot(c, 0) else TopSlot(s, c)
  }

  // ----- what the invariant says

  /** A message is on at most one ring, and at most once. */
  lemma OnOneRingOnce(s: State, r1: Ring, i: nat, r2: Ring, j: nat)
    requires Inv(s) && i < |Contents(s, r1)| && j < |Contents(s, r2)|
    requires Contents(s, r1)[i] == Contents(s, r2)[j]
    ensures r1 == r2 && i == j
  {
    assert RingOk(s, r1) && RingOk(s, r2);
  }

  /** What is on a ring is allocated, marked QUEUED, and addressed to the core
      that polls the ring. */
  lemma OnRingIsQueued(s: State, r: Ring, i: nat)
    requires Inv(s) && i < |Contents(s, r)|
    ensures var msg := Lookup(s, Contents(s, r)[i]);
            msg.live && msg.state == Queued && msg.dest == r.core
  {
    assert RingOk(s, r);
  }

  /** The activation will not use its message any more. */
  predicate Past(f: Frame) {
    if f.Sending? then f.sendAt.Return? else f.handleAt == Reposted
  }

  /** Nobody but its owner can still reach message m. */
  ghost predicate OutOfReach(s: State, m: MsgId, except: Option<Slot>) {
    && (forall r :: m !in Contents(s, r))
    && (forall c, i :: 0 <= i < |Stack(s, c)| && Stack(s, c)[i].m == m && Some(Slot(c, i)) != except
          ==> Past(Stack(s, c)[i]))
  }

  lemma RestsOutOfReach(s: State, m: MsgId)
    requires Inv(s) && m in s.msgs
    requires s.msgs[m].place.Owned? || s.msgs[m].place == Done || s.msgs[m].place == Freed
    ensures OutOfReach(s, m, s.msgs[m].waiter)
  {
    forall r
      ensures m !in Contents(s, r)
    {
      assert RingOk(s, r);
    }
    forall c, i | 0 <= i < |Stack(s, c)| && Stack(s, c)[i].m == m && Some(Slot(c, i)) != s.msgs[m].waiter
      ensures Past(Stack(s, c)[i])
    {
      assert FrameOk(s, Slot(c, i), Stack(s, c)[i]);
    }
  }

  /** A freed message is on no ring and no activation will use it. */
  lemma FreedIsOutOfReach(s: State, m: MsgId)
    requires Inv(s) && m in s.msgs && !s.msgs[m].live
    ensures OutOfReach(s, m, None)
  {
    assert MsgOk(s, m, s.msgs[m]);
    RestsOutOfReach(s, m);
  }

  /** The blocking send. When the loop at line 182 sees DEQUEUED, a handler has
      finished with a result other than -EAGAIN since the send began, however
      often it asked for a repost before; the message is on no ring, and no
      other activation on any core will touch it again. */
  lemma BlockingSendEndsAfterHandler(s: State, c: Core)
    requires Inv(s) && (TopSends(s, c, Wait) || TopSends(s, c, Finish))
    requires TopSends(s, c, Wait) ==> Lookup(s, Top(s, c).m).state == Dequeued
    ensures var m := Top(s, c).m;
            m in s.msgs && s.msgs[m].finished && s.msgs[m].live && OutOfReach(s, m, Some(TopSlot(s, c)))
  {
    var f := Top(s, c);
    assert FrameOk(s, TopSlot(s, c), f);
    assert MsgOk(s, f.m, s.msgs[f.m]);
    RestsOutOfReach(s, f.m);
  }

  /** A NOBLOCK send to a full ring gives the message back to the caller, marked
      QUEUED though it is on no ring. The TO_FREE flag survives if and only if
      the send was not a blocking one (or the flag was not set). */
  lemma FailedSendReturnsMessage(s: State, c: Core, m: MsgId, nowait: bool, capacity: nat)
    requires Inv(s) && Enabled(s, Send(c, m, true, nowait))
    requires |Contents(s, Ring(s.msgs[m].dest, s.msgs[m].isLocal))| >= capacity
    ensures var t := Next(s, Send(c, m, true, nowait), capacity);
            && Enabled(t, TryEnqueue(c))
            && var u := Next(t, TryEnqueue(c), capacity);
               && OwnedBy(u, c, m) && u.msgs[m].state == Queued && u.rings == s.rings
               && (u.msgs[m].toFree == s.msgs[m].toFree <==> nowait || !s.msgs[m].toFree)
  {
    NextKeepsInv(s, Send(c, m, true, nowait), capacity);
  }

  /** The recording of that is set by nothing but such a return of a handler. */
  lemma FinishedByHandlerOnly(s: State, st: Step, capacity: nat, m: MsgId)
    requires Inv(s) && Enabled(s, st) && m in s.msgs && !s.msgs[m].finished
    requires Lookup(Next(s, st, capacity), m).finished
    ensures st.HandlerReturns? && !st.again && Top(s, st.core).m == m
  {
    if m != Target(s, st) || st.ReturnToCaller? {
      OnlyTargetChanges(s, st, capacity, m);
    } else if !(st.HandlerReturns? && !st.again) {
      OthersDoNotFinish(s, st, capacity);
    }
  }

  lemma OthersDoNotFinish(s: State, st: Step, capacity: nat)
    requires Enabled(s, st) && Target(s, st) in s.msgs && !(st.HandlerReturns? && !st.again)
    ensures Lookup(Next(s, st, capacity), Target(s, st)).finished ==> s.msgs[Target(s, st)].finished
  {
  }

  /** Message m belongs to core c: the application there owns it, or a blocking
      send there waits for it and it is handled for good. */
  predicate Held(s: State, c: Core, m: MsgId) {
    m in s.msgs && (s.msgs[m].place == Owned(c)
                    || (s.msgs[m].place == Done && s.msgs[m].waiter.Some? && s.msgs[m].waiter.value.core == c))
  }

  /** No other core touches a held message: a message on the stack of the sender
      is safe after the send has returned. */
  lemma OthersLeaveHeldAlone(s: State, st: Step, capacity: nat, c: Core, m: MsgId)
    requires Inv(s) && Enabled(s, st) && st.core != c && Held(s, c, m)
    ensures m !in Accesses(s, st)
    ensures Lookup(Next(s, st, capacity), m) == s.msgs[m] && Held(Next(s, st, capacity), c, m)
  {
    assert MsgOk(s, m, s.msgs[m]);
    if m == Target(s, st) && !st.ReturnToCaller? {
      TargetIsThere(s, st);
    } else {
      OnlyTargetChanges(s, st, capacity, m);
    }
  }

  /** Not in any run of the other cores. */
  lemma {:induction false} HeldStaysUntouched(s: State, steps: seq<Step>, capacity: nat, c: Core, m: MsgId)
    requires Inv(s) && RunEnabled(s, steps, capacity) && Held(s, c, m)
    requires forall i :: 0 <= i < |steps| ==> steps[i].core != c
    ensures Lookup(Run(s, steps, capacity), m) == s.msgs[m]
    decreases |steps|
  {
    if steps != [] {
      NextKeepsInv(s, steps[0], capacity);
      OthersLeaveHeldAlone(s, steps[0], capacity, c, m);
      HeldStaysUntouched(Next(s, steps[0], capacity), steps[1..], capacity, c, m);
    }
  }

  /** Freed once: a freed message stays freed, and no step frees it again. */
  lemma FreedStaysFreed(s: State, st: Step, capacity: nat, m: MsgId)
    requires Inv(s) && Enabled(s, st) && m in s.msgs && !s.msgs[m].live
    ensures m !in Accesses(s, st) && Lookup(Next(s, st, capacity), m) == s.msgs[m]
  {
    assert MsgOk(s, m, s.msgs[m]);
    if m == Target(s, st) && !st.ReturnToCaller? {
      TargetIsThere(s, st);
    } else {
      OnlyTargetChanges(s, st, capacity, m);
    }
  }

  // ----- how sending and handling end

  /** The message is being put on a ring, on one, or being handled. */
  predicate UnderWay(msg: Msg) {
    msg.place.Entering? || msg.place.InRing? || msg.place.Handled?
  }

  /** The step is the return of a handler of m that asks for a repost. */
  predicate Reposts(s: State, st: Step, m: MsgId)
    requires Enabled(s, st)
  {
    st.HandlerReturns? && st.again && Top(s, st.core).m == m
  }

  predicate WasReposted(s: State, steps: seq<Step>, capacity: nat, m: MsgId)
    requires RunEnabled(s, steps, capacity)
    decreases |steps|
  {
    steps != [] && (Reposts(s, steps[0], m) || WasReposted(Next(s, steps[0], capacity), steps[1..], capacity, m))
  }

  /** In all states of the run. */
  predicate StaysUnderWay(s: State, steps: seq<Step>, capacity: nat, m: MsgId)
    requires RunEnabled(s, steps, capacity)
    decreases |steps|
  {
    && m in s.msgs && UnderWay(s.msgs[m])
    && (steps != [] ==> StaysUnderWay(Next(s, steps[0], capacity), steps[1..], capacity, m))
  }

  lemma StepKeepsFlag(s: State, st: Step, capacity: nat, m: MsgId)
    requires Inv(s) && Enabled(s, st) && m in s.msgs && UnderWay(s.msgs[m])
    ensures Lookup(Next(s, st, capacity), m).toFree == (s.msgs[m].toFree && !Reposts(s, st, m))
  {
    if m != Target(s, st) || st.ReturnToCaller? {
      OnlyTargetChanges(s, st, capacity, m);
    } else {
      TargetKeepsFlag(s, st, capacity);
    }
  }

  lemma TargetKeepsFlag(s: State, st: Step, capacity: nat)
    requires Enabled(s, st) && !st.ReturnToCaller? && Target(s, st) in s.msgs && UnderWay(s.msgs[Target(s, st)])
    ensures Lookup(Next(s, st, capacity), Target(s, st)).toFree
            == (s.msgs[Target(s, st)].toFree && !Reposts(s, st, Target(s, st)))
  {
    var t := Execute(s, st, capacity);
    assert Next(s, st, capacity).msgs == t.msgs;
    if st.HandlerReturns? {
      ReturnSetsFlag(s, st.core, st.again, capacity);
    } else {
      NoOtherSetsFlag(s, st, capacity);
    }
  }

  lemma ReturnSetsFlag(s: State, c: Core, again: bool, capacity: nat)
    requires Enabled(s, HandlerReturns(c, again)) && Top(s, c).m in s.msgs
    ensures Lookup(Execute(s, HandlerReturns(c, again), capacity), Top(s, c).m).toFree
            == (s.msgs[Top(s, c).m].toFree && !again)
  {
  }

  lemma NoOtherSetsFlag(s: State, st: Step, capacity: nat)
    requires Enabled(s, st) && !st.ReturnToCaller? && !st.HandlerReturns? && Target(s, st) in s.msgs
    requires UnderWay(s.msgs[Target(s, st)])
    ensures Lookup(Execute(s, st, capacity), Target(s, st)).toFree == s.msgs[Target(s, st)].toFree
  {
  }

  /** While a message is under way nothing but a repost changes its TO_FREE flag. */
  lemma {:induction false} FlagUnderWay(s: State, steps: seq<Step>, capacity: nat, m: MsgId)
    requires Inv(s) && RunEnabled(s, steps, capacity) && StaysUnderWay(s, steps, capacity, m)
    ensures m in Run(s, steps, capacity).msgs
    ensures Run(s, steps, capacity).msgs[m].toFree == (s.msgs[m].toFree && !WasReposted(s, steps, capacity, m))
    decreases |steps|
  {
    if steps != [] {
      NextKeepsInv(s, steps[0], capacity);
      StepKeepsFlag(s, steps[0], capacity, m);
      FlagUnderWay(Next(s, steps[0], capacity), steps[1..], capacity, m);
    }
  }

  /** How the handling of a message ends, whatever happened since it was sent: it is
      freed if and only if it was sent with TO_FREE and without waiting, and no
      handler asked for a repost. Otherwise it is left marked as dequeued. */
  lemma HandlingOutcome(s: State, c: Core, m: MsgId, noblock: bool, nowait: bool, steps: seq<Step>, d: Core,
                        capacity: nat)
    requires Inv(s) && Enabled(s, Send(c, m, noblock, nowait))
    requires var sent := Next(s, Send(c, m, noblock, nowait), capacity);
             && RunEnabled(sent, steps, capacity) && StaysUnderWay(sent, steps, capacity, m)
             && TopHandles(Run(sent, steps, capacity), d, Complete) && Top(Run(sent, steps, capacity), d).m == m
    ensures var sent := Next(s, Send(c, m, noblock, nowait), capacity);
            var t := Next(Run(sent, steps, capacity), CompleteHandling(d), capacity);
            && m in t.msgs
            && if s.msgs[m].toFree && nowait && !WasReposted(sent, steps, capacity, m)
               then !t.msgs[m].live && t.msgs[m].place == Freed
               else t.msgs[m].live && t.msgs[m].state == Dequeued && t.msgs[m].place == Done
  {
    var sent := Next(s, Send(c, m, noblock, nowait), capacity);
    NextKeepsInv(s, Send(c, m, noblock, nowait), capacity);
    RunIsSafe(sent, steps, capacity);
    FlagUnderWay(sent, steps, capacity, m);
    CompletionOutcome(Run(sent, steps, capacity), d, capacity);
  }

  lemma CompletionOutcome(s: State, d: Core, capacity: nat)
    requires Inv(s) && Enabled(s, CompleteHandling(d))
    ensures var m, t := Top(s, d).m, Next(s, CompleteHandling(d), capacity);
            && m in s.msgs && m in t.msgs && Stack(t, d) == Below(s, d)
            && t.msgs[m] == (if s.msgs[m].toFree then s.msgs[m].(live := false, place := Freed)
                             else s.msgs[m].(state := Dequeued, place := Done))
            && (s.msgs[m].toFree || s.msgs[m].live)
  {
    assert FrameOk(s, TopSlot(s, d), Top(s, d));
    assert MsgOk(s, Top(s, d).m, s.msgs[Top(s, d).m]);
  }

  /** Core c is in a blocking send of m above the activations in base. */
  predicate Blocked(s: State, c: Core, m: MsgId, base: seq<Frame>, toFree: bool) {
    && Stack(s, c) != [] && Below(s, c) == base
    && var f := Top(s, c);
       f.Sending? && f.m == m && f.toFree == toFree && !f.nowait && f.sendAt != Return(true)
  }

  lemma BlockedUntilFinish(s: State, st: Step, capacity: nat, c: Core, m: MsgId, base: seq<Frame>, toFree: bool)
    requires Enabled(s, st) && Blocked(s, c, m, base, toFree) && st != FinishSend(c) && st != ReturnToCaller(c)
    ensures Blocked(Next(s, st, capacity), c, m, base, toFree)
  {
    if st.core != c {
      OtherStackStays(s, st, capacity, c);
    } else if st.TryEnqueue? {
      EnqueueStaysBlocked(s, capacity, c, m, base, toFree);
    }
  }

  lemma OtherStackStays(s: State, st: Step, capacity: nat, c: Core)
    requires Enabled(s, st) && st.core != c
    ensures Stack(Next(s, st, capacity), c) == Stack(s, c)
  {
  }

  lemma EnqueueStaysBlocked(s: State, capacity: nat, c: Core, m: MsgId, base: seq<Frame>, toFree: bool)
    requires Enabled(s, TryEnqueue(c)) && Blocked(s, c, m, base, toFree)
    ensures Blocked(Next(s, TryEnqueue(c), capacity), c, m, base, toFree)
  {
    var f := Top(s, c);
    SetTopReplaces(s, c, f.(sendAt := Wait));
    SetTopReplaces(s, c, f.(sendAt := Return(false)));
    assert Stack(s, c) == base + [f];
  }

  lemma {:induction false} BlockedThroughRun(s: State, steps: seq<Step>, capacity: nat, c: Core, m: MsgId,
                                             base: seq<Frame>, toFree: bool)
    requires RunEnabled(s, steps, capacity) && Blocked(s, c, m, base, toFree)
    requires FinishSend(c) !in steps && ReturnToCaller(c) !in steps
    ensures Blocked(Run(s, steps, capacity), c, m, base, toFree)
    decreases |steps|
  {
    if steps != [] {
      BlockedUntilFinish(s, steps[0], capacity, c, m, base, toFree);
      BlockedThroughRun(Next(s, steps[0], capacity), steps[1..], capacity, c, m, base, toFree);
    }
  }

  /** How a blocking send ends, whatever the other cores do meanwhile: the message is
      freed if and only if it was sent with TO_FREE. Otherwise the sender has it
      back, initialised, and may send it again. */
  lemma BlockingSendOutcome(s: State, c: Core, m: MsgId, noblock: bool, steps: seq<Step>, capacity: nat)
    requires Inv(s) && Enabled(s, Send(c, m, noblock, false))
    requires FinishSend(c) !in steps && ReturnToCaller(c) !in steps
    requires var sent := Next(s, Send(c, m, noblock, false), capacity);
             RunEnabled(sent, steps, capacity) && TopSends(Run(sent, steps, capacity), c, Finish)
    ensures var sent := Next(s, Send(c, m, noblock, false), capacity);
            var t := Next(Run(sent, steps, capacity), FinishSend(c), capacity);
            && m in t.msgs && TopSends(t, c, Return(true)) && Below(t, c) == Stack(s, c)
            && if s.msgs[m].toFree then !t.msgs[m].live && t.msgs[m].place == Freed
               else t.msgs[m].live && t.msgs[m].state == Init && OwnedBy(t, c, m)
  {
    var sent := Next(s, Send(c, m, noblock, false), capacity);
    NextKeepsInv(s, Send(c, m, noblock, false), capacity);
    SendBlocks(s, c, m, noblock, capacity);
    RunIsSafe(sent, steps, capacity);
    BlockedThroughRun(sent, steps, capacity, c, m, Stack(s, c), s.msgs[m].toFree);
    FinishOutcome(Run(sent, steps, capacity), c, capacity);
  }

  lemma SendBlocks(s: State, c: Core, m: MsgId, noblock: bool, capacity: nat)
    requires Enabled(s, Send(c, m, noblock, false))
    ensures Blocked(Next(s, Send(c, m, noblock, false), capacity), c, m, Stack(s, c), s.msgs[m].toFree)
  {
  }

  lemma FinishOutcome(s: State, c: Core, capacity: nat)
    requires Inv(s) && Enabled(s, FinishSend(c))
    ensures var f, t := Top(s, c), Next(s, FinishSend(c), capacity);
            && f.m in t.msgs && TopSends(t, c, Return(true)) && Below(t, c) == Below(s, c)
            && if f.toFree then !t.msgs[f.m].live && t.msgs[f.m].place == Freed
               else t.msgs[f.m].live && t.msgs[f.m].state == Init && OwnedBy(t, c, f.m)
  {
    assert FrameOk(s, TopSlot(s, c), Top(s, c));
    assert MsgOk(s, Top(s, c).m, s.msgs[Top(s, c).m]);
  }

  /** The states differ at most in one message. */
  predicate SameBut(s: State, t: State, m: MsgId) {
    m in s.msgs && m in t.msgs && t.msgs == s.msgs[m := t.msgs[m]]
  }

  // ----- what goes through a ring

  /** The message that a step puts on a ring, or takes off it for a handler. */
  function Enters(s: State, st: Step, capacity: nat, r: Ring): seq<MsgId>
    requires Enabled(s, st)
  {
    if st.TryEnqueue? && Lookup(Next(s, st, capacity), Top(s, st.core).m).place == InRing(r)
    then [Top(s, st.core).m] else []
  }

  function Leaves(s: State, st: Step, capacity: nat, r: Ring): seq<MsgId>
    requires Enabled(s, st)
  {
    if st.Poll? && r == Ring(st.core, st.isLocal) then [Top(Next(s, st, capacity), st.core).m] else []
  }

  function Entered(s: State, steps: seq<Step>, capacity: nat, r: Ring): seq<MsgId>
    requires RunEnabled(s, steps, capacity)
    decreases |steps|
  {
    if steps == [] then []
    else Enters(s, steps[0], capacity, r) + Entered(Next(s, steps[0], capacity), steps[1..], capacity, r)
  }

  function Left(s: State, steps: seq<Step>, capacity: nat, r: Ring): seq<MsgId>
    requires RunEnabled(s, steps, capacity)
    decreases |steps|
  {
    if steps == [] then []
    else Leaves(s, steps[0], capacity, r) + Left(Next(s, steps[0], capacity), steps[1..], capacity, r)
  }

  lemma RingMoves(s: State, st: Step, capacity: nat, r: Ring)
    requires Inv(s) && Enabled(s, st)
    ensures Leaves(s, st, capacity, r) + Contents(Next(s, st, capacity), r)
            == Contents(s, r) + Enters(s, st, capacity, r)
    ensures |Contents(s, r)| <= capacity ==> |Contents(Next(s, st, capacity), r)| <= capacity
  {
    if st.TryEnqueue? {
      EnqueueMovesRing(s, st.core, capacity, r);
    } else if st.Poll? {
      PollOutcome(s, st.core, st.isLocal, capacity);
    } else {
      OthersLeaveRings(s, st, capacity, r);
    }
  }

  lemma EnqueueMovesRing(s: State, c: Core, capacity: nat, r: Ring)
    requires Inv(s) && Enabled(s, TryEnqueue(c))
    ensures Contents(Next(s, TryEnqueue(c), capacity), r) == Contents(s, r) + Enters(s, TryEnqueue(c), capacity, r)
    ensures |Contents(s, r)| <= capacity ==> |Contents(Next(s, TryEnqueue(c), capacity), r)| <= capacity
  {
    assert FrameOk(s, TopSlot(s, c), Top(s, c));
    EnqueueOutcome(s, c, capacity);
  }

  lemma OthersLeaveRings(s: State, st: Step, capacity: nat, r: Ring)
    requires Enabled(s, st) && !st.TryEnqueue? && !st.Poll?
    ensures Contents(Next(s, st, capacity), r) == Contents(s, r)
  {
  }

  /** An attempt to enqueue succeeds if and only if the ring has room; a blocking send
      then waits. On a full ring a NOBLOCK send gives up and any other tries again. */
  lemma EnqueueOutcome(s: State, c: Core, capacity: nat)
    requires Inv(s) && Enabled(s, TryEnqueue(c))
    ensures var f, t := Top(s, c), Next(s, TryEnqueue(c), capacity);
            && f.m in t.msgs
            && if |Contents(s, f.ring)| < capacity then
                 && Stack(t, c) == Below(s, c) + [f.(sendAt := if f.nowait then Return(true) else Wait)]
                 && t.msgs[f.m] == s.msgs[f.m].(place := InRing(f.ring))
                 && forall r :: Contents(t, r) == if r == f.ring then Contents(s, r) + [f.m] else Contents(s, r)
               else if f.noblock then
                 && Stack(t, c) == Below(s, c) + [f.(sendAt := Return(false))]
                 && OwnedBy(t, c, f.m) && t.rings == s.rings
               else t == s
  {
    var f := Top(s, c);
    assert FrameOk(s, TopSlot(s, c), f);
    assert MsgOk(s, f.m, s.msgs[f.m]);
    NextKeepsInv(s, TryEnqueue(c), capacity);
    SetTopReplaces(s, c, f.(sendAt := if f.nowait then Return(true) else Wait));
    SetTopReplaces(s, c, f.(sendAt := Return(false)));
  }

  /** A poll takes the first message and starts to handle it. */
  lemma PollOutcome(s: State, c: Core, l: bool, capacity: nat)
    requires Inv(s) && Enabled(s, Poll(c, l))
    ensures var q, t := Contents(s, Ring(c, l)), Next(s, Poll(c, l), capacity);
            && q[0] in s.msgs && SameBut(s, t, q[0]) && t.msgs[q[0]] == s.msgs[q[0]].(place := Handled(Slot(c, 0)))
            && Stack(t, c) == [Handling(q[0], false, Check)]
            && forall r :: Contents(t, r) == if r == Ring(c, l) then q[1..] else Contents(s, r)
  {
    assert RingOk(s, Ring(c, l));
  }

  /** Every ring is first in, first out: in any run the messages that its core handles,
      followed by those that are left, are those that were there followed by those
      that came. It never holds more than its capacity. */
  lemma {:induction false} RingsAreFifo(s: State, steps: seq<Step>, capacity: nat, r: Ring)
    requires Inv(s) && RunEnabled(s, steps, capacity)
    ensures Left(s, steps, capacity, r) + Contents(Run(s, steps, capacity), r)
            == Contents(s, r) + Entered(s, steps, capacity, r)
    ensures |Contents(s, r)| <= capacity ==> |Contents(Run(s, steps, capacity), r)| <= capacity
    decreases |steps|
  {
    if steps != [] {
      var t := Next(s, steps[0], capacity);
      NextKeepsInv(s, steps[0], capacity);
      RingMoves(s, steps[0], capacity, r);
      RingsAreFifo(t, steps[1..], capacity, r);
      SeqsMove(Leaves(s, steps[0], capacity, r), Contents(t, r), Contents(s, r), Enters(s, steps[0], capacity, r),
               Left(t, steps[1..], capacity, r), Contents(Run(s, steps, capacity), r),
               Entered(t, steps[1..], capacity, r));
    }
  }

  lemma SeqsMove(out: seq<MsgId>, mid: seq<MsgId>, before: seq<MsgId>, come: seq<MsgId>,
                 moreOut: seq<MsgId>, after: seq<MsgId>, moreCome: seq<MsgId>)
    requires out + mid == before + come && moreOut + after == mid + moreCome
    ensures (out + moreOut) + after == before + (come + moreCome)
  {
    assert (out + moreOut) + after == out + (moreOut + after);
    assert out + (mid + moreCome) == (out + mid) + moreCome;
  }

  // ----- a send that meets an idle core

  /** A send enters by the ring of the destination that the LOCAL flag names, and takes
      TO_FREE away from the receiver if it waits. */
  lemma SendOutcome(s: State, c: Core, m: MsgId, noblock: bool, nowait: bool, capacity: nat)
    requires Inv(s) && Enabled(s, Send(c, m, noblock, nowait))
    ensures var t, msg := Next(s, Send(c, m, noblock, nowait), capacity), s.msgs[m];
            && SameBut(s, t, m) && t.rings == s.rings
            && Stack(t, c) == Stack(s, c)
                              + [Sending(m, Ring(msg.dest, msg.isLocal), noblock, nowait, msg.toFree, Enqueue)]
            && t.msgs[m].state == Queued && t.msgs[m].toFree == (msg.toFree && nowait)
            && t.msgs[m].dest == msg.dest && t.msgs[m].isLocal == msg.isLocal
  {
  }

  /** Initialising gives the application a message with the header it asked for, which
      it may send. */
  lemma InitOutcome(s: State, c: Core, m: MsgId, dest: Core, isLocal: bool, toFree: bool, capacity: nat)
    requires Inv(s) && Enabled(s, InitMsg(c, m, dest, isLocal, toFree))
    ensures var t := Next(s, InitMsg(c, m, dest, isLocal, toFree), capacity);
            && OwnedBy(t, c, m) && t.msgs[m].live && t.msgs[m].state == Init
            && t.msgs[m].dest == dest && t.msgs[m].isLocal == isLocal && t.msgs[m].toFree == toFree
            && forall noblock, nowait :: Enabled(t, Send(c, m, noblock, nowait))
  {
    NextKeepsInv(s, InitMsg(c, m, dest, isLocal, toFree), capacity);
  }

  /** A repost goes to the own ring of the core that handled the message, without
      waiting and without TO_FREE, and tries until the ring has room. */
  lemma RepostOutcome(s: State, c: Core, capacity: nat)
    requires Inv(s) && Enabled(s, HandlerReturns(c, true))
    ensures var m, t := Top(s, c).m, Next(s, HandlerReturns(c, true), capacity);
            && SameBut(s, t, m) && t.rings == s.rings
            && Stack(t, c) == Below(s, c) + [Top(s, c).(handleAt := Reposted),
                                             Sending(m, Ring(c, true), false, true, false, Enqueue)]
            && t.msgs[m].state == Queued && !t.msgs[m].toFree
  {
    var m := Top(s, c).m;
    HandlerOnOwnCore(s, c);
    ExecuteRepost(s, c);
    NextKeepsInv(s, HandlerReturns(c, true), capacity);
    assert Next(s, HandlerReturns(c, true), capacity) == Execute(s, HandlerReturns(c, true), 0);
  }

  lemma HandlerOnOwnCore(s: State, c: Core)
    requires Inv(s) && TopHandles(s, c, Running)
    ensures Top(s, c).m in s.msgs && s.msgs[Top(s, c).m].dest == c
  {
    assert FrameOk(s, TopSlot(s, c), Top(s, c));
    assert MsgOk(s, Top(s, c).m, s.msgs[Top(s, c).m]);
  }

  /** Waiting goes on until the message is marked dequeued, and not longer. */
  lemma SpinOutcome(s: State, c: Core, capacity: nat)
    requires Inv(s) && Enabled(s, Spin(c))
    ensures var f, t := Top(s, c), Next(s, Spin(c), capacity);
            if Lookup(s, f.m).state == Dequeued
            then Stack(t, c) == Below(s, c) + [f.(sendAt := Finish)] && t.msgs == s.msgs && t.rings == s.rings
            else t == s
  {
    var f := Top(s, c);
    assert FrameOk(s, TopSlot(s, c), f);
    NextKeepsInv(s, Spin(c), capacity);
    SetTopReplaces(s, c, f.(sendAt := Finish));
  }

  lemma StartOutcome(s: State, c: Core, capacity: nat)
    requires Inv(s) && Enabled(s, StartHandler(c))
    ensures var f, t := Top(s, c), Next(s, StartHandler(c), capacity);
            && t.msgs == s.msgs && t.rings == s.rings
            && Stack(t, c) == Below(s, c) + [Handling(f.m, Lookup(s, f.m).toFree, Running)]
  {
    SetTopReplaces(s, c, Top(s, c).(toFree := Lookup(s, Top(s, c).m).toFree, handleAt := Running));
  }

  lemma ReturnOutcome(s: State, c: Core, capacity: nat)
    requires Inv(s) && Enabled(s, HandlerReturns(c, false))
    ensures var f, t := Top(s, c), Next(s, HandlerReturns(c, false), capacity);
            && SameBut(s, t, f.m) && t.msgs[f.m] == s.msgs[f.m].(finished := true) && t.rings == s.rings
            && Stack(t, c) == Below(s, c) + [f.(handleAt := Complete)]
  {
    assert FrameOk(s, TopSlot(s, c), Top(s, c));
    SetTopReplaces(s, c, Top(s, c).(handleAt := Complete));
  }

  /** The stack of the receiver and of the sender, and the state of the message. */
  ghost predicate Stands(s: State, c: Core, sc: seq<Frame>, d: Core, sd: seq<Frame>, m: MsgId, st: MsgState) {
    && Inv(s) && Stack(s, c) == sc && Stack(s, d) == sd
    && m in s.msgs && s.msgs[m].state == st && !s.msgs[m].toFree
  }

  /** The sending half. */
  lemma SendStands(s: State, c: Core, m: MsgId, noblock: bool, capacity: nat)
    requires Inv(s) && Enabled(s, Send(c, m, noblock, false)) && s.msgs[m].dest != c
    requires Contents(s, Ring(s.msgs[m].dest, s.msgs[m].isLocal)) == [] && capacity > 0
    ensures var d, r := s.msgs[m].dest, Ring(s.msgs[m].dest, s.msgs[m].isLocal);
            var t := Next(s, Send(c, m, noblock, false), capacity);
            && Enabled(t, TryEnqueue(c))
            && var u := Next(t, TryEnqueue(c), capacity);
               && Stands(u, c, Stack(s, c) + [Sending(m, r, noblock, false, s.msgs[m].toFree, Wait)],
                         d, Stack(s, d), m, Queued)
               && Contents(u, r) == [m]
  {
    var d, t := s.msgs[m].dest, Next(s, Send(c, m, noblock, false), capacity);
    SendOutcome(s, c, m, noblock, false, capacity);
    NextKeepsInv(s, Send(c, m, noblock, false), capacity);
    OtherStackStays(s, Send(c, m, noblock, false), capacity, d);
    EnqueueOutcome(t, c, capacity);
    NextKeepsInv(t, TryEnqueue(c), capacity);
    OtherStackStays(t, TryEnqueue(c), capacity, d);
  }

  lemma RunFirst(s: State, st: Step, rest: seq<Step>, capacity: nat)
    requires Enabled(s, st) && RunEnabled(Next(s, st, capacity), rest, capacity)
    ensures RunEnabled(s, [st] + rest, capacity)
    ensures Run(s, [st] + rest, capacity) == Run(Next(s, st, capacity), rest, capacity)
  {
    assert ([st] + rest)[1..] == rest;
  }

  /** The four steps of the receiver. */
  lemma PollStands(s: State, c: Core, sc: seq<Frame>, d: Core, l: bool, m: MsgId, capacity: nat)
    requires c != d && Stands(s, c, sc, d, [], m, Queued) && Contents(s, Ring(d, l)) == [m]
    ensures Enabled(s, Poll(d, l))
    ensures Stands(Next(s, Poll(d, l), capacity), c, sc, d, [Handling(m, false, Check)], m, Queued)
  {
    PollOutcome(s, d, l, capacity);
    NextKeepsInv(s, Poll(d, l), capacity);
    OtherStackStays(s, Poll(d, l), capacity, c);
  }

  lemma StartStands(s: State, c: Core, sc: seq<Frame>, d: Core, m: MsgId, capacity: nat)
    requires c != d && Stands(s, c, sc, d, [Handling(m, false, Check)], m, Queued)
    ensures Enabled(s, StartHandler(d))
    ensures Stands(Next(s, StartHandler(d), capacity), c, sc, d, [Handling(m, false, Running)], m, Queued)
  {
    StartOutcome(s, d, capacity);
    NextKeepsInv(s, StartHandler(d), capacity);
    OtherStackStays(s, StartHandler(d), capacity, c);
  }

  lemma ReturnStands(s: State, c: Core, sc: seq<Frame>, d: Core, m: MsgId, capacity: nat)
    requires c != d && Stands(s, c, sc, d, [Handling(m, false, Running)], m, Queued)
    ensures Enabled(s, HandlerReturns(d, false))
    ensures Stands(Next(s, HandlerReturns(d, false), capacity), c, sc, d, [Handling(m, false, Complete)], m, Queued)
  {
    ReturnOutcome(s, d, capacity);
    NextKeepsInv(s, HandlerReturns(d, false), capacity);
    OtherStackStays(s, HandlerReturns(d, false), capacity, c);
  }

  lemma CompleteStands(s: State, c: Core, sc: seq<Frame>, d: Core, m: MsgId, capacity: nat)
    requires c != d && Stands(s, c, sc, d, [Handling(m, false, Complete)], m, Queued)
    ensures Enabled(s, CompleteHandling(d))
    ensures Stands(Next(s, CompleteHandling(d), capacity), c, sc, d, [], m, Dequeued)
  {
    CompletionOutcome(s, d, capacity);
    NextKeepsInv(s, CompleteHandling(d), capacity);
    OtherStackStays(s, CompleteHandling(d), capacity, c);
  }

  lemma HandlingStands(s: State, c: Core, sc: seq<Frame>, d: Core, l: bool, m: MsgId, capacity: nat)
    requires c != d && Stands(s, c, sc, d, [], m, Queued) && Contents(s, Ring(d, l)) == [m]
    ensures var steps := HandlingSteps(d, l);
            RunEnabled(s, steps, capacity) && Stands(Run(s, steps, capacity), c, sc, d, [], m, Dequeued)
  {
    PollStands(s, c, sc, d, l, m, capacity);
    var t := Next(s, Poll(d, l), capacity);
    StartStands(t, c, sc, d, m, capacity);
    var u := Next(t, StartHandler(d), capacity);
    ReturnStands(u, c, sc, d, m, capacity);
    var v := Next(u, HandlerReturns(d, false), capacity);
    CompleteStands(v, c, sc, d, m, capacity);
    RunFirst(v, CompleteHandling(d), [], capacity);
    RunFirst(u, HandlerReturns(d, false), [CompleteHandling(d)] + [], capacity);
    RunFirst(t, StartHandler(d), [HandlerReturns(d, false)] + ([CompleteHandling(d)] + []), capacity);
    RunFirst(s, Poll(d, l), [StartHandler(d)] + ([HandlerReturns(d, false)] + ([CompleteHandling(d)] + [])), capacity);
  }

  /** The receiver handles a message, and the sender sees that. */
  function HandlingSteps(d: Core, l: bool): seq<Step> {
    [Poll(d, l)] + ([StartHandler(d)] + ([HandlerReturns(d, false)] + ([CompleteHandling(d)] + [])))
  }

  function MeetingSteps(c: Core, d: Core, l: bool): seq<Step> {
    [TryEnqueue(c)] + (HandlingSteps(d, l) + ([Spin(c)] + []))
  }

  /** A blocking send to another core that is idle and whose ring is empty can end:
      there is a run up to the end of the wait. How it ends then is the outcome of
      the blocking send. */
  lemma SendCanComplete(s: State, c: Core, m: MsgId, noblock: bool, capacity: nat)
    requires Inv(s) && Enabled(s, Send(c, m, noblock, false)) && s.msgs[m].dest != c && capacity > 0
    requires Stack(s, s.msgs[m].dest) == [] && Contents(s, Ring(s.msgs[m].dest, s.msgs[m].isLocal)) == []
    ensures var steps := MeetingSteps(c, s.msgs[m].dest, s.msgs[m].isLocal);
            var sent := Next(s, Send(c, m, noblock, false), capacity);
            && FinishSend(c) !in steps && ReturnToCaller(c) !in steps
            && RunEnabled(sent, steps, capacity) && TopSends(Run(sent, steps, capacity), c, Finish)
  {
    SendStands(s, c, m, noblock, capacity);
    MeetingRuns(Next(s, Send(c, m, noblock, false), capacity), c, Stack(s, c),
                Sending(m, Ring(s.msgs[m].dest, s.msgs[m].isLocal), noblock, false, s.msgs[m].toFree, Wait),
                s.msgs[m].dest, s.msgs[m].isLocal, capacity);
  }

  lemma MeetingRuns(s: State, c: Core, base: seq<Frame>, f: Frame, d: Core, l: bool, capacity: nat)
    requires c != d && Enabled(s, TryEnqueue(c)) && f.Sending? && f.sendAt == Wait
    requires var t := Next(s, TryEnqueue(c), capacity);
             Stands(t, c, base + [f], d, [], f.m, Queued) && Contents(t, Ring(d, l)) == [f.m]
    ensures var steps := MeetingSteps(c, d, l);
            && FinishSend(c) !in steps && ReturnToCaller(c) !in steps
            && RunEnabled(s, steps, capacity) && TopSends(Run(s, steps, capacity), c, Finish)
  {
    WaitCanEnd(Next(s, TryEnqueue(c), capacity), c, base, f, d, l, capacity);
    RunFirst(s, TryEnqueue(c), HandlingSteps(d, l) + ([Spin(c)] + []), capacity);
    EndsNoSend(c, d, l);
  }

  lemma EndsNoSend(c: Core, d: Core, l: bool)
    ensures FinishSend(c) !in MeetingSteps(c, d, l) && ReturnToCaller(c) !in MeetingSteps(c, d, l)
  {
  }

  lemma WaitCanEnd(s: State, c: Core, base: seq<Frame>, f: Frame, d: Core, l: bool, capacity: nat)
    requires c != d && Stands(s, c, base + [f], d, [], f.m, Queued) && Contents(s, Ring(d, l)) == [f.m]
    requires f.Sending? && f.sendAt == Wait
    ensures var steps := HandlingSteps(d, l) + ([Spin(c)] + []);
            RunEnabled(s, steps, capacity) && TopSends(Run(s, steps, capacity), c, Finish)
  {
    HandlingStands(s, c, base + [f], d, l, f.m, capacity);
    var t := Run(s, HandlingSteps(d, l), capacity);
    WaitEnds(t, c, f.m, capacity);
    RunFirst(t, Spin(c), [], capacity);
    RunOfConcat(s, HandlingSteps(d, l), [Spin(c)] + [], capacity);
  }

  lemma WaitEnds(s: State, c: Core, m: MsgId, capacity: nat)
    requires Inv(s) && TopSends(s, c, Wait) && Top(s, c).m == m && m in s.msgs && s.msgs[m].state == Dequeued
    ensures Enabled(s, Spin(c)) && TopSends(Next(s, Spin(c), capacity), c, Finish)
  {
    SpinOutcome(s, c, capacity);
  }

  lemma {:induction false} RunOfConcat(s: State, a: seq<Step>, b: seq<Step>, capacity: nat)
    requires RunEnabled(s, a, capacity) && RunEnabled(Run(s, a, capacity), b, capacity)
    ensures RunEnabled(s, a + b, capacity)
    ensures Run(s, a + b, capacity) == Run(Run(s, a, capacity), b, capacity)
    decreases |a|
  {
    if a == [] {
      assert a + b == b;
    } else {
      assert (a + b)[1..] == a[1..] + b;
      RunOfConcat(Next(s, a[0], capacity), a[1..], b, capacity);
    }
  }
}
