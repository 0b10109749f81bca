/**
  The latest-frame inbox between capture threads and the encoder: a locked
  list with one slot per display, one stored wake-up permit and a closed flag.
  Any number of publishers and closers interleave with one receiver, step by
  atomic step.
  */
module FrameInbox {
  import opened Bytes

  datatype Frame = Frame(displayId: u32, width: u32, height: u32, i420: bytes)

  // -------------------------------------------------------------- the list

  /** A new frame replaces the one of its display, or is added. */
  function Put(slots: seq<Frame>, f: Frame): seq<Frame> {
    if slots == [] then [f]
    else if slots[0].displayId == f.displayId then [f] + slots[1..]
    else [slots[0]] + Put(slots[1..], f)
  }

  ghost predicate OneEach(slots: seq<Frame>) {
    forall i, j :: 0 <= i < j < |slots| ==> slots[i].displayId != slots[j].displayId
  }

  /** The newest frame of each display. */
  ghost function Latest(slots: seq<Frame>, d: u32): Option<Frame> {
    if slots == [] then None
    else if slots[|slots| - 1].displayId == d then Some(slots[|slots| - 1])
    else Latest(slots[..|slots| - 1], d)
  }

  lemma {:induction false} LatestIs(slots: seq<Frame>, d: u32)
    ensures Latest(slots, d).None? <==> forall i :: 0 <= i < |slots| ==> slots[i].displayId != d
    ensures forall f :: OneEach(slots) && f in slots && f.displayId == d ==> Latest(slots, d) == Some(f)
    decreases |slots|
  {
    if slots != [] {
      LatestIs(slots[..|slots| - 1], d);
      assert slots == slots[..|slots| - 1] + [slots[|slots| - 1]];
    }
  }

  /** The slot of a display, or the end of the list. */
  ghost function Find(slots: seq<Frame>, d: u32): (i: nat)
    ensures i <= |slots|
    ensures i < |slots| ==> slots[i].displayId == d
    ensures forall j :: 0 <= j < i ==> slots[j].displayId != d
  {
    if slots == [] || slots[0].displayId == d then 0 else 1 + Find(slots[1..], d)
  }

  lemma {:induction false} PutAt(slots: seq<Frame>, f: Frame)
    ensures var i := Find(slots, f.displayId);
            Put(slots, f) == if i < |slots| then slots[i := f] else slots + [f]
    decreases |slots|
  {
    if slots != [] && slots[0].displayId != f.displayId {
      PutAt(slots[1..], f);
      assert Find(slots, f.displayId) == 1 + Find(slots[1..], f.displayId);
      assert Put(slots, f) == [slots[0]] + Put(slots[1..], f);
      hide Put, Find;
      assert slots == [slots[0]] + slots[1..];
    }
  }

  lemma PutKeeps(slots: seq<Frame>, f: Frame)
    requires OneEach(slots)
    ensures OneEach(Put(slots, f))
  {
    PutAt(slots, f);
    hide Put;
  }

  /** `publish` changes the map from displays to frames at one display only. */
  lemma PutUpdates(slots: seq<Frame>, f: Frame, d: u32)
    requires OneEach(slots)
    ensures OneEach(Put(slots, f))
    ensures Latest(Put(slots, f), d) == if d == f.displayId then Some(f) else Latest(slots, d)
  {
    PutAt(slots, f);
    PutKeeps(slots, f);
    LatestIs(slots, d);
    LatestIs(Put(slots, f), d);
    hide Put, Latest, OneEach;
    var at, put := Find(slots, f.displayId), Put(slots, f);
    assert put[at] == f;
    if d != f.displayId && Latest(slots, d).Some? {
      var i :| 0 <= i < |slots| && slots[i].displayId == d;
      assert put[i] == slots[i];
    }
  }

  /** `pop` takes the newest frame of some display out of the map and leaves the others. */
  lemma PopUpdates(slots: seq<Frame>, d: u32)
    requires OneEach(slots) && slots != []
    ensures var f, rest := slots[|slots| - 1], slots[..|slots| - 1];
            OneEach(rest) && Latest(rest, d) == if d == f.displayId then None else Latest(slots, d)
  {
    LatestIs(slots[..|slots| - 1], d);
  }

  // ------------------------------------------------------------ the system

  /** Where the receiver is in `recv`. */
  datatype Pc = Trying | SawEmpty | SawOpen | Waiting | Returned(frame: Frame) | Ended

  datatype Event = Published(f: Frame) | Delivered(f: Frame)

  /**
    `owed` publishers have filled a slot and not yet called `notify_one`;
    `closing` closers have set the flag and not yet called `notify_waiters`.
    `history` is what happened to frames so far.
    */
  datatype Inbox = Inbox(
    slots: seq<Frame>, permit: bool, closed: bool, owed: nat, closing: nat, pc: Pc, history: seq<Event>)

  const EMPTY := Inbox([], false, false, 0, 0, Trying, [])

  datatype Action =
    | PublishSlot(f: Frame)
    | NotifyOne
    | CloseFlag
    | NotifyWaiters
    | Receive

  predicate Enabled(s: Inbox, a: Action) {
    match a
    case PublishSlot(_) => true
    case NotifyOne => s.owed > 0
    case CloseFlag => true
    case NotifyWaiters => s.closing > 0
    case Receive => s.pc != Waiting
  }

  /** The next atomic step of the receiver; after a frame it calls `recv` again. */
  function ReceiverStep(s: Inbox): Inbox {
    match s.pc
    case Trying =>
      if s.slots == [] then s.(pc := SawEmpty)
      else
        var f := s.slots[|s.slots| - 1];
        s.(slots := s.slots[..|s.slots| - 1], pc := Returned(f), history := s.history + [Delivered(f)])
    case SawEmpty => s.(pc := if s.closed then Ended else SawOpen)
    case SawOpen => if s.permit then s.(permit := false, pc := Trying) else s.(pc := Waiting)
    case Waiting => s
    case Returned(_) => s.(pc := Trying)
    case Ended => s
  }

  function Step(s: Inbox, a: Action): Inbox
    requires Enabled(s, a)
  {
    match a
    case PublishSlot(f) => s.(slots := Put(s.slots, f), owed := s.owed + 1, history := s.history + [Published(f)])
    case NotifyOne =>
      if s.pc == Waiting then s.(owed := s.owed - 1, pc := Trying) else s.(owed := s.owed - 1, permit := true)
    case CloseFlag => s.(closed := true, closing := s.closing + 1)
    case NotifyWaiters => s.(closing := s.closing - 1, pc := if s.pc == Waiting then Trying else s.pc)
    case Receive => ReceiverStep(s)
  }

  /** The newest frame of a display that no delivery has taken, by the history alone. */
  ghost function Newest(history: seq<Event>, d: u32): Option<Frame> {
    if history == [] then None
    else
      var last := history[|history| - 1];
      if last.f.displayId == d then if last.Published? then Some(last.f) else None
      else Newest(history[..|history| - 1], d)
  }

  /** Every delivery was of the newest frame of its display, not delivered before. */
  ghost predicate Faithful(history: seq<Event>) {
    forall k :: 0 <= k < |history| && history[k].Delivered? ==>
      Newest(history[..k], history[k].f.displayId) == Some(history[k].f)
  }

  ghost predicate InboxInv(s: Inbox) {
    && OneEach(s.slots)
    && (forall d: u32 :: Latest(s.slots, d) == Newest(s.history, d))
    && Faithful(s.history)
    && (s.pc == Waiting ==> !s.permit)
    && (s.slots != [] && s.pc in {SawEmpty, SawOpen, Waiting} ==> s.permit || s.owed > 0)
  }

  lemma HistoryGrows(history: seq<Event>, e: Event, d: u32)
    ensures Newest(history + [e], d)
         == if e.f.displayId == d then if e.Published? then Some(e.f) else None else Newest(history, d)
  {
    assert (history + [e])[..|history|] == history;
  }

  lemma FaithfulGrows(history: seq<Event>, e: Event)
    requires Faithful(history)
    requires e.Delivered? ==> Newest(history, e.f.displayId) == Some(e.f)
    ensures Faithful(history + [e])
  {
    var more := history + [e];
    forall k | 0 <= k < |more| && more[k].Delivered? ensures Newest(more[..k], more[k].f.displayId) == Some(more[k].f) {
      assert more[..k] == history[..k] || k == |history|;
      if k == |history| {
        assert more[..k] == history;
      }
    }
  }

  lemma PublishInv(s: Inbox, f: Frame)
    requires InboxInv(s)
    ensures InboxInv(Step(s, PublishSlot(f)))
  {
    hide Put, OneEach, Latest, Newest, Faithful;
    var e := Published(f);
    FaithfulGrows(s.history, e);
    PutKeeps(s.slots, f);
    forall d: u32 ensures Latest(Put(s.slots, f), d) == Newest(s.history + [e], d) {
      PutUpdates(s.slots, f, d);
      HistoryGrows(s.history, e, d);
    }
  }

  lemma PopInv(s: Inbox)
    requires InboxInv(s) && s.pc == Trying && s.slots != []
    ensures InboxInv(ReceiverStep(s))
  {
    var f := s.slots[|s.slots| - 1];
    assert Latest(s.slots, f.displayId) == Some(f);
    PopUpdates(s.slots, f.displayId);
    hide OneEach, Latest, Newest, Faithful;
    FaithfulGrows(s.history, Delivered(f));
    forall d: u32 ensures Latest(s.slots[..|s.slots| - 1], d) == Newest(s.history + [Delivered(f)], d) {
      PopUpdates(s.slots, d);
      HistoryGrows(s.history, Delivered(f), d);
    }
  }

  lemma StepInv(s: Inbox, a: Action)
    requires InboxInv(s) && Enabled(s, a)
    ensures InboxInv(Step(s, a))
  {
    hide OneEach, Latest, Newest, Faithful, Put;
    if a.PublishSlot? {
      PublishInv(s, a.f);
    } else if a.Receive? && s.pc == Trying && s.slots != [] {
      PopInv(s);
    }
  }

  ghost predicate Legal(s: Inbox, acts: seq<Action>)
    decreases |acts|
  {
    acts == [] || (Enabled(s, acts[0]) && Legal(Step(s, acts[0]), acts[1..]))
  }

  ghost function Run(s: Inbox, acts: seq<Action>): Inbox
    requires Legal(s, acts)
    decreases |acts|
  {
    if acts == [] then s else Run(Step(s, acts[0]), acts[1..])
  }

  lemma {:induction false} RunInv(s: Inbox, acts: seq<Action>)
    requires InboxInv(s) && Legal(s, acts)
    ensures InboxInv(Run(s, acts))
    decreases |acts|
  {
    hide InboxInv, Step, Enabled;
    if acts != [] {
      StepInv(s, acts[0]);
      RunInv(Step(s, acts[0]), acts[1..]);
    }
  }

  lemma EmptyInv()
    ensures InboxInv(EMPTY)
  {
  }

  /**
    Under every interleaving: the slots are exactly the newest undelivered
    frame of each display, every delivery was such a frame, and a receiver
    that saw nothing while a slot is filled has a permit stored or a publisher
    about to notify it. So no wake-up is lost on publish.
    */
  lemma AnyInterleaving(acts: seq<Action>)
    requires Legal(EMPTY, acts)
    ensures var s := Run(EMPTY, acts);
            && (forall d: u32 :: Latest(s.slots, d) == Newest(s.history, d))
            && OneEach(s.slots) && Faithful(s.history)
            && (s.slots != [] && s.pc in {SawEmpty, SawOpen, Waiting} ==> s.permit || s.owed > 0)
            && (s.slots != [] && s.pc == Waiting ==> s.owed > 0)
  {
    EmptyInv();
    RunInv(EMPTY, acts);
  }

  /** The receiver running alone for `n` steps or until it has a result. */
  function Alone(s: Inbox, n: nat): Inbox
    decreases n
  {
    if n == 0 || s.pc.Returned? || s.pc == Ended then s else Alone(ReceiverStep(s), n - 1)
  }

  /**
    A filled slot with its publisher done reaches the receiver within three
    steps of its own, and what it gets is the newest frame of its display;
    unless the inbox is closed and the receiver, having seen the list empty
    before the frame came, looks at the flag next: then it ends without it.
    */
  lemma FilledIsReceived(s: Inbox)
    requires InboxInv(s) && s.slots != [] && s.owed == 0 && s.pc != Ended && !s.pc.Returned?
    ensures var f := s.slots[|s.slots| - 1];
            && Latest(s.slots, f.displayId) == Some(f)
            && (Alone(s, 3).pc == Returned(f) <==> !(s.closed && s.pc == SawEmpty))
    ensures s.closed && s.pc == SawEmpty ==> Alone(s, 3) == s.(pc := Ended)
  {
    AloneUnrolled(s);
  }

  /** How many steps of its own the receiver is away from a frame. */
  function Away(s: Inbox): nat {
    match s.pc
    case Trying => 1
    case SawOpen => 2
    case SawEmpty => 3
    case _ => 0
  }

  /** A slot is filled, the flag unset, and nothing makes the receiver wait. */
  predicate OnItsWay(s: Inbox) {
    s.slots != [] && !s.closed && (s.pc == Trying || (s.pc in {SawEmpty, SawOpen} && s.permit))
  }

  function ReceiverSteps(acts: seq<Action>): nat {
    if acts == [] then 0 else (if acts[0] == Receive then 1 else 0) + ReceiverSteps(acts[1..])
  }

  lemma PutFills(slots: seq<Frame>, f: Frame)
    ensures Put(slots, f) != []
  {
  }

  lemma StaysOnItsWay(s: Inbox, a: Action)
    requires OnItsWay(s) && Enabled(s, a) && a != CloseFlag
    ensures var s' := Step(s, a);
            if a != Receive then OnItsWay(s') && Away(s') == Away(s)
            else if s.pc == Trying then s'.pc == Returned(s.slots[|s.slots| - 1])
            else OnItsWay(s') && Away(s') == Away(s) - 1
  {
    if a.PublishSlot? {
      PutFills(s.slots, a.f);
    }
    hide Put;
  }

  /**
    The same with others acting in between: in every run in which nobody
    closes, by its third step at the latest the receiver returns a frame that
    is then the newest of its display.
    */
  lemma {:induction false} ReceivedMeanwhile(s: Inbox, acts: seq<Action>) returns (k: nat)
    requires InboxInv(s) && OnItsWay(s) && Legal(s, acts)
    requires (forall a :: a in acts ==> a != CloseFlag) && ReceiverSteps(acts) >= Away(s)
    ensures k < |acts| && acts[k] == Receive && ReceiverSteps(acts[..k]) < 3
    ensures Legal(s, acts[..k]) && Legal(s, acts[..k + 1])
    ensures var before, after := Run(s, acts[..k]), Run(s, acts[..k + 1]);
            && after.pc.Returned?
            && Latest(before.slots, after.pc.frame.displayId) == Some(after.pc.frame)
    decreases |acts|
  {
    k := ReturnsAt(s, acts);
  }

  lemma {:induction false} ReturnsAt(s: Inbox, acts: seq<Action>) returns (k: nat)
    requires InboxInv(s) && OnItsWay(s) && Legal(s, acts)
    requires (forall a :: a in acts ==> a != CloseFlag) && ReceiverSteps(acts) >= Away(s)
    ensures k < |acts| && acts[k] == Receive && ReceiverSteps(acts[..k]) == Away(s) - 1
    ensures Legal(s, acts[..k]) && Legal(s, acts[..k + 1])
    ensures var before, after := Run(s, acts[..k]), Run(s, acts[..k + 1]);
            && after.pc.Returned?
            && Latest(before.slots, after.pc.frame.displayId) == Some(after.pc.frame)
    decreases |acts|
  {
    var a, s' := acts[0], Step(s, acts[0]);
    assert a in acts;
    StaysOnItsWay(s, a);
    hide Step, InboxInv, OnItsWay, Enabled, Latest;
    if a == Receive && s.pc == Trying {
      k := 0;
      assert acts[..1] == [a] && acts[..0] == [] && [a][1..] == [];
      var f := s.slots[|s.slots| - 1];
      assert Latest(s.slots, f.displayId) == Some(f) by {
        LastIsLatest(s.slots);
      }
      RunOne(s, a);
    } else {
      StepInv(s, a);
      assert forall b :: b in acts[1..] ==> b in acts;
      assert ReceiverSteps(acts) == (if a == Receive then 1 else 0) + ReceiverSteps(acts[1..]);
      var n := ReturnsAt(s', acts[1..]);
      k := n + 1;
      RunFirst(s, acts[..k], acts[1..][..n]);
      RunFirst(s, acts[..k + 1], acts[1..][..n + 1]);
      assert acts[..k][1..] == acts[1..][..n];
    }
  }

  lemma LastIsLatest(slots: seq<Frame>)
    requires slots != []
    ensures Latest(slots, slots[|slots| - 1].displayId) == Some(slots[|slots| - 1])
  {
  }

  lemma RunOne(s: Inbox, a: Action)
    requires Enabled(s, a)
    ensures Legal(s, []) && Run(s, []) == s && Legal(s, [a]) && Run(s, [a]) == Step(s, a)
  {
    hide Step, Enabled;
    assert [a][1..] == [];
    assert Legal(Step(s, a), []) && Run(Step(s, a), []) == Step(s, a);
  }

  lemma RunFirst(s: Inbox, acts: seq<Action>, rest: seq<Action>)
    requires acts != [] && acts[1..] == rest && Enabled(s, acts[0]) && Legal(Step(s, acts[0]), rest)
    ensures Legal(s, acts) && Run(s, acts) == Run(Step(s, acts[0]), rest)
  {
    hide Step, Enabled;
  }

  /**
    Closing is different: `notify_waiters` stores no permit. A receiver that
    has seen the flag unset and is not yet waiting misses it and then waits
    for a publisher that may never come. It is released exactly otherwise.
    */
  lemma CloseReleases(s: Inbox)
    requires InboxInv(s) && s.closed && s.closing > 0 && s.owed == 0
    ensures var after := Alone(Step(s, NotifyWaiters), 3);
            (after.pc.Returned? || after.pc == Ended) <==> !(s.pc == SawOpen && !s.permit)
    ensures s.pc == SawOpen && !s.permit ==> forall n: nat :: n > 0 ==> Alone(Step(s, NotifyWaiters), n).pc == Waiting
  {
    var s0 := Step(s, NotifyWaiters);
    var s1 := ReceiverStep(s0);
    AloneUnrolled(s0);
    if s.pc == SawOpen && !s.permit {
      forall n: nat | n > 0 ensures Alone(s0, n).pc == Waiting {
        WaitsOn(s1, n - 1);
      }
    }
  }

  lemma AloneUnrolled(s: Inbox)
    ensures var s1 := ReceiverStep(s);
            var s2 := ReceiverStep(s1);
            var s3 := ReceiverStep(s2);
            Alone(s, 3) == if s.pc.Returned? || s.pc == Ended then s
                           else if s1.pc.Returned? || s1.pc == Ended then s1
                           else if s2.pc.Returned? || s2.pc == Ended then s2
                           else s3
  {
    hide ReceiverStep;
    var s1 := ReceiverStep(s);
    var s2 := ReceiverStep(s1);
    assert Alone(s1, 2) == if s1.pc.Returned? || s1.pc == Ended then s1 else Alone(s2, 1);
    assert Alone(s2, 1) == if s2.pc.Returned? || s2.pc == Ended then s2 else Alone(ReceiverStep(s2), 0);
  }

  lemma {:induction false} WaitsOn(s: Inbox, n: nat)
    requires s.pc == Waiting
    ensures Alone(s, n) == s
    decreases n
  {
    if n > 0 {
      WaitsOn(s, n - 1);
    }
  }

  /** Only a notification ends the wait: until one comes, the receiver waits whatever else is done. */
  lemma {:induction false} OnlyNotifyWakes(s: Inbox, acts: seq<Action>)
    requires s.pc == Waiting && Legal(s, acts)
    requires forall a :: a in acts ==> !a.NotifyOne? && !a.NotifyWaiters?
    ensures Run(s, acts).pc == Waiting
    decreases |acts|
  {
    hide Put;
    if acts != [] {
      assert acts[0] in acts;
      OnlyNotifyWakes(Step(s, acts[0]), acts[1..]);
    }
  }

  ghost predicate Reachable(s: Inbox) {
    exists acts :: Legal(EMPTY, acts) && Run(EMPTY, acts) == s
  }

  lemma {:induction false} OneMore(s: Inbox, acts: seq<Action>, a: Action)
    requires Legal(s, acts) && Enabled(Run(s, acts), a)
    ensures Legal(s, acts + [a]) && Run(s, acts + [a]) == Step(Run(s, acts), a)
    decreases |acts|
  {
    hide Step, Enabled;
    if acts == [] {
      var end := Step(s, a);
      assert Legal(end, []) && Run(end, []) == end;
      assert ([] + [a])[1..] == [];
    } else {
      OneMore(Step(s, acts[0]), acts[1..], a);
      assert (acts + [a])[1..] == acts[1..] + [a];
    }
  }

  lemma Reaches(s: Inbox, a: Action)
    requires Reachable(s) && Enabled(s, a)
    ensures Reachable(Step(s, a))
  {
    hide Legal, Run, Step, Enabled;
    var acts :| Legal(EMPTY, acts) && Run(EMPTY, acts) == s;
    OneMore(EMPTY, acts, a);
  }

  /** The lost close happens: some run leaves the receiver waiting on a closed inbox, and nobody to wake it. */
  lemma CloseCanBeLost() returns (s: Inbox)
    ensures Reachable(s)
    ensures s.closed && s.closing == 0 && s.owed == 0 && s.pc == Waiting && !s.permit
  {
    assert Legal(EMPTY, []) && Run(EMPTY, []) == EMPTY;
    s := EMPTY;
    hide Reachable;
    Reaches(s, Receive);
    s := Step(s, Receive);
    Reaches(s, Receive);
    s := Step(s, Receive);
    Reaches(s, CloseFlag);
    s := Step(s, CloseFlag);
    Reaches(s, NotifyWaiters);
    s := Step(s, NotifyWaiters);
    Reaches(s, Receive);
    s := Step(s, Receive);
  }

  /** The newest frame can be lost at the close: some run ends the receiver with the frame still in its slot. */
  lemma FrameCanBeLost(f: Frame) returns (s: Inbox)
    ensures Reachable(s)
    ensures s.pc == Ended && s.slots == [f] && s.history == [Published(f)]
  {
    assert Legal(EMPTY, []) && Run(EMPTY, []) == EMPTY;
    s := EMPTY;
    hide Reachable;
    Reaches(s, Receive);
    s := Step(s, Receive);
    Reaches(s, PublishSlot(f));
    s := Step(s, PublishSlot(f));
    Reaches(s, NotifyOne);
    s := Step(s, NotifyOne);
    Reaches(s, CloseFlag);
    s := Step(s, CloseFlag);
    Reaches(s, NotifyWaiters);
    s := Step(s, NotifyWaiters);
    Reaches(s, Receive);
    s := Step(s, Receive);
  }

  // ---------------------------------------------- deliveries per display

  ghost function Of(history: seq<Event>, d: u32, delivered: bool): seq<Frame> {
    if history == [] then []
    else
      var last := history[|history| - 1];
      Of(history[..|history| - 1], d, delivered)
      + if last.f.displayId == d && last.Delivered? == delivered then [last.f] else []
  }

  /** `a` is `b` with some elements left out. */
  ghost predicate Subsequence(a: seq<Frame>, b: seq<Frame>)
    decreases |b|
  {
    if a == [] then true
    else if b == [] then false
    else
      var a', b' := a[..|a| - 1], b[..|b| - 1];
      (a[|a| - 1] == b[|b| - 1] && Subsequence(a', b')) || Subsequence(a, b')
  }

  lemma OfLast(history: seq<Event>, d: u32, delivered: bool)
    requires history != []
    ensures var n := |history| - 1;
            Of(history, d, delivered) ==
            if history[n].f.displayId == d && history[n].Delivered? == delivered
            then Of(history[..n], d, delivered) + [history[n].f] else Of(history[..n], d, delivered)
  {
  }

  lemma SubsequenceGrows(a: seq<Frame>, b: seq<Frame>, f: Frame)
    requires Subsequence(a, b)
    ensures Subsequence(a, b + [f]) && Subsequence(a + [f], b + [f])
  {
    assert (a + [f])[..|a|] == a && (b + [f])[..|b|] == b;
  }

  lemma FaithfulBefore(history: seq<Event>)
    requires Faithful(history) && history != []
    ensures var n := |history| - 1;
            && Faithful(history[..n])
            && (history[n].Delivered? ==> Newest(history[..n], history[n].f.displayId) == Some(history[n].f))
  {
    var n := |history| - 1;
    forall k | 0 <= k < n && history[..n][k].Delivered?
      ensures Newest(history[..n][..k], history[..n][k].f.displayId) == Some(history[..n][k].f)
    {
      assert history[..n][..k] == history[..k];
    }
  }

  /** Per display, the frames delivered are the frames published with some left out, none twice and in order. */
  lemma {:induction false} DeliveredInOrder(history: seq<Event>, d: u32)
    requires Faithful(history)
    ensures var pub, del := Of(history, d, false), Of(history, d, true);
            && Subsequence(del, pub)
            && (Newest(history, d).Some? ==>
                  pub != [] && pub[|pub| - 1] == Newest(history, d).value && Subsequence(del, pub[..|pub| - 1]))
    decreases |history|
  {
    if history != [] {
      var n := |history| - 1;
      var before, last := history[..n], history[n];
      FaithfulBefore(history);
      hide Faithful;
      DeliveredInOrder(before, d);
      OfLast(history, d, false);
      OfLast(history, d, true);
      hide Of, Subsequence;
      if last.f.displayId == d {
        OneMoreEvent(Of(before, d, false), Of(before, d, true), last, Newest(before, d));
      }
    }
  }

  /** What one more event of a display does to its publishes and deliveries. */
  lemma OneMoreEvent(pub: seq<Frame>, del: seq<Frame>, last: Event, newest: Option<Frame>)
    requires Subsequence(del, pub)
    requires newest.Some? ==> pub != [] && pub[|pub| - 1] == newest.value && Subsequence(del, pub[..|pub| - 1])
    requires last.Delivered? ==> newest == Some(last.f)
    ensures last.Published? ==> (pub + [last.f])[..|pub|] == pub && Subsequence(del, pub + [last.f])
    ensures last.Delivered? ==> Subsequence(del + [last.f], pub)
  {
    hide Subsequence;
    if last.Published? {
      SubsequenceGrows(del, pub, last.f);
    } else {
      assert pub == pub[..|pub| - 1] + [last.f];
      SubsequenceGrows(del, pub[..|pub| - 1], last.f);
    }
  }

  // ------------------------------------------------------------- the class

  /** The part behind the lock. The client's `FrameSlot` is the same list without the wake-ups. */
  class SlotList {
    var slots: seq<Frame>

    constructor ()
      ensures slots == []
    {
      slots := [];
    }

    /** The locked part of `publish`. */
    method Publish(f: Frame)
      modifies this
      ensures slots == Put(old(slots), f)
    {
      var i := 0;
      while i < |slots| && slots[i].displayId != f.displayId
        invariant 0 <= i <= |slots| && slots == old(slots)
        invariant Put(slots, f) == slots[..i] + Put(slots[i..], f)
      {
        assert slots[i..][1..] == slots[i + 1..];
        assert slots[..i] + ([slots[i]] + Put(slots[i + 1..], f)) == slots[..i + 1] + Put(slots[i + 1..], f);
        i := i + 1;
      }
      if i < |slots| {
        assert slots[i..][1..] == slots[i + 1..];
        assert slots[..i] + ([f] + slots[i + 1..]) == slots[i := f];
        slots := slots[i := f];
      } else {
        assert slots[..i] == slots;
        slots := slots + [f];
      }
    }

    /** The locked part of `recv`. */
    method Pop() returns (f: Option<Frame>)
      modifies this
      ensures old(slots) == [] ==> f == None && slots == []
      ensures old(slots) != [] ==> f == Some(old(slots)[|old(slots)| - 1]) && slots == old(slots)[..|old(slots)| - 1]
    {
      if slots == [] {
        return None;
      }
      f := Some(slots[|slots| - 1]);
      slots := slots[..|slots| - 1];
    }
  }
}
