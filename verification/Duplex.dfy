/**
  A whole session: the dispatchers of host and client, each with one outgoing
  and one incoming transfer, and one queue each way that both transfers and
  every other message share. It is two independent links of module
  TransferLink, one for the transfers each side starts.
  */
module Duplex {
  import opened Bytes
  import opened Utf8
  import opened Wire
  import opened FileSending
  import opened FileReceiving
  import opened Dispatching
  import TL = TransferLink

  datatype Session = Session(
    host: Transfers, client: Transfers, hostDir: Dir, clientDir: Dir,
    toClient: seq<Message>, toHost: seq<Message>)

  datatype Action =
    | HostSends(n: u32, fileName: Option<Text>, src: file)
    | ClientSends(n: u32, fileName: Option<Text>, src: file)
    | HostSays(m: Message)
    | ClientSays(m: Message)
    | AtClient
    | AtHost

  predicate Usable(st: Session) {
    && (st.host.outgoing.Some? ==> st.host.outgoing.value.nextOffset <= |st.host.outgoing.value.src|)
    && (st.client.outgoing.Some? ==> st.client.outgoing.value.nextOffset <= |st.client.outgoing.value.src|)
  }

  /**
    A side starts a file when it has none going out, says anything that is
    not about files at any time, and reads when something has arrived.
    */
  predicate Enabled(st: Session, a: Action) {
    match a
    case HostSends(_, _, _) => st.host.outgoing.None?
    case ClientSends(_, _, _) => st.client.outgoing.None?
    case HostSays(m) => FileId(m).None?
    case ClientSays(m) => FileId(m).None?
    case AtClient => st.toClient != []
    case AtHost => st.toHost != []
  }

  function Step(sha: Hasher, st: Session, a: Action): Session
    requires Usable(st) && Enabled(st, a)
  {
    match a
    case HostSends(n, fileName, src) =>
      var (s, out) := Poll(sha, Open(TransferId(true, n), fileName, src));
      st.(host := st.host.(outgoing := Some(s)), toClient := st.toClient + out)
    case ClientSends(n, fileName, src) =>
      var (s, out) := Poll(sha, Open(TransferId(false, n), fileName, src));
      st.(client := st.client.(outgoing := Some(s)), toHost := st.toHost + out)
    case HostSays(m) => st.(toClient := st.toClient + [m])
    case ClientSays(m) => st.(toHost := st.toHost + [m])
    case AtClient =>
      var (t, dir, r) := Dispatch(sha, st.client, st.clientDir, st.toClient[0]);
      st.(client := t, clientDir := dir, toClient := st.toClient[1..], toHost := st.toHost + Replies(r))
    case AtHost =>
      var (t, dir, r) := Dispatch(sha, st.host, st.hostDir, st.toHost[0]);
      st.(host := t, hostDir := dir, toHost := st.toHost[1..], toClient := st.toClient + Replies(r))
  }

  // ------------------------------------------------------------ projection

  /** Whether a message is about a transfer the given side started. */
  predicate About(m: Message, host: bool) {
    FileId(m).Some? && IsHostId(FileId(m).value) == host
  }

  function Only(q: seq<Message>, host: bool): seq<Message> {
    if q == [] then []
    else (if About(q[0], host) then [q[0]] else []) + Only(q[1..], host)
  }

  /** What a session is for the files of the host alone, and for those of the client alone. */
  function HostLink(st: Session): TL.Link {
    TL.Link(st.host.outgoing, st.client.incoming, Only(st.toClient, true), Only(st.toHost, true), st.clientDir)
  }

  function ClientLink(st: Session): TL.Link {
    TL.Link(st.client.outgoing, st.host.incoming, Only(st.toHost, false), Only(st.toClient, false), st.hostDir)
  }

  /** The step of the host's link that a step of the session is, if it is one. */
  function HostAction(st: Session, a: Action): Option<TL.Action>
    requires Enabled(st, a)
  {
    match a
    case HostSends(n, fileName, src) => Some(TL.Start(TransferId(true, n), fileName, src))
    case AtClient => if About(st.toClient[0], true) then Some(TL.ToReceiver) else None
    case AtHost => if About(st.toHost[0], true) then Some(TL.ToSender) else None
    case _ => None
  }

  function ClientAction(st: Session, a: Action): Option<TL.Action>
    requires Enabled(st, a)
  {
    match a
    case ClientSends(n, fileName, src) => Some(TL.Start(TransferId(false, n), fileName, src))
    case AtHost => if About(st.toHost[0], false) then Some(TL.ToReceiver) else None
    case AtClient => if About(st.toClient[0], false) then Some(TL.ToSender) else None
    case _ => None
  }

  /** A link that makes the step, or stays as it is. */
  ghost predicate Moves(sha: Hasher, l: TL.Link, a: Option<TL.Action>, l': TL.Link)
    requires TL.Usable(l)
  {
    if a.None? then l' == l else TL.Enabled(l, a.value) && l' == TL.Step(sha, l, a.value)
  }

  ghost predicate SessionInv(sha: Hasher, st: Session) {
    && Usable(st)
    && TL.LinkInv(sha, HostLink(st)) && TL.LinkInv(sha, ClientLink(st))
    && (st.host.outgoing.Some? ==> IsHostId(st.host.outgoing.value.id))
    && (st.client.outgoing.Some? ==> !IsHostId(st.client.outgoing.value.id))
  }

  lemma {:induction false} OnlyAppend(q: seq<Message>, r: seq<Message>, host: bool)
    ensures Only(q + r, host) == Only(q, host) + Only(r, host)
    decreases |q|
  {
    hide About;
    if q == [] {
      assert q + r == r;
    } else {
      OnlyAppend(q[1..], r, host);
      assert (q + r)[1..] == q[1..] + r;
    }
  }

  lemma {:induction false} OnlyOwn(q: seq<Message>, id: u32, host: bool)
    requires AllWithId(q, id)
    ensures Only(q, host) == if IsHostId(id) == host then q else []
    decreases |q|
  {
    if q != [] {
      assert q[0] in q;
      OnlyOwn(q[1..], id, host);
      assert q == [q[0]] + q[1..];
    }
  }

  /** Queueing messages of one transfer adds them to one link's queue and leaves the other's. */
  lemma Queued(q: seq<Message>, ms: seq<Message>, id: u32)
    requires AllWithId(ms, id)
    ensures Only(q + ms, IsHostId(id)) == Only(q, IsHostId(id)) + ms
    ensures Only(q + ms, !IsHostId(id)) == Only(q, !IsHostId(id))
  {
    OnlyAppend(q, ms, true);
    OnlyAppend(q, ms, false);
    OnlyOwn(ms, id, true);
    OnlyOwn(ms, id, false);
  }

  lemma Dequeued(q: seq<Message>, host: bool)
    requires q != []
    ensures About(q[0], host) ==> Only(q, host) != [] && Only(q, host)[0] == q[0] && Only(q, host)[1..] == Only(q[1..], host)
    ensures !About(q[0], host) ==> Only(q, host) == Only(q[1..], host)
  {
  }

  // ------------------------------------------- one dispatcher, one message

  /** A message about the other side's files goes to the incoming transfer only. */
  lemma DispatchOther(sha: Hasher, t: Transfers, dir: Dir, m: Message)
    requires t.outgoing.Some? ==> t.outgoing.value.nextOffset <= |t.outgoing.value.src|
    requires FileId(m).Some?
    requires t.outgoing.Some? ==> t.outgoing.value.id != FileId(m).value
    ensures var (t', dir', r) := Dispatch(sha, t, dir, m);
            && t'.outgoing == t.outgoing && (t'.incoming, dir', r) == Incoming(sha, t.incoming, dir, m)
            && AllWithId(Replies(r), FileId(m).value)
  {
    hide Dispatch, Incoming, Outgoing;
    Routed(sha, t, dir, m);
    IncomingReplies(sha, t.incoming, dir, m);
  }

  /** A message about this side's files goes to the outgoing transfer only. */
  lemma DispatchOwn(sha: Hasher, t: Transfers, dir: Dir, m: Message)
    requires t.outgoing.Some? && t.outgoing.value.nextOffset <= |t.outgoing.value.src|
    requires FileId(m) == Some(t.outgoing.value.id) && Answer(m)
    ensures var (t', dir', r) := Dispatch(sha, t, dir, m);
            && t'.incoming == t.incoming && dir' == dir
            && Outgoing(sha, t.outgoing, m) == Some((t'.outgoing, r))
            && AllWithId(Replies(r), FileId(m).value)
            && (t'.outgoing.Some? ==> t'.outgoing.value.id == t.outgoing.value.id)
  {
    hide Dispatch, Outgoing;
    Routed(sha, t, dir, m);
    OutgoingReplies(sha, t.outgoing, m);
  }

  /** Everything on its way back to a sender is an answer to its transfer. */
  lemma AnswersOnly(sha: Hasher, l: TL.Link)
    requires TL.LinkInv(sha, l)
    ensures forall m :: m in l.bwd ==> l.tx.Some? && Answer(m) && FileId(m) == Some(l.tx.value.id)
  {
    if l.tx.Some? && TL.Streaming(l, l.tx.value) {
      var s := l.tx.value;
      AcksAnswer(s.id, s.src, s.acked, l.rx.value.received);
    }
    hide TL.Acks, TL.Holds, TL.Honest, Chunks, TL.Aligned;
  }

  lemma {:induction false} AcksAnswer(id: u32, src: file, lo: nat, hi: nat)
    requires lo <= hi <= |src|
    ensures forall m :: m in TL.Acks(id, src, lo, hi) ==> Answer(m) && FileId(m) == Some(id)
    decreases hi - lo
  {
    if lo < hi {
      AcksAnswer(id, src, lo + Min(FILE_CHUNK_SIZE, hi - lo), hi);
    }
  }

  lemma IncomingNotDone(sha: Hasher, l: TL.Link)
    requires TL.LinkInv(sha, l)
    ensures l.rx.Some? ==> !l.rx.value.done
  {
    hide TL.Acks, TL.Honest, Chunks, TL.Aligned;
  }

  // --------------------------------------------------------- refinement

  /** The outgoing slot is as it was or free. */
  ghost predicate SameSender(t: Transfers, t': Transfers) {
    t'.outgoing.Some? ==> t.outgoing.Some? && t'.outgoing.value.id == t.outgoing.value.id
  }

  lemma AtClientMoves(sha: Hasher, st: Session)
    requires SessionInv(sha, st) && st.toClient != []
    ensures var st' := Step(sha, st, AtClient);
            && Moves(sha, HostLink(st), HostAction(st, AtClient), HostLink(st'))
            && Moves(sha, ClientLink(st), ClientAction(st, AtClient), ClientLink(st'))
            && st'.host == st.host
            && SameSender(st.client, st'.client)
  {
    hide TL.LinkInv, Only, Dispatch, Incoming, Outgoing, AllWithId;
    var m := st.toClient[0];
    Dequeued(st.toClient, true);
    Dequeued(st.toClient, false);
    var (t, dir, r) := Dispatch(sha, st.client, st.clientDir, m);
    if FileId(m).None? {
      IncomingNotDone(sha, HostLink(st));
      OtherMessagesIgnored(sha, st.client, st.clientDir, m);
      assert st.toHost + [] == st.toHost;
    } else if About(m, true) {
      DispatchOther(sha, st.client, st.clientDir, m);
      Queued(st.toHost, Replies(r), FileId(m).value);
    } else {
      AnswersOnly(sha, ClientLink(st));
      DispatchOwn(sha, st.client, st.clientDir, m);
      Queued(st.toHost, Replies(r), FileId(m).value);
    }
  }

  lemma AtHostMoves(sha: Hasher, st: Session)
    requires SessionInv(sha, st) && st.toHost != []
    ensures var st' := Step(sha, st, AtHost);
            && Moves(sha, HostLink(st), HostAction(st, AtHost), HostLink(st'))
            && Moves(sha, ClientLink(st), ClientAction(st, AtHost), ClientLink(st'))
            && st'.client == st.client
            && SameSender(st.host, st'.host)
  {
    hide TL.LinkInv, Only, Dispatch, Incoming, Outgoing, AllWithId;
    var m := st.toHost[0];
    Dequeued(st.toHost, true);
    Dequeued(st.toHost, false);
    var (t, dir, r) := Dispatch(sha, st.host, st.hostDir, m);
    if FileId(m).None? {
      IncomingNotDone(sha, ClientLink(st));
      OtherMessagesIgnored(sha, st.host, st.hostDir, m);
      assert st.toClient + [] == st.toClient;
    } else if About(m, false) {
      DispatchOther(sha, st.host, st.hostDir, m);
      Queued(st.toClient, Replies(r), FileId(m).value);
    } else {
      AnswersOnly(sha, HostLink(st));
      DispatchOwn(sha, st.host, st.hostDir, m);
      Queued(st.toClient, Replies(r), FileId(m).value);
    }
  }

  lemma StartMoves(sha: Hasher, st: Session, a: Action)
    requires SessionInv(sha, st) && Enabled(st, a) && (a.HostSends? || a.ClientSends?)
    ensures var st' := Step(sha, st, a);
            && Moves(sha, HostLink(st), HostAction(st, a), HostLink(st'))
            && Moves(sha, ClientLink(st), ClientAction(st, a), ClientLink(st'))
  {
    hide TL.LinkInv, Only, Poll, AllWithId, Open;
    var id := TransferId(a.HostSends?, a.n);
    var s := Open(id, a.fileName, a.src);
    OpenIdle(id, a.fileName, a.src);
    PollWithId(sha, s);
    Queued(if a.HostSends? then st.toClient else st.toHost, Poll(sha, s).1, id);
  }

  lemma OpenIdle(id: u32, fileName: Option<Text>, src: file)
    ensures var s := Open(id, fileName, src); s.nextOffset == 0 && s.id == id
  {
  }

  lemma ChatterMoves(sha: Hasher, st: Session, a: Action)
    requires SessionInv(sha, st) && Enabled(st, a) && (a.HostSays? || a.ClientSays?)
    ensures var st' := Step(sha, st, a);
            HostLink(st') == HostLink(st) && ClientLink(st') == ClientLink(st)
  {
    hide Only, TL.LinkInv, Dispatch, Poll;
    var q := if a.HostSays? then st.toClient else st.toHost;
    NotAFile(q, a.m, true);
    NotAFile(q, a.m, false);
  }

  lemma NotAFile(q: seq<Message>, m: Message, host: bool)
    requires FileId(m).None?
    ensures Only(q + [m], host) == Only(q, host)
  {
    OnlyAppend(q, [m], host);
    assert [m][1..] == [];
    assert Only([m], host) == [];
    hide Only;
    assert Only(q, host) + [] == Only(q, host);
  }

  /**
    Every step of a session is one step of one of the two links and leaves the
    other as it is, or leaves both. Neither direction can disturb the other.
    */
  lemma StepRefines(sha: Hasher, st: Session, a: Action)
    requires SessionInv(sha, st) && Enabled(st, a)
    ensures SessionInv(sha, Step(sha, st, a))
    ensures Moves(sha, HostLink(st), HostAction(st, a), HostLink(Step(sha, st, a)))
    ensures Moves(sha, ClientLink(st), ClientAction(st, a), ClientLink(Step(sha, st, a)))
    ensures HostAction(st, a).None? || ClientAction(st, a).None?
  {
    StepIds(sha, st, a);
    var h, c := HostAction(st, a), ClientAction(st, a);
    hide Step, TL.LinkInv, TL.Step, HostAction, ClientAction;
    if h.Some? {
      TL.StepConserves(sha, HostLink(st), h.value);
    }
    if c.Some? {
      TL.StepConserves(sha, ClientLink(st), c.value);
    }
  }

  lemma StepIds(sha: Hasher, st: Session, a: Action)
    requires SessionInv(sha, st) && Enabled(st, a)
    ensures var st' := Step(sha, st, a);
            && (st'.host.outgoing.Some? ==> IsHostId(st'.host.outgoing.value.id))
            && (st'.client.outgoing.Some? ==> !IsHostId(st'.client.outgoing.value.id))
            && Moves(sha, HostLink(st), HostAction(st, a), HostLink(st'))
            && Moves(sha, ClientLink(st), ClientAction(st, a), ClientLink(st'))
            && (HostAction(st, a).None? || ClientAction(st, a).None?)
  {
    hide TL.LinkInv, TL.Step, Dispatch, Poll, Only, Moves;
    match a
    case HostSends(_, _, _) => StartMoves(sha, st, a);
    case ClientSends(_, _, _) => StartMoves(sha, st, a);
    case HostSays(_) => ChatterMoves(sha, st, a); StaysPut(sha, st, a);
    case ClientSays(_) => ChatterMoves(sha, st, a); StaysPut(sha, st, a);
    case AtClient => AtClientMoves(sha, st);
    case AtHost => AtHostMoves(sha, st);
  }

  lemma StaysPut(sha: Hasher, st: Session, a: Action)
    requires SessionInv(sha, st)
    ensures Moves(sha, HostLink(st), None, HostLink(st)) && Moves(sha, ClientLink(st), None, ClientLink(st))
  {
  }

  // -------------------------------------------------------- whole sessions

  ghost predicate Legal(sha: Hasher, st: Session, acts: seq<Action>)
    decreases |acts|
  {
    acts == [] || (Usable(st) && Enabled(st, acts[0]) && Legal(sha, Step(sha, st, acts[0]), acts[1..]))
  }

  ghost function Run(sha: Hasher, st: Session, acts: seq<Action>): Session
    requires Legal(sha, st, acts)
    decreases |acts|
  {
    if acts == [] then st else Run(sha, Step(sha, st, acts[0]), acts[1..])
  }

  function Listed(a: Option<TL.Action>): seq<TL.Action> {
    if a.Some? then [a.value] else []
  }

  /** The link for the files one side starts, and the step of it that a step of the session is. */
  function PartLink(st: Session, host: bool): TL.Link {
    if host then HostLink(st) else ClientLink(st)
  }

  function PartAction(st: Session, a: Action, host: bool): Option<TL.Action>
    requires Enabled(st, a)
  {
    if host then HostAction(st, a) else ClientAction(st, a)
  }

  /** The run of one side's link inside a run of the session. */
  ghost function PartRun(sha: Hasher, st: Session, acts: seq<Action>, host: bool): seq<TL.Action>
    requires Legal(sha, st, acts)
    decreases |acts|
  {
    if acts == [] then []
    else Listed(PartAction(st, acts[0], host)) + PartRun(sha, Step(sha, st, acts[0]), acts[1..], host)
  }

  lemma Prepended(sha: Hasher, l: TL.Link, a: Option<TL.Action>, l': TL.Link, acts: seq<TL.Action>)
    requires TL.Usable(l) && Moves(sha, l, a, l') && TL.Legal(sha, l', acts)
    ensures TL.Legal(sha, l, Listed(a) + acts) && TL.Run(sha, l, Listed(a) + acts) == TL.Run(sha, l', acts)
  {
    hide TL.Step;
    var all := Listed(a) + acts;
    if a.None? {
      assert all == acts;
    } else {
      assert all[0] == a.value && all[1..] == acts;
    }
  }

  /** However the two directions interleave, each is a run of its own link. */
  lemma {:induction false} SessionRefines(sha: Hasher, st: Session, acts: seq<Action>, host: bool)
    requires SessionInv(sha, st) && Legal(sha, st, acts)
    ensures var st' := Run(sha, st, acts);
            && SessionInv(sha, st')
            && TL.Legal(sha, PartLink(st, host), PartRun(sha, st, acts, host))
            && TL.Run(sha, PartLink(st, host), PartRun(sha, st, acts, host)) == PartLink(st', host)
    decreases |acts|
  {
    hide Step, TL.LinkInv, TL.Step, HostAction, ClientAction, Enabled, Listed, Moves, Only, HostLink, ClientLink;
    if acts != [] {
      var a, st1 := acts[0], Step(sha, st, acts[0]);
      LinksUsable(st);
      StepRefines(sha, st, a);
      SessionRefines(sha, st1, acts[1..], host);
      Prepended(sha, PartLink(st, host), PartAction(st, a, host), PartLink(st1, host), PartRun(sha, st1, acts[1..], host));
    }
  }

  lemma LinksUsable(st: Session)
    requires Usable(st)
    ensures TL.Usable(HostLink(st)) && TL.Usable(ClientLink(st))
  {
  }

  /** Whether an action starts a file on the given side. */
  predicate Sends(a: Action, host: bool) {
    if host then a.HostSends? else a.ClientSends?
  }

  /** The files one side sends in a run, saved in turn. */
  function Files(dir: Dir, acts: seq<Action>, host: bool): Dir
    decreases |acts|
  {
    if acts == [] then dir
    else
      var a := acts[0];
      Files(if Sends(a, host) then TL.SaveStarted(dir, TL.Start(TransferId(host, a.n), a.fileName, a.src)) else dir,
            acts[1..], host)
  }

  lemma SaveNext(dir: Dir, a: Option<TL.Action>, acts: seq<TL.Action>)
    ensures TL.SaveAll(dir, Listed(a) + acts) == TL.SaveAll(if a.Some? then TL.SaveStarted(dir, a.value) else dir, acts)
  {
    hide TL.SaveStarted;
    var all := Listed(a) + acts;
    if a.None? {
      assert all == acts;
    } else {
      assert all[0] == a.value && all[1..] == acts;
    }
  }

  lemma {:induction false} FilesSaved(sha: Hasher, st: Session, dir: Dir, acts: seq<Action>, host: bool)
    requires Legal(sha, st, acts)
    ensures TL.SaveAll(dir, PartRun(sha, st, acts, host)) == Files(dir, acts, host)
    decreases |acts|
  {
    hide Step, Enabled, Only, TL.SaveAll, Listed, TransferId, Open;
    if acts == [] {
      NothingSaved(dir);
    } else {
      var p, st1 := PartAction(st, acts[0], host), Step(sha, st, acts[0]);
      SaveNext(dir, p, PartRun(sha, st1, acts[1..], host));
      FilesSaved(sha, st1, if p.Some? then TL.SaveStarted(dir, p.value) else dir, acts[1..], host);
    }
  }

  lemma NothingSaved(dir: Dir)
    ensures TL.SaveAll(dir, []) == dir
  {
  }

  /** Before anything is sent. */
  function Fresh(hostDir: Dir, clientDir: Dir): Session {
    Session(Transfers(None, None), Transfers(None, None), hostDir, clientDir, [], [])
  }

  /** No message about a file is on its way. */
  ghost predicate Quiet(st: Session) {
    forall m :: m in st.toClient || m in st.toHost ==> FileId(m).None?
  }

  lemma {:induction false} QuietQueue(q: seq<Message>, host: bool)
    requires forall m :: m in q ==> FileId(m).None?
    ensures Only(q, host) == []
    decreases |q|
  {
    if q != [] {
      assert q[0] in q;
      QuietQueue(q[1..], host);
    }
  }

  /**
    In any session of any number of files in both directions, mixed in any
    order with each other and with other messages: once no message about a
    file is on its way, every slot is free and each side holds exactly what it
    had plus every file the other sent.
    */
  lemma SessionDelivers(sha: Hasher, hostDir: Dir, clientDir: Dir, acts: seq<Action>)
    requires Legal(sha, Fresh(hostDir, clientDir), acts)
    ensures var st := Run(sha, Fresh(hostDir, clientDir), acts);
            Quiet(st) ==>
              && st.host == Transfers(None, None) && st.client == Transfers(None, None)
              && st.clientDir == Files(clientDir, acts, true)
              && st.hostDir == Files(hostDir, acts, false)
  {
    var st0 := Fresh(hostDir, clientDir);
    FreshInv(sha, hostDir, clientDir);
    SessionRefines(sha, st0, acts, true);
    SessionRefines(sha, st0, acts, false);
    FilesSaved(sha, st0, clientDir, acts, true);
    FilesSaved(sha, st0, hostDir, acts, false);
    var st := Run(sha, st0, acts);
    hide Run, Legal, PartRun, TL.Run, TL.Legal, TL.Deliveries, TL.TotalCost, SessionInv;
    TL.ExactlyDelivered(sha, clientDir, PartRun(sha, st0, acts, true));
    TL.ExactlyDelivered(sha, hostDir, PartRun(sha, st0, acts, false));
    if Quiet(st) {
      QuietLinks(st);
    }
  }

  /** A session is quiet if and only if nothing is in flight on either link. */
  lemma QuietLinks(st: Session)
    ensures Quiet(st) <==>
            HostLink(st).fwd == [] && HostLink(st).bwd == [] && ClientLink(st).fwd == [] && ClientLink(st).bwd == []
  {
    hide Only;
    if Quiet(st) {
      QuietQueue(st.toClient, true);
      QuietQueue(st.toClient, false);
      QuietQueue(st.toHost, true);
      QuietQueue(st.toHost, false);
    } else {
      var m :| (m in st.toClient || m in st.toHost) && FileId(m).Some?;
      Found(st.toClient, m);
      Found(st.toHost, m);
    }
  }

  // ---------------------------------------------------- cost and termination

  /** Whether a step reads a message about a file. */
  predicate FileRead(st: Session, a: Action)
    requires Enabled(st, a)
  {
    (a.AtClient? && FileId(st.toClient[0]).Some?) || (a.AtHost? && FileId(st.toHost[0]).Some?)
  }

  ghost function FileReads(sha: Hasher, st: Session, acts: seq<Action>): nat
    requires Legal(sha, st, acts)
    decreases |acts|
  {
    if acts == [] then 0
    else (if FileRead(st, acts[0]) then 1 else 0) + FileReads(sha, Step(sha, st, acts[0]), acts[1..])
  }

  /** What all files sent either way cost together. */
  function TotalCost(acts: seq<Action>): nat {
    if acts == [] then 0
    else (if acts[0].HostSends? || acts[0].ClientSends? then TL.Cost(|acts[0].src|) else 0) + TotalCost(acts[1..])
  }

  lemma NextCounted(a: Option<TL.Action>, acts: seq<TL.Action>)
    ensures TL.Deliveries(Listed(a) + acts) == (if a.Some? && !a.value.Start? then 1 else 0) + TL.Deliveries(acts)
    ensures TL.TotalCost(Listed(a) + acts)
         == (if a.Some? && a.value.Start? then TL.Cost(|a.value.src|) else 0) + TL.TotalCost(acts)
  {
    hide TL.Cost;
    var all := Listed(a) + acts;
    if a.None? {
      assert all == acts;
    } else {
      assert all[0] == a.value && all[1..] == acts;
    }
  }

  lemma {:induction false} PartsAddUp(sha: Hasher, st: Session, acts: seq<Action>)
    requires Legal(sha, st, acts)
    ensures TL.Deliveries(PartRun(sha, st, acts, true)) + TL.Deliveries(PartRun(sha, st, acts, false))
         == FileReads(sha, st, acts)
    ensures TL.TotalCost(PartRun(sha, st, acts, true)) + TL.TotalCost(PartRun(sha, st, acts, false))
         == TotalCost(acts)
    decreases |acts|
  {
    hide Step, TL.Cost, Listed, TL.Deliveries, TL.TotalCost, TransferId;
    if acts == [] {
      NothingCounted();
    } else {
      var a, st1 := acts[0], Step(sha, st, acts[0]);
      NextCounted(PartAction(st, a, true), PartRun(sha, st1, acts[1..], true));
      NextCounted(PartAction(st, a, false), PartRun(sha, st1, acts[1..], false));
      PartsAddUp(sha, st1, acts[1..]);
    }
  }

  lemma NothingCounted()
    ensures TL.Deliveries([]) == 0 && TL.TotalCost([]) == 0
  {
  }

  /**
    However the session goes, the two ends never read more messages about
    files than 2 * ceil(size / 16384) + 4 for each file sent, and they have
    read exactly that many if and only if no more is on its way.
    */
  lemma SessionCost(sha: Hasher, hostDir: Dir, clientDir: Dir, acts: seq<Action>)
    requires Legal(sha, Fresh(hostDir, clientDir), acts)
    ensures FileReads(sha, Fresh(hostDir, clientDir), acts) <= TotalCost(acts)
    ensures Quiet(Run(sha, Fresh(hostDir, clientDir), acts))
       <==> FileReads(sha, Fresh(hostDir, clientDir), acts) == TotalCost(acts)
  {
    var st0 := Fresh(hostDir, clientDir);
    FreshInv(sha, hostDir, clientDir);
    SessionRefines(sha, st0, acts, true);
    SessionRefines(sha, st0, acts, false);
    PartsAddUp(sha, st0, acts);
    var st := Run(sha, st0, acts);
    hide Run, Legal, PartRun, TL.Run, TL.Legal, TL.Deliveries, TL.TotalCost, TotalCost, FileReads, SessionInv, Quiet;
    TL.ExactlyDelivered(sha, clientDir, PartRun(sha, st0, acts, true));
    TL.ExactlyDelivered(sha, hostDir, PartRun(sha, st0, acts, false));
    QuietLinks(st);
  }

  lemma FreshInv(sha: Hasher, hostDir: Dir, clientDir: Dir)
    ensures SessionInv(sha, Fresh(hostDir, clientDir))
    ensures HostLink(Fresh(hostDir, clientDir)) == TL.Idle(clientDir)
    ensures ClientLink(Fresh(hostDir, clientDir)) == TL.Idle(hostDir)
  {
  }

  /** What the dispatcher of the side that reads reports. */
  function Reported(sha: Hasher, st: Session, a: Action): Outcome<seq<Message>>
    requires Usable(st) && Enabled(st, a)
  {
    match a
    case AtClient => Dispatch(sha, st.client, st.clientDir, st.toClient[0]).2
    case AtHost => Dispatch(sha, st.host, st.hostDir, st.toHost[0]).2
    case _ => Good([])
  }

  /** No dispatcher reports an error at any step of a run. */
  ghost predicate NoErrors(sha: Hasher, st: Session, acts: seq<Action>)
    requires Legal(sha, st, acts)
    decreases |acts|
  {
    acts == [] || (Reported(sha, st, acts[0]).Good? && NoErrors(sha, Step(sha, st, acts[0]), acts[1..]))
  }

  /** A dispatcher reports what the link of its message brings next. */
  lemma DispatchGood(sha: Hasher, t: Transfers, dir: Dir, m: Message, own: TL.Link, other: TL.Link, host: bool)
    requires TL.Usable(own) && TL.NoErrorNext(sha, own) && TL.Usable(other) && TL.NoErrorNext(sha, other)
    requires own.tx == t.outgoing && other.rx == t.incoming && other.dir == dir
    requires t.outgoing.Some? ==> IsHostId(t.outgoing.value.id) == host
    requires t.incoming.Some? ==> !t.incoming.value.done
    requires About(m, host) ==> own.bwd != [] && own.bwd[0] == m && Answer(m) && own.tx.Some?
    requires About(m, host) ==> FileId(m) == Some(own.tx.value.id)
    requires About(m, !host) ==> other.fwd != [] && other.fwd[0] == m
    ensures Dispatch(sha, t, dir, m).2.Good?
  {
    hide Dispatch, Incoming, Outgoing, AllWithId;
    if FileId(m).None? {
      OtherMessagesIgnored(sha, t, dir, m);
    } else if About(m, host) {
      DispatchOwn(sha, t, dir, m);
    } else {
      DispatchOther(sha, t, dir, m);
    }
  }

  /** What is known of a link before a delivery. */
  lemma LinkReady(sha: Hasher, l: TL.Link)
    requires TL.LinkInv(sha, l)
    ensures TL.Usable(l) && TL.NoErrorNext(sha, l)
    ensures l.rx.Some? ==> !l.rx.value.done
    ensures l.bwd != [] ==> l.tx.Some? && Answer(l.bwd[0]) && FileId(l.bwd[0]) == Some(l.tx.value.id)
  {
    TL.NeverFails(sha, l);
    AnswersOnly(sha, l);
    hide TL.LinkInv, TL.NoErrorNext, Answer;
  }

  lemma ReportsGood(sha: Hasher, st: Session, a: Action)
    requires SessionInv(sha, st) && Enabled(st, a)
    ensures Reported(sha, st, a).Good?
  {
    var h, c := HostLink(st), ClientLink(st);
    LinkReady(sha, h);
    LinkReady(sha, c);
    hide TL.LinkInv, TL.NoErrorNext, Dispatch, Only, Answer;
    if a.AtClient? {
      Dequeued(st.toClient, true);
      Dequeued(st.toClient, false);
      DispatchGood(sha, st.client, st.clientDir, st.toClient[0], c, h, false);
    } else if a.AtHost? {
      Dequeued(st.toHost, true);
      Dequeued(st.toHost, false);
      DispatchGood(sha, st.host, st.hostDir, st.toHost[0], h, c, true);
    }
  }

  lemma {:induction false} RunReportsGood(sha: Hasher, st: Session, acts: seq<Action>)
    requires SessionInv(sha, st) && Legal(sha, st, acts)
    ensures NoErrors(sha, st, acts)
    decreases |acts|
  {
    hide SessionInv, Step, Enabled, Reported, Moves;
    if acts != [] {
      ReportsGood(sha, st, acts[0]);
      StepRefines(sha, st, acts[0]);
      RunReportsGood(sha, Step(sha, st, acts[0]), acts[1..]);
    }
  }

  /**
    In no session does a dispatcher of either side ever report an error, be it
    a failed transfer or a wrong hash, refuse an offer or send a cancel.
    */
  lemma NeverRefused(sha: Hasher, hostDir: Dir, clientDir: Dir, acts: seq<Action>)
    requires Legal(sha, Fresh(hostDir, clientDir), acts)
    ensures NoErrors(sha, Fresh(hostDir, clientDir), acts)
    ensures var st := Run(sha, Fresh(hostDir, clientDir), acts);
            forall m :: m in st.toClient || m in st.toHost ==> !m.FileCancel?
  {
    FreshInv(sha, hostDir, clientDir);
    RunReportsGood(sha, Fresh(hostDir, clientDir), acts);
    SessionRefines(sha, Fresh(hostDir, clientDir), acts, true);
    hide Run, Legal, NoErrors, SessionInv;
    NoCancelQueued(sha, Run(sha, Fresh(hostDir, clientDir), acts));
  }

  lemma NoCancelQueued(sha: Hasher, st: Session)
    requires SessionInv(sha, st)
    ensures forall m :: m in st.toClient || m in st.toHost ==> !m.FileCancel?
  {
    hide TL.LinkInv, TL.NoErrorNext, Only;
    TL.NeverFails(sha, HostLink(st));
    TL.NeverFails(sha, ClientLink(st));
    forall m | m in st.toClient || m in st.toHost ensures !m.FileCancel? {
      if m.FileCancel? {
        Found(st.toClient, m);
        Found(st.toHost, m);
      }
    }
  }

  lemma {:induction false} Found(q: seq<Message>, m: Message)
    requires FileId(m).Some?
    ensures m in q <==> m in Only(q, true) || m in Only(q, false)
    decreases |q|
  {
    if q != [] {
      Found(q[1..], m);
    }
  }
}
