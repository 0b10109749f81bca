/**
  What the dispatchers queue is what the wire can carry: every message of a
  transfer fits a frame, so the far end reads exactly the messages sent.
  */
module Carriage {
  import opened Bytes
  import opened Utf8
  import opened Wire
  import opened Framing
  import opened FileNames
  import opened FileSending
  import opened FileReceiving
  import opened Dispatching
  import TL = TransferLink
  import Duplex

  /** The wire brings it back as it was. */
  predicate Carried(m: Message) {
    WellFormed(m) && Fits(m)
  }

  ghost predicate AllCarried(q: seq<Message>) {
    forall m :: m in q ==> Carried(m)
  }

  lemma OfferCarried(id: u32, name: Text, size: u64)
    requires ShortText(name)
    ensures Carried(FileOffer(id, name, size))
  {
    hide ToLE;
  }

  lemma ChunkCarried(id: u32, offset: u64, data: bytes)
    requires |data| <= FILE_CHUNK_SIZE
    ensures Carried(FileChunk(id, offset, data))
  {
    hide ToLE;
  }

  lemma SmallCarried(m: Message)
    requires m.FileAccept? || m.FileAck? || m.FileComplete?
    ensures Carried(m)
  {
    hide ToLE;
  }

  lemma {:induction false} ChunksCarried(id: u32, src: file, lo: nat, hi: nat)
    requires lo <= hi <= |src|
    ensures AllCarried(Chunks(id, src, lo, hi))
    decreases hi - lo
  {
    hide Carried;
    if lo < hi {
      var next := lo + Min(FILE_CHUNK_SIZE, hi - lo);
      ChunkCarried(id, lo, src[lo..next]);
      ChunksCarried(id, src, next, hi);
    }
  }

  /** Everything in flight on a link can be carried. */
  lemma LinkCarried(sha: Hasher, l: TL.Link)
    requires TL.LinkInv(sha, l)
    ensures AllCarried(l.fwd) && AllCarried(l.bwd)
  {
    hide Carried, Chunks, TL.Acks, SenderInv, TL.Aligned, TL.Holds;
    if l.tx.Some? {
      var s := l.tx.value;
      if TL.Streaming(l, s) {
        ChunksCarried(s.id, s.src, l.rx.value.received, s.nextOffset);
        TL.AcksFor(s.id, s.src, s.acked, l.rx.value.received);
        forall m | m in l.bwd ensures Carried(m) {
          SmallCarried(m);
        }
      } else {
        OfferCarried(s.id, s.name, |s.src|);
        SmallCarried(FileAccept(s.id));
        SmallCarried(FileComplete(s.id, sha(s.src)));
      }
    }
  }

  /** The receiver reads exactly what the sender queued, and the sender what the receiver did. */
  lemma LinkSurvives(sha: Hasher, l: TL.Link)
    requires TL.LinkInv(sha, l)
    ensures ReadAll(Stream(l.fwd)) == (l.fwd, Closed)
    ensures ReadAll(Stream(l.bwd)) == (l.bwd, Closed)
  {
    hide TL.LinkInv, ReadAll, Stream, WellFormed, Fits;
    LinkCarried(sha, l);
    WholeStream(l.fwd);
    WholeStream(l.bwd);
  }

  // --------------------------------------------------------- whole sessions

  ghost predicate AboutFiles(q: seq<Message>) {
    forall m :: m in q ==> FileId(m).Some?
  }

  /** A dispatcher says nothing but messages about files. */
  lemma RepliesAboutFiles(sha: Hasher, t: Transfers, dir: Dir, m: Message)
    requires t.outgoing.Some? ==> t.outgoing.value.nextOffset <= |t.outgoing.value.src|
    ensures AboutFiles(Replies(Dispatch(sha, t, dir, m).2))
  {
    hide Outgoing, Incoming;
    if Outgoing(sha, t.outgoing, m).Some? {
      OutgoingReplies(sha, t.outgoing, m);
    } else if FileId(m).Some? {
      IncomingReplies(sha, t.incoming, dir, m);
    } else {
      NothingToSay(sha, t.incoming, dir, m);
    }
  }

  lemma NothingToSay(sha: Hasher, rx: Option<Receiver>, dir: Dir, m: Message)
    requires FileId(m).None?
    ensures Replies(Incoming(sha, rx, dir, m).2) == []
  {
    hide Append, Rename;
  }

  /** What is not about files on either queue can be carried. */
  ghost predicate OthersCarried(st: Duplex.Session) {
    forall m :: (m in st.toClient || m in st.toHost) && FileId(m).None? ==> Carried(m)
  }

  /** A side says nothing the wire cannot carry. */
  predicate SaysCarried(a: Duplex.Action) {
    a.HostSays? || a.ClientSays? ==> Carried(a.m)
  }

  lemma StepOthers(sha: Hasher, st: Duplex.Session, a: Duplex.Action)
    requires Duplex.Usable(st) && Duplex.Enabled(st, a) && OthersCarried(st) && SaysCarried(a)
    ensures OthersCarried(Duplex.Step(sha, st, a))
  {
    hide Carried, Dispatch, Poll, Open, AllWithId;
    match a
    case HostSends(n, fileName, src) => OfferAboutFiles(sha, TransferId(true, n), fileName, src);
    case ClientSends(n, fileName, src) => OfferAboutFiles(sha, TransferId(false, n), fileName, src);
    case HostSays(_) =>
    case ClientSays(_) =>
    case AtClient => RepliesAboutFiles(sha, st.client, st.clientDir, st.toClient[0]);
    case AtHost => RepliesAboutFiles(sha, st.host, st.hostDir, st.toHost[0]);
  }

  lemma OfferAboutFiles(sha: Hasher, id: u32, fileName: Option<Text>, src: file)
    ensures var s := Open(id, fileName, src);
            s.nextOffset <= |s.src| && AboutFiles(Poll(sha, s).1)
  {
    hide Sanitize, Chunks;
  }

  lemma {:induction false} RunOthers(sha: Hasher, st: Duplex.Session, acts: seq<Duplex.Action>)
    requires Duplex.Legal(sha, st, acts) && OthersCarried(st)
    requires forall a :: a in acts ==> SaysCarried(a)
    ensures OthersCarried(Duplex.Run(sha, st, acts))
    decreases |acts|
  {
    hide Duplex.Step, Duplex.Enabled, OthersCarried, SaysCarried;
    if acts != [] {
      assert acts[0] in acts;
      StepOthers(sha, st, acts[0]);
      RunOthers(sha, Duplex.Step(sha, st, acts[0]), acts[1..]);
    }
  }

  /**
    At every moment of every session in which the two sides say nothing the
    wire cannot carry: framed and sent as bytes, both queues are read back
    exactly as they are.
    */
  lemma SessionSurvives(sha: Hasher, hostDir: Dir, clientDir: Dir, acts: seq<Duplex.Action>)
    requires Duplex.Legal(sha, Duplex.Fresh(hostDir, clientDir), acts)
    requires forall a :: a in acts ==> SaysCarried(a)
    ensures var st := Duplex.Run(sha, Duplex.Fresh(hostDir, clientDir), acts);
            && ReadAll(Stream(st.toClient)) == (st.toClient, Closed)
            && ReadAll(Stream(st.toHost)) == (st.toHost, Closed)
  {
    var st0 := Duplex.Fresh(hostDir, clientDir);
    Duplex.FreshInv(sha, hostDir, clientDir);
    Duplex.SessionRefines(sha, st0, acts, true);
    RunOthers(sha, st0, acts);
    var st := Duplex.Run(sha, st0, acts);
    hide Duplex.Run, Duplex.Legal, Duplex.Only, TL.LinkInv, ReadAll, Stream, WellFormed, Fits;
    LinkCarried(sha, Duplex.HostLink(st));
    LinkCarried(sha, Duplex.ClientLink(st));
    forall m | m in st.toClient || m in st.toHost ensures Carried(m) {
      if FileId(m).Some? {
        Duplex.Found(st.toClient, m);
        Duplex.Found(st.toHost, m);
      }
    }
    WholeStream(st.toClient);
    WholeStream(st.toHost);
  }
}
