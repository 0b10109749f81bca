/**
  The dispatcher each end runs on every message it reads: one outgoing and one
  incoming transfer, told apart by id alone. `take_file_replies` on the host
  and `take_file` on the client do the same to the two transfers.
  */
module Dispatching {
  import opened Bytes
  import opened Utf8
  import opened Wire
  import opened FileNames
  import opened FileSending
  import opened FileReceiving

  const ALREADY_INCOMING: Text := Ascii("a file is already incoming")
  const HOST_BIT: nat := 0x8000_0000

  datatype Transfers = Transfers(outgoing: Option<Sender>, incoming: Option<Receiver>)

  /** What the outgoing transfer does with a message, if the message is for it. */
  function Outgoing(sha: Hasher, tx: Option<Sender>, m: Message): Option<(Option<Sender>, Outcome<seq<Message>>)>
    requires tx.Some? ==> tx.value.nextOffset <= |tx.value.src|
  {
    match tx
    case None => None
    case Some(s) =>
      match OnPeer(s, m)
      case (_, Bad(e)) => Some((None, Bad(e)))
      case (s1, Good(mine)) =>
        if !mine then None
        else
          var (s2, replies) := Poll(sha, s1);
          Some((if s2.peerConfirmed then None else Some(s2), Good(replies)))
  }

  /** What becomes of a message the outgoing transfer left alone. */
  function Incoming(sha: Hasher, rx: Option<Receiver>, dir: Dir, m: Message)
    : (Option<Receiver>, Dir, Outcome<seq<Message>>)
  {
    if m.FileOffer? then
      if rx.Some? then (rx, dir, Good([FileCancel(m.id, ALREADY_INCOMING)]))
      else
        var (r, dir', reply) := Accept(dir, m.id, m.name, m.size);
        (Some(r), dir', Good([reply]))
    else if rx.None? then (rx, dir, Good([]))
    else
      match Handle(sha, rx.value, dir, m)
      case (_, dir', Bad(e)) => (None, dir', Bad(e))
      case (r, dir', Good(replies)) => (if r.done then None else Some(r), dir', Good(replies))
  }

  function Dispatch(sha: Hasher, t: Transfers, dir: Dir, m: Message): (Transfers, Dir, Outcome<seq<Message>>)
    requires t.outgoing.Some? ==> t.outgoing.value.nextOffset <= |t.outgoing.value.src|
  {
    match Outgoing(sha, t.outgoing, m)
    case Some((tx, r)) => (t.(outgoing := tx), dir, r)
    case None =>
      var (rx, dir', r) := Incoming(sha, t.incoming, dir, m);
      (t.(incoming := rx), dir', r)
  }

  /** An error is logged; nothing is written for it. */
  function Replies(r: Outcome<seq<Message>>): seq<Message> {
    if r.Good? then r.value else []
  }

  // ------------------------------------------------------------------- ids

  /** `next_id` of the host and `next_client_id`, for the `n`-th value of the counter. */
  function TransferId(host: bool, n: u32): u32 {
    if host then n % HOST_BIT + HOST_BIT else n % HOST_BIT
  }

  predicate IsHostId(id: u32) {
    id >= HOST_BIT
  }

  function FileId(m: Message): Option<u32> {
    match m
    case FileOffer(id, _, _) => Some(id)
    case FileAccept(id) => Some(id)
    case FileChunk(id, _, _) => Some(id)
    case FileAck(id, _) => Some(id)
    case FileComplete(id, _) => Some(id)
    case FileCancel(id, _) => Some(id)
    case _ => None
  }

  /** The transfers the host starts and those the client starts share no id. */
  lemma IdsApart(m: u32, n: u32)
    ensures IsHostId(TransferId(true, m)) && !IsHostId(TransferId(false, n))
    ensures TransferId(true, m) != TransferId(false, n)
  {
  }

  /** An id is the low 31 bits of the counter and bit 31 for the side: other low bits, another id. */
  lemma IdsExactly(host: bool, m: u32, n: u32)
    ensures TransferId(host, m) == m % 0x8000_0000 + (if host then 0x8000_0000 else 0)
    ensures TransferId(host, m) == TransferId(host, n) <==> m % 0x8000_0000 == n % 0x8000_0000
  {
  }

  // ------------------------------------------------------------ properties

  ghost predicate AllWithId(ms: seq<Message>, id: u32) {
    forall m :: m in ms ==> FileId(m) == Some(id)
  }

  lemma {:induction false} ChunksWithId(id: u32, src: file, lo: nat, hi: nat)
    requires lo <= hi <= |src|
    ensures AllWithId(Chunks(id, src, lo, hi), id)
    decreases hi - lo
  {
    if lo < hi {
      ChunksWithId(id, src, lo + Min(FILE_CHUNK_SIZE, hi - lo), hi);
    }
  }

  lemma PollWithId(sha: Hasher, s: Sender)
    requires s.nextOffset <= |s.src|
    ensures AllWithId(Poll(sha, s).1, s.id)
  {
    hide Chunks;
    ChunksWithId(s.id, s.src, s.nextOffset, Limit(s));
  }

  /** Replies carry the id of the message they answer, so they travel to the transfer that sent it. */
  lemma OutgoingReplies(sha: Hasher, tx: Option<Sender>, m: Message)
    requires tx.Some? ==> tx.value.nextOffset <= |tx.value.src|
    requires Outgoing(sha, tx, m).Some?
    ensures tx.Some? && FileId(m) == Some(tx.value.id)
    ensures Outgoing(sha, tx, m).value.0.Some? ==> Outgoing(sha, tx, m).value.0.value.id == tx.value.id
    ensures AllWithId(Replies(Outgoing(sha, tx, m).value.1), tx.value.id)
  {
    hide Poll, OnPeer;
    PollWithId(sha, OnPeer(tx.value, m).0);
  }

  lemma IncomingReplies(sha: Hasher, rx: Option<Receiver>, dir: Dir, m: Message)
    requires FileId(m).Some?
    ensures AllWithId(Replies(Incoming(sha, rx, dir, m).2), FileId(m).value)
  {
    hide ALREADY_INCOMING, OUT_OF_ORDER, TOO_EARLY, HASH_MISMATCH, FILE_CLOSED, Append, Rename;
  }

  /** Messages that are not about files do not disturb either transfer. */
  lemma OtherMessagesIgnored(sha: Hasher, t: Transfers, dir: Dir, m: Message)
    requires t.outgoing.Some? ==> t.outgoing.value.nextOffset <= |t.outgoing.value.src|
    requires t.incoming.Some? ==> !t.incoming.value.done
    requires FileId(m) == None
    ensures Dispatch(sha, t, dir, m) == (t, dir, Good([]))
  {
    hide Outgoing, Poll, OnPeer, Accept, Cancel, Append, Rename, ALREADY_INCOMING;
    Routed(sha, t, dir, m);
    if t.incoming.Some? {
      NotMine(sha, t.incoming.value, dir, m);
    }
    hide Handle, Dispatch;
  }

  lemma NotMine(sha: Hasher, r: Receiver, dir: Dir, m: Message)
    requires FileId(m) == None
    ensures Handle(sha, r, dir, m) == (r, dir, Good([]))
  {
    hide Cancel, Append, Rename;
  }

  /** The kinds of message a receiver sends to a sender. */
  predicate Answer(m: Message) {
    m.FileAccept? || m.FileAck? || m.FileComplete? || m.FileCancel?
  }

  /**
    A message for someone else's transfer never reaches the outgoing one, and
    a message for the outgoing one never reaches the incoming one.
    */
  lemma Routed(sha: Hasher, t: Transfers, dir: Dir, m: Message)
    requires t.outgoing.Some? ==> t.outgoing.value.nextOffset <= |t.outgoing.value.src|
    ensures var (t', dir', r) := Dispatch(sha, t, dir, m);
            if t.outgoing.Some? && FileId(m) == Some(t.outgoing.value.id) && Answer(m) then
              && t'.incoming == t.incoming && dir' == dir
              && Outgoing(sha, t.outgoing, m) == Some((t'.outgoing, r))
            else
              t'.outgoing == t.outgoing && (t'.incoming, dir', r) == Incoming(sha, t.incoming, dir, m)
  {
    hide Poll, OnPeer, Incoming;
  }

  // --------------------------------------------------- the incoming slot

  /** The outgoing transfer has sent no more than its file. */
  predicate Ready(t: Transfers) {
    t.outgoing.Some? ==> t.outgoing.value.nextOffset <= |t.outgoing.value.src|
  }

  /** A message the outgoing transfer takes for its own, before the incoming one is asked. */
  predicate Claimed(t: Transfers, m: Message) {
    t.outgoing.Some? && FileId(m) == Some(t.outgoing.value.id) && Answer(m)
  }

  lemma IncomingFreed(sha: Hasher, r: Receiver, dir: Dir, m: Message)
    requires ReceiverInv(r, dir) && r.Active()
    ensures Incoming(sha, Some(r), dir, m).0.None?
       <==> FileId(m) == Some(r.id) && (m.FileCancel? || (m.FileComplete? && r.received == r.size))
  {
    hide PartialName, Clean, ALREADY_INCOMING, OUT_OF_ORDER, TOO_EARLY, HASH_MISMATCH, FILE_CLOSED, Append, Rename;
  }

  /**
    A transfer holds the incoming slot until it completes or the dispatcher
    reports an error: the peer cancels, or announces a wrong hash. But when
    the peer offered under the id of the outgoing transfer, those messages go
    to that one and nothing frees the slot as long as it lasts.
    */
  lemma SlotFreed(sha: Hasher, t: Transfers, dir: Dir, m: Message)
    requires Ready(t) && t.incoming.Some? && ReceiverInv(t.incoming.value, dir) && t.incoming.value.Active()
    ensures var r := t.incoming.value;
            Dispatch(sha, t, dir, m).0.incoming.None? <==>
              (&& FileId(m) == Some(r.id) && (m.FileCancel? || (m.FileComplete? && r.received == r.size))
               && !(t.outgoing.Some? && t.outgoing.value.id == r.id))
  {
    Routed(sha, t, dir, m);
    IncomingFreed(sha, t.incoming.value, dir, m);
    hide Dispatch, Incoming, Outgoing, ReceiverInv;
  }

  /** The messages that make a running transfer cancel itself. */
  predicate CancelsItself(r: Receiver, m: Message) {
    && FileId(m) == Some(r.id)
    && ((m.FileChunk? && (m.offset != r.received || r.received + |m.data| > r.size))
        || (m.FileComplete? && r.received != r.size))
  }

  lemma IncomingStuck(sha: Hasher, r: Receiver, dir: Dir, m: Message)
    requires ReceiverInv(r, dir) && r.Active()
    ensures var rx := Incoming(sha, Some(r), dir, m).0;
            rx.Some? && rx.value.failed.Some? <==> CancelsItself(r, m)
  {
    hide PartialName, Clean, ALREADY_INCOMING, OUT_OF_ORDER, TOO_EARLY, HASH_MISMATCH, FILE_CLOSED, Append, Rename;
  }

  /**
    What leaves a failed transfer in the slot: a chunk out of order or past the
    size offered, or a completion before all bytes, and nothing else.
    */
  lemma SlotStuck(sha: Hasher, t: Transfers, dir: Dir, m: Message)
    requires Ready(t) && t.incoming.Some? && ReceiverInv(t.incoming.value, dir) && t.incoming.value.Active()
    ensures var rx := Dispatch(sha, t, dir, m).0.incoming;
            rx.Some? && rx.value.failed.Some? <==> CancelsItself(t.incoming.value, m) && !Claimed(t, m)
  {
    Routed(sha, t, dir, m);
    IncomingStuck(sha, t.incoming.value, dir, m);
    hide Dispatch, Incoming, Outgoing, ReceiverInv, CancelsItself;
  }

  lemma IncomingCancels(sha: Hasher, r: Receiver, dir: Dir, m: Message)
    requires ReceiverInv(r, dir) && r.Active()
    ensures (exists c :: c in Replies(Incoming(sha, Some(r), dir, m).2) && c.FileCancel?)
       <==> m.FileOffer? || CancelsItself(r, m)
  {
    hide PartialName, Clean, ALREADY_INCOMING, OUT_OF_ORDER, TOO_EARLY, HASH_MISMATCH, FILE_CLOSED, Append, Rename;
    var replies := Replies(Incoming(sha, Some(r), dir, m).2);
    if m.FileOffer? || CancelsItself(r, m) {
      assert replies[0] in replies && replies[0].FileCancel?;
    }
  }

  lemma {:induction false} ChunksNoCancel(id: u32, src: file, lo: nat, hi: nat)
    requires lo <= hi <= |src|
    ensures forall m :: m in Chunks(id, src, lo, hi) ==> m.FileChunk?
    decreases hi - lo
  {
    if lo < hi {
      ChunksNoCancel(id, src, lo + Min(FILE_CHUNK_SIZE, hi - lo), hi);
    }
  }

  /** A sender never cancels. */
  lemma PollNoCancel(sha: Hasher, s: Sender)
    requires s.nextOffset <= |s.src|
    ensures forall m :: m in Poll(sha, s).1 ==> !m.FileCancel?
  {
    hide Chunks;
    ChunksNoCancel(s.id, s.src, s.nextOffset, Limit(s));
  }

  lemma OutgoingNoCancel(sha: Hasher, tx: Option<Sender>, m: Message)
    requires tx.Some? ==> tx.value.nextOffset <= |tx.value.src|
    requires Outgoing(sha, tx, m).Some?
    ensures forall c :: c in Replies(Outgoing(sha, tx, m).value.1) ==> !c.FileCancel?
  {
    hide Poll, OnPeer;
    PollNoCancel(sha, OnPeer(tx.value, m).0);
  }

  /** The failures the peer is told of: a refused offer and the ones that leave the slot stuck, and no others. */
  lemma CancelSent(sha: Hasher, t: Transfers, dir: Dir, m: Message)
    requires Ready(t) && t.incoming.Some? && ReceiverInv(t.incoming.value, dir) && t.incoming.value.Active()
    ensures (exists c :: c in Replies(Dispatch(sha, t, dir, m).2) && c.FileCancel?)
       <==> m.FileOffer? || (CancelsItself(t.incoming.value, m) && !Claimed(t, m))
  {
    Routed(sha, t, dir, m);
    IncomingCancels(sha, t.incoming.value, dir, m);
    if Claimed(t, m) {
      OutgoingNoCancel(sha, t.outgoing, m);
    }
    hide Dispatch, Incoming, Outgoing, ReceiverInv, CancelsItself, Replies;
  }

  /**
    A wrong hash is not among them: the partial file is deleted and the slot
    freed, but the cancel is dropped and the sender hears nothing.
    */
  lemma MismatchSilent(sha: Hasher, t: Transfers, dir: Dir, sha256: Digest)
    requires Ready(t) && t.incoming.Some? && t.incoming.value.Active()
    requires t.incoming.value.received == t.incoming.value.size && sha(t.incoming.value.hashed) != sha256
    requires !Claimed(t, FileComplete(t.incoming.value.id, sha256))
    ensures var r := t.incoming.value;
            var (t', dir', out) := Dispatch(sha, t, dir, FileComplete(r.id, sha256));
            && t' == t.(incoming := None) && dir' == dir - {r.Temp()}
            && out == Bad(HashMismatch(r.id)) && Replies(out) == []
  {
    hide PartialName, HASH_MISMATCH, Outgoing;
    Routed(sha, t, dir, FileComplete(t.incoming.value.id, sha256));
  }

  /**
    The id of the outgoing transfer is no secret to the peer, and an offer
    under it is taken. Then the peer's own cancel ends the wrong transfer: the
    outgoing one, while the one it meant stays in its slot, running.
    */
  lemma OwnIdCollides(
    sha: Hasher, dir: Dir, id: u32, fileName: Option<Text>, src: file, name: Text, size: u64, reason: Text)
    ensures var s := Poll(sha, Open(id, fileName, src)).0;
            var t := Transfers(Some(s), None);
            && Ready(t)
            && var (t1, dir1, _) := Dispatch(sha, t, dir, FileOffer(id, name, size));
            && Ready(t1) && t1.incoming.Some? && t1.incoming.value.Active() && t1.incoming.value.id == id
            && Dispatch(sha, t1, dir1, FileCancel(id, reason))
               == (Transfers(None, t1.incoming), dir1, Bad(Failed(id, reason)))
  {
    hide Sanitize, PartialName;
    ConfirmedUnsent(sha, id, fileName, src, sha([]));
  }

  /** While one file comes in, whatever its state, another offer changes nothing and is refused with this reason. */
  lemma BusyRefuses(sha: Hasher, t: Transfers, dir: Dir, offer: Message)
    requires Ready(t) && t.incoming.Some? && offer.FileOffer?
    ensures Dispatch(sha, t, dir, offer) == (t, dir, Good([FileCancel(offer.id, Ascii("a file is already incoming"))]))
  {
    Routed(sha, t, dir, offer);
    hide Ascii, Outgoing;
  }

  /** One thing an end does in a session: it starts a file, if none is going out, or reads a message. */
  datatype Call =
    | Send(id: u32, fileName: Option<Text>, src: file)
    | Read(m: Message)

  lemma DispatchReady(sha: Hasher, t: Transfers, dir: Dir, m: Message)
    requires Ready(t)
    ensures Ready(Dispatch(sha, t, dir, m).0)
  {
    hide OnPeer, Chunks, Incoming;
  }

  function Serve(sha: Hasher, t: Transfers, dir: Dir, c: Call): (r: (Transfers, Dir))
    requires Ready(t)
    ensures Ready(r.0)
  {
    match c
    case Send(id, fileName, src) =>
      if t.outgoing.Some? then (t, dir) else (t.(outgoing := Some(Poll(sha, Open(id, fileName, src)).0)), dir)
    case Read(m) =>
      DispatchReady(sha, t, dir, m);
      var (t', dir', _) := Dispatch(sha, t, dir, m);
      (t', dir')
  }

  /** A session of one end, whatever the peer sends, without the replies. */
  ghost function Through(sha: Hasher, t: Transfers, dir: Dir, calls: seq<Call>): (r: (Transfers, Dir))
    requires Ready(t)
    ensures Ready(r.0)
    decreases |calls|
  {
    if calls == [] then (t, dir)
    else
      var n := |calls| - 1;
      var (t1, dir1) := Through(sha, t, dir, calls[..n]);
      Serve(sha, t1, dir1, calls[n])
  }

  /** A receiver that has failed stays in the slot, and further offers are refused. */
  lemma FailedStays(sha: Hasher, t: Transfers, dir: Dir, c: Call)
    requires Ready(t) && t.incoming.Some? && t.incoming.value.failed.Some? && !t.incoming.value.done
    ensures var (t', dir') := Serve(sha, t, dir, c);
            t'.incoming == t.incoming && dir' == dir
    ensures c.Read? && c.m.FileOffer? ==>
              Dispatch(sha, t, dir, c.m) == (t, dir, Good([FileCancel(c.m.id, ALREADY_INCOMING)]))
  {
    hide ALREADY_INCOMING, Outgoing, Poll, Open;
    if c.Read? {
      Routed(sha, t, dir, c.m);
      DoneAbsorbs(sha, t.incoming.value, dir, c.m);
    }
  }

  /**
    A receiver that cancelled by itself is never let go: for the rest of the
    session it stays in the slot and every further offer is refused.
    */
  lemma {:induction false} CancelledSlotSticks(sha: Hasher, t: Transfers, dir: Dir, calls: seq<Call>, offer: Message)
    requires Ready(t) && t.incoming.Some? && t.incoming.value.failed.Some? && !t.incoming.value.done
    requires offer.FileOffer?
    ensures var (t', dir') := Through(sha, t, dir, calls);
            && t'.incoming == t.incoming && dir' == dir
            && Dispatch(sha, t', dir', offer) == (t', dir', Good([FileCancel(offer.id, ALREADY_INCOMING)]))
    decreases |calls|
  {
    hide ALREADY_INCOMING, Dispatch, Serve;
    if calls == [] {
      FailedStays(sha, t, dir, Read(offer));
    } else {
      var n := |calls| - 1;
      CancelledSlotSticks(sha, t, dir, calls[..n], offer);
      var (t1, dir1) := Through(sha, t, dir, calls[..n]);
      FailedStays(sha, t1, dir1, calls[n]);
      var (t2, dir2) := Serve(sha, t1, dir1, calls[n]);
      FailedStays(sha, t2, dir2, Read(offer));
    }
  }

  /**
    Two messages are enough: an offer of one byte and a chunk that starts
    after it. From then on, whatever else is received, every offer is refused.
    */
  lemma StuckReached(sha: Hasher, t: Transfers, dir: Dir, id: u32, name: Text, calls: seq<Call>, offer: Message)
    requires Ready(t) && t.incoming.None? && offer.FileOffer?
    ensures var (t1, dir1) := Serve(sha, t, dir, Read(FileOffer(id, name, 1)));
            var (t2, dir2) := Serve(sha, t1, dir1, Read(FileChunk(id, 1, [])));
            var (t', dir') := Through(sha, t2, dir2, calls);
            && t'.incoming.Some? && t'.incoming.value.failed.Some?
            && Dispatch(sha, t', dir', offer) == (t', dir', Good([FileCancel(offer.id, ALREADY_INCOMING)]))
  {
    hide Sanitize, PartialName, ALREADY_INCOMING, OUT_OF_ORDER, Outgoing;
    var first, second := FileOffer(id, name, 1), FileChunk(id, 1, []);
    Routed(sha, t, dir, first);
    var (t1, dir1) := Serve(sha, t, dir, Read(first));
    Routed(sha, t1, dir1, second);
    var (t2, dir2) := Serve(sha, t1, dir1, Read(second));
    assert t2.incoming.Some? && t2.incoming.value.failed.Some? && !t2.incoming.value.done;
    hide Dispatch, Incoming, Serve;
    CancelledSlotSticks(sha, t2, dir2, calls, offer);
  }

  /**
    The sender's side of the early confirmation: a completion with any hash,
    in answer to the offer, frees the slot as if the file had arrived.
    */
  lemma FreedUnsent(
    sha: Hasher, rx: Option<Receiver>, dir: Dir, id: u32, fileName: Option<Text>, src: file, sha256: Digest)
    ensures var t := Transfers(Some(Poll(sha, Open(id, fileName, src)).0), rx);
            Ready(t) && Dispatch(sha, t, dir, FileComplete(id, sha256)) == (Transfers(None, rx), dir, Good([]))
  {
    hide Sanitize;
    ConfirmedUnsent(sha, id, fileName, src, sha256);
  }
}
