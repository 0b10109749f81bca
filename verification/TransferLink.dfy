/**
  One direction of file transfer: a sender's dispatcher, a receiver's
  dispatcher and the two first-in first-out queues between them. The sender
  may start a new transfer whenever it has none.
  */
module TransferLink {
  import opened Bytes
  import opened Utf8
  import opened Wire
  import opened FileNames
  import opened FileSending
  import opened FileReceiving
  import opened Dispatching

  datatype Link = Link(tx: Option<Sender>, rx: Option<Receiver>, fwd: seq<Message>, bwd: seq<Message>, dir: Dir)

  datatype Action =
    | Start(id: u32, fileName: Option<Text>, src: file)
    | ToReceiver
    | ToSender

  predicate Usable(l: Link) {
    l.tx.Some? ==> l.tx.value.nextOffset <= |l.tx.value.src|
  }

  /** A sender starts only when its slot is free; a delivery needs a message. */
  predicate Enabled(l: Link, a: Action) {
    match a
    case Start(_, _, _) => l.tx.None?
    case ToReceiver => l.fwd != []
    case ToSender => l.bwd != []
  }

  function Step(sha: Hasher, l: Link, a: Action): Link
    requires Usable(l) && Enabled(l, a)
  {
    match a
    case Start(id, fileName, src) =>
      var (s, out) := Poll(sha, Open(id, fileName, src));
      l.(tx := Some(s), fwd := l.fwd + out)
    case ToReceiver =>
      var (rx, dir, r) := Incoming(sha, l.rx, l.dir, l.fwd[0]);
      l.(rx := rx, dir := dir, fwd := l.fwd[1..], bwd := l.bwd + Replies(r))
    case ToSender =>
      match Outgoing(sha, l.tx, l.bwd[0])
      case None => l.(bwd := l.bwd[1..])
      case Some((tx, r)) => l.(tx := tx, bwd := l.bwd[1..], fwd := l.fwd + Replies(r))
  }

  // ------------------------------------------------------------- invariant

  /** Offsets move by whole chunks until the end of the file. */
  predicate Aligned(src: file, at: nat) {
    at <= |src| && (at % FILE_CHUNK_SIZE == 0 || at == |src|)
  }

  /** How many chunks lie between two aligned offsets. */
  function ChunkCount(lo: nat, hi: nat): nat
    requires lo <= hi
  {
    (hi - lo + FILE_CHUNK_SIZE - 1) / FILE_CHUNK_SIZE
  }

  /** The acks of the chunks from `lo` to `hi`, each for one chunk more. */
  function Acks(id: u32, src: file, lo: nat, hi: nat): seq<Message>
    requires lo <= hi <= |src|
    decreases hi - lo
  {
    if lo == hi then []
    else
      var n := Min(FILE_CHUNK_SIZE, hi - lo);
      [FileAck(id, lo + n)] + Acks(id, src, lo + n, hi)
  }

  function FreshReceiver(s: Sender, n: nat): Receiver
    requires n <= |s.src|
  {
    Receiver(s.id, s.name, |s.src|, n, true, s.src[..n], false, None)
  }

  /** The receiver holds exactly the first `n` bytes, in memory of its hash and on disk. */
  ghost predicate Holds(l: Link, s: Sender, n: nat)
    requires n <= |s.src|
  {
    && l.rx == Some(FreshReceiver(s, n))
    && PartialName(s.name, s.id) in l.dir
    && l.dir[PartialName(s.name, s.id)] == s.src[..n]
  }

  ghost predicate Honest(sha: Hasher, s: Sender) {
    && SenderInv(sha, s)
    && s.offered && s.failed.None? && !s.peerConfirmed && Clean(s.name)
    && Aligned(s.src, s.acked) && Aligned(s.src, s.nextOffset)
  }

  ghost predicate Offered(l: Link, s: Sender) {
    && !s.accepted && l.rx.None?
    && l.fwd == [FileOffer(s.id, s.name, |s.src|)] && l.bwd == []
  }

  ghost predicate Accepted(l: Link, s: Sender) {
    && !s.accepted && Holds(l, s, 0)
    && l.fwd == [] && l.bwd == [FileAccept(s.id)]
  }

  /** Chunks in flight go on where the receiver is; acks in flight go on where the sender is. */
  ghost predicate Streaming(l: Link, s: Sender) {
    && s.accepted && !s.completeSent && l.rx.Some?
    && var n := l.rx.value.received;
    && s.acked <= n <= s.nextOffset <= |s.src| && s.acked < |s.src|
    && s.nextOffset == Limit(s)
    && Aligned(s.src, n) && Holds(l, s, n)
    && l.fwd == Chunks(s.id, s.src, n, s.nextOffset)
    && l.bwd == Acks(s.id, s.src, s.acked, n)
  }

  ghost predicate Finishing(sha: Hasher, l: Link, s: Sender) {
    && s.completeSent && Holds(l, s, |s.src|)
    && l.fwd == [FileComplete(s.id, sha(s.src))] && l.bwd == []
  }

  ghost predicate Confirming(sha: Hasher, l: Link, s: Sender) {
    && s.completeSent && l.rx.None?
    && l.fwd == [] && l.bwd == [FileComplete(s.id, sha(s.src))]
  }

  ghost predicate LinkInv(sha: Hasher, l: Link) {
    match l.tx
    case None => l.rx.None? && l.fwd == [] && l.bwd == []
    case Some(s) =>
      && Honest(sha, s)
      && (Offered(l, s) || Accepted(l, s) || Streaming(l, s) || Finishing(sha, l, s) || Confirming(sha, l, s))
  }

  // ---------------------------------------- the two conserved quantities

  /** The number of deliveries that one transfer takes from its start: two for each 16384 bytes or part of them, and 4. */
  function Cost(size: nat): nat {
    2 * ((size + 16383) / 16384) + 4
  }

  /** The number of deliveries still to come. */
  function Remaining(l: Link): nat {
    match l.tx
    case None => 0
    case Some(s) =>
      if !s.accepted then Cost(|s.src|) - (if l.rx.None? then 0 else 1)
      else if s.completeSent then if l.rx.None? then 1 else 2
      else if l.rx.Some? && s.acked <= l.rx.value.received <= |s.src| then
        2 * ChunkCount(l.rx.value.received, |s.src|) + ChunkCount(s.acked, l.rx.value.received) + 2
      else 0
  }

  /** The directory with one more file saved, and its partial file gone. */
  function Save(dir: Dir, name: Text, id: u32, src: file): Dir {
    (dir - {PartialName(name, id)})[name := src]
  }

  /** The directory as it will be when the transfer under way has completed. */
  function Settled(l: Link): Dir {
    match l.tx
    case None => l.dir
    case Some(s) => if s.completeSent && l.rx.None? then l.dir else Save(l.dir, s.name, s.id, s.src)
  }

  /** What one delivery keeps and what it uses up. */
  ghost predicate Delivered(sha: Hasher, l: Link, l': Link) {
    LinkInv(sha, l') && Remaining(l') == Remaining(l) - 1 && Settled(l') == Settled(l)
  }

  // ---------------------------------------------------- step by step

  lemma OneChunkLess(d: nat)
    requires d > 0 && d % FILE_CHUNK_SIZE == 0
    ensures d >= FILE_CHUNK_SIZE && (d - FILE_CHUNK_SIZE) % FILE_CHUNK_SIZE == 0
  {
  }

  lemma Associates(a: seq<Message>, b: seq<Message>, c: seq<Message>)
    ensures a + b + c == a + (b + c)
  {
  }

  lemma {:induction false} ChunksAppend(id: u32, src: file, lo: nat, mid: nat, hi: nat)
    requires lo <= mid <= hi <= |src|
    requires (mid - lo) % FILE_CHUNK_SIZE == 0 || mid == hi
    ensures Chunks(id, src, lo, mid) + Chunks(id, src, mid, hi) == Chunks(id, src, lo, hi)
    decreases mid - lo
  {
    if mid == hi {
      NoChunks(id, src, hi);
    } else if lo < mid {
      OneChunkLess(mid - lo);
      var next := lo + FILE_CHUNK_SIZE;
      var c := [FileChunk(id, lo, src[lo..next])];
      assert Chunks(id, src, lo, mid) == c + Chunks(id, src, next, mid);
      assert Chunks(id, src, lo, hi) == c + Chunks(id, src, next, hi);
      hide Chunks;
      ChunksAppend(id, src, next, mid, hi);
      Associates(c, Chunks(id, src, next, mid), Chunks(id, src, mid, hi));
    }
  }

  lemma {:induction false} AcksAppend(id: u32, src: file, lo: nat, mid: nat, hi: nat)
    requires lo <= mid < hi <= |src|
    requires (mid - lo) % FILE_CHUNK_SIZE == 0 && hi - mid <= FILE_CHUNK_SIZE
    ensures Acks(id, src, lo, mid) + [FileAck(id, hi)] == Acks(id, src, lo, hi)
    decreases mid - lo
  {
    if lo < mid {
      OneChunkLess(mid - lo);
      var next := lo + FILE_CHUNK_SIZE;
      var a := [FileAck(id, next)];
      assert Acks(id, src, lo, mid) == a + Acks(id, src, next, mid);
      assert Acks(id, src, lo, hi) == a + Acks(id, src, next, hi);
      hide Acks;
      AcksAppend(id, src, next, mid, hi);
      Associates(a, Acks(id, src, next, mid), [FileAck(id, hi)]);
    } else {
      assert Acks(id, src, hi, hi) == [];
    }
  }

  lemma StartStep(sha: Hasher, l: Link, id: u32, fileName: Option<Text>, src: file)
    requires LinkInv(sha, l) && l.tx.None?
    ensures var s := Open(id, fileName, src);
            var l' := Step(sha, l, Start(id, fileName, src));
            && LinkInv(sha, l')
            && Remaining(l) == 0 && Remaining(l') == Cost(|src|)
            && Settled(l') == Save(Settled(l), s.name, id, src)
            && l' == l.(tx := Some(s.(offered := true)), fwd := [FileOffer(id, s.name, |src|)])
  {
    SanitizeClean(match fileName case Some(t) => t case None => FALLBACK);
    hide Clean, Sanitize, PartialName, Chunks;
    var s := Open(id, fileName, src).(offered := true);
    assert [] + [FileOffer(s.id, s.name, |s.src|)] == [FileOffer(s.id, s.name, |s.src|)];
    assert Offered(Step(sha, l, Start(id, fileName, src)), s);
  }

  /** What the receiver's dispatcher does with an offer when its slot is free. */
  lemma OfferTaken(sha: Hasher, l: Link, s: Sender)
    requires Usable(l) && l.rx.None? && Clean(s.name)
    requires l.fwd == [FileOffer(s.id, s.name, |s.src|)] && l.bwd == []
    ensures Step(sha, l, ToReceiver) ==
            l.(rx := Some(FreshReceiver(s, 0)), dir := l.dir[PartialName(s.name, s.id) := []],
               fwd := [], bwd := [FileAccept(s.id)])
  {
    SanitizeKeeps(s.name);
    hide Clean, Sanitize, PartialName, Outgoing, Handle;
    assert [] + [FileAccept(s.id)] == [FileAccept(s.id)];
  }

  lemma DeliverOffer(sha: Hasher, l: Link)
    requires LinkInv(sha, l) && l.tx.Some? && Offered(l, l.tx.value)
    ensures Delivered(sha, l, Step(sha, l, ToReceiver))
    ensures var s := l.tx.value;
            Step(sha, l, ToReceiver) ==
            l.(rx := Some(FreshReceiver(s, 0)), dir := l.dir[PartialName(s.name, s.id) := []],
               fwd := [], bwd := [FileAccept(s.id)])
  {
    var s := l.tx.value;
    PartialNotFinal(s.name, s.id, s.name);
    OfferTaken(sha, l, s);
    hide Clean, PartialName, Honest, Cost, Step, Settled, Save;
    var l' := Step(sha, l, ToReceiver);
    assert Accepted(l', s);
    SettledAnew(l, s, l');
  }

  /** A partial file just created changes nothing in the directory to come. */
  lemma SettledAnew(l: Link, s: Sender, l': Link)
    requires l.tx == Some(s) && l'.tx == Some(s) && !s.completeSent
    requires l'.dir == l.dir[PartialName(s.name, s.id) := []]
    ensures Settled(l') == Settled(l)
  {
    hide PartialName;
    var temp := PartialName(s.name, s.id);
    assert l.dir[temp := []] - {temp} == l.dir - {temp};
  }

  /** A sender with room left sends up to the edge of its window. */
  lemma PollStreams(sha: Hasher, s: Sender)
    requires SenderInv(sha, s) && s.offered && s.accepted && !s.completeSent && s.failed.None?
    requires s.acked < |s.src|
    ensures Poll(sha, s) == (s.(nextOffset := Limit(s), hashed := s.src[..Limit(s)]),
                             Chunks(s.id, s.src, s.nextOffset, Limit(s)))
  {
    hide Chunks;
    AppendSlice([], s.src, 0, s.nextOffset, Limit(s));
    assert [] + s.src[0..s.nextOffset] == s.hashed;
    assert [] + s.src[0..Limit(s)] == s.src[..Limit(s)];
  }

  /** A sender whose every byte is acked sends its hash. */
  lemma PollCompletes(sha: Hasher, s: Sender)
    requires SenderInv(sha, s) && s.offered && s.accepted && !s.completeSent && s.failed.None?
    requires s.acked == |s.src|
    ensures Poll(sha, s) == (s.(hash := Some(sha(s.src)), completeSent := true), [FileComplete(s.id, sha(s.src))])
  {
    assert s.src[..|s.src|] == s.src;
    assert s.hashed + s.src[|s.src|..|s.src|] == s.hashed;
    NoChunks(s.id, s.src, |s.src|);
    assert [] + [FileComplete(s.id, sha(s.src))] == [FileComplete(s.id, sha(s.src))];
  }

  /** The sender's dispatcher feeds one answer to the transfer and polls it. */
  lemma AnswerStep(sha: Hasher, l: Link, s1: Sender, s2: Sender, out: seq<Message>)
    requires Usable(l) && l.bwd != [] && l.tx.Some?
    requires OnPeer(l.tx.value, l.bwd[0]) == (s1, Good(true))
    requires Poll(sha, s1) == (s2, out)
    ensures Step(sha, l, ToSender) ==
            l.(tx := if s2.peerConfirmed then None else Some(s2), bwd := l.bwd[1..], fwd := l.fwd + out)
  {
    hide OnPeer, Poll;
  }

  lemma DeliverAccept(sha: Hasher, l: Link)
    requires LinkInv(sha, l) && l.tx.Some? && Accepted(l, l.tx.value)
    ensures Delivered(sha, l, Step(sha, l, ToSender))
    ensures var s, l' := l.tx.value, Step(sha, l, ToSender);
            && l'.rx == l.rx && l'.dir == l.dir && l'.bwd == []
            && l'.fwd == if |s.src| == 0 then [FileComplete(s.id, sha(s.src))]
                         else Chunks(s.id, s.src, 0, Min(|s.src|, 65536))
  {
    var s := l.tx.value;
    var s1 := s.(accepted := true);
    OnPeerInv(sha, s, l.bwd[0]);
    assert OnPeer(s, l.bwd[0]) == (s1, Good(true));
    hide OnPeer;
    if |s.src| == 0 {
      PollCompletes(sha, s1);
      DeliverAcceptEmpty(sha, l, s1);
    } else {
      DeliverAcceptFull(sha, l, s1);
    }
  }

  /** Before the echo the directory to come depends on the file sent alone. */
  lemma NotYetSettled(l: Link, l': Link)
    requires l.tx.Some? && l'.tx.Some? && l.rx.Some? && l'.rx.Some? && l'.dir == l.dir
    requires l'.tx.value.id == l.tx.value.id && l'.tx.value.name == l.tx.value.name && l'.tx.value.src == l.tx.value.src
    ensures Settled(l') == Settled(l)
  {
  }

  lemma DeliverAcceptEmpty(sha: Hasher, l: Link, s1: Sender)
    requires LinkInv(sha, l) && l.tx.Some? && Accepted(l, l.tx.value) && |l.tx.value.src| == 0
    requires s1 == l.tx.value.(accepted := true) && OnPeer(l.tx.value, l.bwd[0]) == (s1, Good(true))
    requires Poll(sha, s1) == (s1.(hash := Some(sha(s1.src)), completeSent := true), [FileComplete(s1.id, sha(s1.src))])
    ensures Delivered(sha, l, Step(sha, l, ToSender))
    ensures var l' := Step(sha, l, ToSender);
            l'.rx == l.rx && l'.dir == l.dir && l'.bwd == [] && l'.fwd == [FileComplete(s1.id, sha(s1.src))]
  {
    hide OnPeer, Poll, PartialName, Clean, Chunks;
    var (s2, out) := Poll(sha, s1);
    AnswerStep(sha, l, s1, s2, out);
    hide Step, Outgoing, Incoming, Settled, Save, Aligned;
    assert [] + out == out;
    var l' := Step(sha, l, ToSender);
    assert Finishing(sha, l', s2);
    assert Settled(l') == Settled(l) by {
      NotYetSettled(l, l');
    }
  }

  /** A sender that has just filled its window has sent up to its edge or to the end of the file. */
  lemma WindowEdge(sha: Hasher, s: Sender)
    requires Honest(sha, s) && s.nextOffset == Limit(s)
    ensures s.nextOffset == Min(|s.src|, s.acked + FILE_WINDOW_BYTES)
  {
  }

  /** A sender with bytes left to be acked keeps the stream going from where it is. */
  lemma Refill(sha: Hasher, l: Link, s1: Sender, n: nat, rest: seq<Message>)
    requires Honest(sha, s1) && s1.accepted && !s1.completeSent && s1.acked < |s1.src|
    requires s1.acked <= n <= s1.nextOffset && Aligned(s1.src, n) && Holds(l, s1, n)
    requires l.fwd == Chunks(s1.id, s1.src, n, s1.nextOffset) && rest == Acks(s1.id, s1.src, s1.acked, n)
    ensures var (s2, out) := Poll(sha, s1);
            && s2 == s1.(nextOffset := s2.nextOffset, hashed := s2.hashed)
            && Honest(sha, s2)
            && s2.nextOffset == Min(|s1.src|, s1.acked + FILE_WINDOW_BYTES)
            && l.fwd + out == Chunks(s1.id, s1.src, n, s2.nextOffset)
            && Streaming(l.(tx := Some(s2), fwd := l.fwd + out, bwd := rest), s2)
  {
    PollStreams(sha, s1);
    PollInv(sha, s1);
    LimitAligned(s1);
    Refilled(s1.id, s1.src, n, s1.nextOffset, Limit(s1));
    WindowEdge(sha, Poll(sha, s1).0);
    hide Poll, Chunks, Acks, PartialName, Clean, Aligned, SenderInv;
  }

  lemma AcceptReady(sha: Hasher, l: Link, s1: Sender)
    requires LinkInv(sha, l) && l.tx.Some? && Accepted(l, l.tx.value)
    requires s1 == l.tx.value.(accepted := true) && SenderInv(sha, s1)
    ensures Honest(sha, s1) && !s1.completeSent && !s1.peerConfirmed && s1.acked == 0 && s1.nextOffset == 0
    ensures Holds(l, s1, 0) && l.bwd[1..] == []
    ensures l.fwd == Chunks(s1.id, s1.src, 0, 0) && [] == Acks(s1.id, s1.src, 0, 0)
  {
    hide PartialName, Clean;
  }

  lemma DeliverAcceptFull(sha: Hasher, l: Link, s1: Sender)
    requires LinkInv(sha, l) && l.tx.Some? && Accepted(l, l.tx.value) && |l.tx.value.src| > 0
    requires s1 == l.tx.value.(accepted := true) && OnPeer(l.tx.value, l.bwd[0]) == (s1, Good(true))
    requires SenderInv(sha, s1)
    ensures Delivered(sha, l, Step(sha, l, ToSender))
    ensures var l' := Step(sha, l, ToSender);
            && l'.rx == l.rx && l'.dir == l.dir && l'.bwd == []
            && l'.fwd == Chunks(s1.id, s1.src, 0, Min(|s1.src|, FILE_WINDOW_BYTES))
  {
    hide OnPeer, PartialName, Clean, Chunks, Acks, SenderInv, Honest, LinkInv;
    AcceptReady(sha, l, s1);
    assert ChunkCount(0, 0) == 0;
    Refill(sha, l, s1, 0, []);
    assert l.rx.value.received == 0 && !l.tx.value.accepted;
    hide Poll, Aligned, ChunkCount, Limit;
    var (s2, out) := Poll(sha, s1);
    AnswerStep(sha, l, s1, s2, out);
    var l' := l.(tx := Some(s2), fwd := l.fwd + out, bwd := []);
    assert l' == Step(sha, l, ToSender) && Streaming(l', s2) && Honest(sha, s2);
    StreamingInv(sha, l');
    hide Step, Streaming, Accepted, Holds;
  }

  lemma StreamingInv(sha: Hasher, l: Link)
    requires l.tx.Some? && Honest(sha, l.tx.value) && Streaming(l, l.tx.value)
    ensures LinkInv(sha, l)
  {
    hide Honest, Streaming;
  }

  /** Where the receiver is after the next chunk. */
  function After(s: Sender, n: nat): nat {
    n + Min(FILE_CHUNK_SIZE, s.nextOffset - n)
  }

  lemma AfterAligned(s: Sender, n: nat)
    requires n < s.nextOffset <= |s.src| && s.acked <= n
    requires Aligned(s.src, s.acked) && Aligned(s.src, n) && Aligned(s.src, s.nextOffset)
    ensures n < After(s, n) <= s.nextOffset && After(s, n) - n <= FILE_CHUNK_SIZE
    ensures Aligned(s.src, After(s, n)) && (n - s.acked) % FILE_CHUNK_SIZE == 0
  {
  }

  lemma NextChunk(s: Sender, n: nat)
    requires n < s.nextOffset <= |s.src| && s.acked <= n
    requires n < After(s, n) <= s.nextOffset && After(s, n) - n <= FILE_CHUNK_SIZE
    requires (n - s.acked) % FILE_CHUNK_SIZE == 0
    ensures var at := After(s, n);
            && Chunks(s.id, s.src, n, s.nextOffset)
               == [FileChunk(s.id, n, s.src[n..at])] + Chunks(s.id, s.src, at, s.nextOffset)
            && s.src[..n] + s.src[n..at] == s.src[..at]
            && Acks(s.id, s.src, s.acked, n) + [FileAck(s.id, at)] == Acks(s.id, s.src, s.acked, at)
  {
    hide Acks;
    AcksAppend(s.id, s.src, s.acked, n, After(s, n));
  }

  lemma ChunkCounts(s: Sender, n: nat)
    requires n < s.nextOffset <= |s.src| && s.acked <= n
    requires Aligned(s.src, s.acked) && Aligned(s.src, n) && Aligned(s.src, s.nextOffset)
    ensures n < After(s, n) <= |s.src|
    ensures ChunkCount(After(s, n), |s.src|) == ChunkCount(n, |s.src|) - 1
    ensures ChunkCount(s.acked, After(s, n)) == ChunkCount(s.acked, n) + 1
  {
    hide ChunkCount;
    AckedCount(s.acked, n, After(s, n));
    ChunksLeft(n, After(s, n), |s.src|);
  }

  lemma ChunksLeft(n: nat, at: nat, size: nat)
    requires n < at <= size && (at == n + FILE_CHUNK_SIZE || (at == size && size - n <= FILE_CHUNK_SIZE))
    ensures ChunkCount(at, size) == ChunkCount(n, size) - 1
  {
  }

  lemma AckedCount(acked: nat, n: nat, at: nat)
    requires acked <= n < at <= n + FILE_CHUNK_SIZE
    requires acked % FILE_CHUNK_SIZE == 0 && n % FILE_CHUNK_SIZE == 0
    ensures ChunkCount(acked, at) == ChunkCount(acked, n) + 1
  {
    var k, j := n / FILE_CHUNK_SIZE, acked / FILE_CHUNK_SIZE;
    assert n - acked == (k - j) * FILE_CHUNK_SIZE;
    assert ChunkCount(acked, n) == k - j;
  }

  lemma DeliverChunk(sha: Hasher, l: Link)
    requires LinkInv(sha, l) && l.tx.Some? && Streaming(l, l.tx.value) && l.fwd != []
    ensures Delivered(sha, l, Step(sha, l, ToReceiver))
    ensures var s, n := l.tx.value, l.rx.value.received;
            && n < After(s, n) <= |s.src|
            && l.fwd[0] == FileChunk(s.id, n, s.src[n..After(s, n)])
            && Step(sha, l, ToReceiver) ==
               l.(rx := Some(FreshReceiver(s, After(s, n))),
                  dir := l.dir[PartialName(s.name, s.id) := s.src[..After(s, n)]],
                  fwd := l.fwd[1..], bwd := l.bwd + [FileAck(s.id, After(s, n))])
  {
    hide Chunks, Acks, PartialName, Clean, SenderInv, ChunkCount, After, Aligned, Limit, Outgoing, Incoming, Poll, Handle;
    var s, r := l.tx.value, l.rx.value;
    NoChunks(s.id, s.src, s.nextOffset);
    AfterAligned(s, r.received);
    NextChunk(s, r.received);
    ChunkCounts(s, r.received);
    var at := After(s, r.received);
    var data := s.src[r.received..at];
    assert l.fwd[0] == FileChunk(s.id, r.received, data);
    assert l.fwd[1..] == Chunks(s.id, s.src, at, s.nextOffset);
    ChunkTaken(sha, l, data);
    var l' := Step(sha, l, ToReceiver);
    hide Step;
    assert Streaming(l', s);
  }

  /** What the receiver's dispatcher does with the next chunk. */
  lemma ChunkTaken(sha: Hasher, l: Link, data: bytes)
    requires Usable(l) && l.rx.Some? && l.rx.value.Active() && l.rx.value.open
    requires l.rx.value.received + |data| <= l.rx.value.size && l.rx.value.Temp() in l.dir
    requires l.fwd != [] && l.fwd[0] == FileChunk(l.rx.value.id, l.rx.value.received, data)
    ensures var r := l.rx.value;
            var at := r.received + |data|;
            Step(sha, l, ToReceiver) ==
            l.(rx := Some(r.(hashed := r.hashed + data, received := at)),
               dir := l.dir[r.Temp() := l.dir[r.Temp()] + data],
               fwd := l.fwd[1..],
               bwd := l.bwd + [FileAck(r.id, at)])
  {
    hide PartialName, Outgoing, OUT_OF_ORDER;
  }

  /** The offset the next ack in flight carries. */
  function NextAck(s: Sender, n: nat): nat
    requires s.acked <= n
  {
    s.acked + Min(FILE_CHUNK_SIZE, n - s.acked)
  }

  lemma AckFacts(s: Sender, n: nat)
    requires s.acked < n <= s.nextOffset <= |s.src|
    requires Aligned(s.src, s.acked) && Aligned(s.src, n) && Aligned(s.src, s.nextOffset)
    ensures var at := NextAck(s, n);
            && s.acked < at <= n && Aligned(s.src, at)
            && Acks(s.id, s.src, s.acked, n) == [FileAck(s.id, at)] + Acks(s.id, s.src, at, n)
            && ChunkCount(at, n) == ChunkCount(s.acked, n) - 1
  {
    ChunksLeft(s.acked, NextAck(s, n), n);
    hide ChunkCount;
  }

  /** The chunks sent after an ack go on where those in flight end. */
  lemma Refilled(id: u32, src: file, n: nat, mid: nat, hi: nat)
    requires n <= mid <= hi <= |src| && Aligned(src, n) && Aligned(src, mid)
    ensures Chunks(id, src, n, mid) + Chunks(id, src, mid, hi) == Chunks(id, src, n, hi)
  {
    hide Chunks;
    ChunksAppend(id, src, n, mid, hi);
  }

  lemma LimitAligned(s: Sender)
    requires Aligned(s.src, s.acked) && Aligned(s.src, s.nextOffset)
    ensures s.nextOffset <= Limit(s) <= |s.src| && Aligned(s.src, Limit(s))
  {
    assert FILE_WINDOW_BYTES == 4 * FILE_CHUNK_SIZE;
  }

  /** The sender's transfer takes the next ack and has its offset acked. */
  lemma AckTaken(sha: Hasher, l: Link) returns (s1: Sender)
    requires LinkInv(sha, l) && l.tx.Some? && Streaming(l, l.tx.value) && l.bwd != []
    requires l.tx.value.acked < l.rx.value.received && NextAck(l.tx.value, l.rx.value.received) < |l.tx.value.src|
    ensures var s, n := l.tx.value, l.rx.value.received;
            && s1 == s.(acked := NextAck(s, n)) && OnPeer(s, l.bwd[0]) == (s1, Good(true))
            && Honest(sha, s1) && s1.accepted && !s1.completeSent && s1.acked <= n <= s1.nextOffset
            && l.bwd[1..] == Acks(s1.id, s1.src, s1.acked, n)
            && ChunkCount(s1.acked, n) == ChunkCount(s.acked, n) - 1
  {
    var s, n := l.tx.value, l.rx.value.received;
    AckFacts(s, n);
    s1 := s.(acked := NextAck(s, n));
    assert OnPeer(s, l.bwd[0]) == (s1, Good(true));
    hide OnPeer, Chunks, Acks, PartialName, Clean, ChunkCount, Aligned, NextAck;
    assert l.bwd[1..] == Acks(s.id, s.src, s1.acked, n);
  }

  lemma DeliverAckFull(sha: Hasher, l: Link)
    requires LinkInv(sha, l) && l.tx.Some? && Streaming(l, l.tx.value) && l.bwd != []
    requires l.tx.value.acked < l.rx.value.received && NextAck(l.tx.value, l.rx.value.received) < |l.tx.value.src|
    ensures Delivered(sha, l, Step(sha, l, ToSender))
    ensures var s, n, l' := l.tx.value, l.rx.value.received, Step(sha, l, ToSender);
            && l'.rx == l.rx && l'.dir == l.dir && l'.bwd == l.bwd[1..]
            && l'.tx.Some? && l'.tx.value.acked == NextAck(s, n)
            && n <= Min(|s.src|, NextAck(s, n) + FILE_WINDOW_BYTES)
            && l'.fwd == Chunks(s.id, s.src, n, Min(|s.src|, NextAck(s, n) + FILE_WINDOW_BYTES))
  {
    hide OnPeer, Chunks, Acks, PartialName, Clean, ChunkCount, Aligned, NextAck, Honest, SenderInv, Limit, Poll, Save;
    var n := l.rx.value.received;
    var s1 := AckTaken(sha, l);
    Refill(sha, l, s1, n, l.bwd[1..]);
    var (s2, out) := Poll(sha, s1);
    UsableSender(sha, l);
    AnswerStep(sha, l, s1, s2, out);
    var l' := Step(sha, l, ToSender);
    assert l' == l.(tx := Some(s2), fwd := l.fwd + out, bwd := l.bwd[1..]);
    StreamingInv(sha, l');
    hide Step, Holds;
  }

  lemma UsableSender(sha: Hasher, l: Link)
    requires LinkInv(sha, l)
    ensures Usable(l)
    ensures l.tx.Some? ==> !l.tx.value.peerConfirmed
  {
    hide Offered, Accepted, Streaming, Finishing, Confirming, Aligned, Clean;
  }

  lemma DeliverLastAck(sha: Hasher, l: Link)
    requires LinkInv(sha, l) && l.tx.Some? && Streaming(l, l.tx.value) && l.bwd != []
    requires l.tx.value.acked < l.rx.value.received && NextAck(l.tx.value, l.rx.value.received) == |l.tx.value.src|
    ensures Delivered(sha, l, Step(sha, l, ToSender))
    ensures var s, n, l' := l.tx.value, l.rx.value.received, Step(sha, l, ToSender);
            && l'.rx == l.rx && l'.dir == l.dir && l'.bwd == l.bwd[1..]
            && l'.tx.Some? && l'.tx.value.acked == NextAck(s, n)
            && l'.fwd == [FileComplete(s.id, sha(s.src))]
  {
    var s, n := l.tx.value, l.rx.value.received;
    AckFacts(s, n);
    var s1 := s.(acked := |s.src|);
    assert OnPeer(s, l.bwd[0]) == (s1, Good(true));
    assert l.bwd[1..] == [];
    assert l.fwd == [] && ChunkCount(s.acked, n) == 1 && ChunkCount(n, |s.src|) == 0;
    hide OnPeer, Chunks, Acks, PartialName, Clean, ChunkCount, Aligned, NextAck;
    assert SenderInv(sha, s1);
    PollCompletes(sha, s1);
    PollInv(sha, s1);
    var (s2, out) := Poll(sha, s1);
    AnswerStep(sha, l, s1, s2, out);
    hide Poll, Step, SenderInv;
    assert [] + out == out;
    assert Finishing(sha, Step(sha, l, ToSender), s2);
  }

  lemma DeliverComplete(sha: Hasher, l: Link)
    requires LinkInv(sha, l) && l.tx.Some? && Finishing(sha, l, l.tx.value)
    ensures Delivered(sha, l, Step(sha, l, ToReceiver))
    ensures var s := l.tx.value;
            Step(sha, l, ToReceiver) ==
            l.(rx := None, dir := Save(l.dir, s.name, s.id, s.src),
               fwd := [], bwd := [FileComplete(s.id, sha(s.src))])
  {
    var s := l.tx.value;
    PartialNotFinal(s.name, s.id, s.name);
    hide PartialName, Clean, SenderInv, Aligned, Poll, OnPeer, OUT_OF_ORDER, TOO_EARLY, HASH_MISMATCH;
    assert s.src[..|s.src|] == s.src;
    var l' := Step(sha, l, ToReceiver);
    assert [] + [FileComplete(s.id, sha(s.src))] == [FileComplete(s.id, sha(s.src))];
    assert Confirming(sha, l', s);
  }

  lemma DeliverEcho(sha: Hasher, l: Link)
    requires LinkInv(sha, l) && l.tx.Some? && Confirming(sha, l, l.tx.value)
    ensures Delivered(sha, l, Step(sha, l, ToSender))
    ensures Step(sha, l, ToSender) == Idle(l.dir)
  {
    var s := l.tx.value;
    var s1 := s.(peerConfirmed := true);
    assert OnPeer(s, l.bwd[0]) == (s1, Good(true));
    assert Poll(sha, s1) == (s1, []);
    AnswerStep(sha, l, s1, s1, []);
  }

  // ---------------------------------------------------------- whole runs

  /** Every enabled step keeps the invariant and moves the two quantities exactly. */
  lemma StepConserves(sha: Hasher, l: Link, a: Action)
    requires LinkInv(sha, l) && Usable(l) && Enabled(l, a)
    ensures LinkInv(sha, Step(sha, l, a)) && Usable(Step(sha, l, a))
    ensures Remaining(Step(sha, l, a)) == Remaining(l) + (if a.Start? then Cost(|a.src|) else -1)
    ensures Settled(Step(sha, l, a)) == SaveStarted(Settled(l), a)
  {
    hide Step, Remaining, Settled, Offered, Accepted, Streaming, Finishing, Confirming, Cost, Save;
    if a.Start? {
      StartStep(sha, l, a.id, a.fileName, a.src);
    } else {
      DeliveryConserves(sha, l, a);
    }
  }

  lemma DeliveryConserves(sha: Hasher, l: Link, a: Action)
    requires LinkInv(sha, l) && Usable(l) && Enabled(l, a) && !a.Start?
    ensures Delivered(sha, l, Step(sha, l, a))
  {
    hide Step, Remaining, Settled, Chunks, Acks, Holds, Honest;
    var s := l.tx.value;
    if Offered(l, s) {
      DeliverOffer(sha, l);
    } else if Accepted(l, s) {
      DeliverAccept(sha, l);
    } else if Finishing(sha, l, s) {
      DeliverComplete(sha, l);
    } else if Confirming(sha, l, s) {
      DeliverEcho(sha, l);
    } else if a == ToReceiver {
      DeliverChunk(sha, l);
    } else {
      DeliverAck(sha, l);
    }
  }

  /** Each ack moves the window on from where the receiver is; the last one brings out the hash. */
  lemma DeliverAck(sha: Hasher, l: Link)
    requires LinkInv(sha, l) && l.tx.Some? && Streaming(l, l.tx.value) && l.bwd != []
    ensures Delivered(sha, l, Step(sha, l, ToSender))
    ensures var s, n, l' := l.tx.value, l.rx.value.received, Step(sha, l, ToSender);
            && s.acked < n && NextAck(s, n) <= n && n <= Min(|s.src|, NextAck(s, n) + 65536)
            && l'.rx == l.rx && l'.dir == l.dir && l'.bwd == l.bwd[1..]
            && l'.tx.Some? && l'.tx.value.acked == NextAck(s, n)
            && l'.fwd == if NextAck(s, n) == |s.src| then [FileComplete(s.id, sha(s.src))]
                         else Chunks(s.id, s.src, n, Min(|s.src|, NextAck(s, n) + 65536))
  {
    var s, n := l.tx.value, l.rx.value.received;
    assert s.acked < n;
    assert n <= |s.src| && NextAck(s, n) <= n;
    assert n <= NextAck(s, n) + FILE_WINDOW_BYTES;
    hide Step, Delivered, LinkInv, Streaming, NextAck;
    if NextAck(s, n) < |s.src| {
      DeliverAckFull(sha, l);
    } else {
      DeliverLastAck(sha, l);
    }
  }

  /** A transfer under way always has a message in flight: no run gets stuck. */
  lemma AlwaysInFlight(sha: Hasher, l: Link)
    requires LinkInv(sha, l)
    ensures l.tx.Some? <==> Enabled(l, ToReceiver) || Enabled(l, ToSender)
    ensures l.tx.Some? <==> Remaining(l) > 0
  {
    hide Honest, Holds, Aligned, Offered, Accepted, Finishing, Confirming;
    if l.tx.Some? && Streaming(l, l.tx.value) {
      assert l.tx.value.acked < l.tx.value.nextOffset;
    }
    if l.tx.Some? {
      InFlightPhases(sha, l);
    }
  }

  lemma InFlightPhases(sha: Hasher, l: Link)
    requires LinkInv(sha, l) && l.tx.Some?
    ensures (l.fwd != [] || l.bwd != []) && Remaining(l) > 0
  {
    hide Holds, Aligned;
  }

  /** Whatever is delivered next, neither dispatcher reports an error. */
  ghost predicate NoErrorNext(sha: Hasher, l: Link)
    requires Usable(l)
  {
    && (l.fwd != [] ==> Incoming(sha, l.rx, l.dir, l.fwd[0]).2.Good?)
    && (l.bwd != [] ==>
          Outgoing(sha, l.tx, l.bwd[0]).Some? && Outgoing(sha, l.tx, l.bwd[0]).value.1.Good?)
  }

  /**
    No cancel is ever sent, and no failure or hash mismatch is ever reported:
    neither has happened nor does the next delivery at either end bring one.
    */
  lemma NeverFails(sha: Hasher, l: Link)
    requires LinkInv(sha, l)
    ensures Usable(l) && NoErrorNext(sha, l)
    ensures forall m :: m in l.fwd || m in l.bwd ==> !m.FileCancel?
    ensures l.tx.Some? ==> l.tx.value.failed.None?
    ensures l.rx.Some? ==> l.rx.value.Active()
  {
    NoCancels(sha, l);
    hide Clean, Chunks, Acks, Aligned, ReceiverInv, ALREADY_INCOMING;
    if l.tx.Some? {
      var s := l.tx.value;
      if Offered(l, s) {
      } else if Accepted(l, s) {
        AnswerTaken(sha, l);
      } else if Streaming(l, s) {
        StreamingGood(sha, l);
      } else if Finishing(sha, l, s) {
        CompletionGood(sha, l);
      } else {
        AnswerTaken(sha, l);
      }
    }
  }

  lemma NoCancels(sha: Hasher, l: Link)
    requires LinkInv(sha, l)
    ensures forall m :: m in l.fwd || m in l.bwd ==> !m.FileCancel?
    ensures l.tx.Some? ==> l.tx.value.failed.None?
    ensures l.rx.Some? ==> l.rx.value.Active()
  {
    if l.tx.Some? && Streaming(l, l.tx.value) {
      var s := l.tx.value;
      ChunksFull(s.id, s.src, l.rx.value.received, s.nextOffset);
      AcksOnly(s.id, s.src, s.acked, l.rx.value.received);
    }
    hide Aligned, Chunks, Acks, SenderInv, Clean, PartialName;
  }

  /** An answer the transfer takes without an error is no error for its dispatcher. */
  lemma AnswerTaken(sha: Hasher, l: Link)
    requires Usable(l) && l.tx.Some? && l.bwd != []
    requires OnPeer(l.tx.value, l.bwd[0]).1 == Good(true)
    ensures Outgoing(sha, l.tx, l.bwd[0]).Some? && Outgoing(sha, l.tx, l.bwd[0]).value.1.Good?
  {
    hide OnPeer, Poll;
  }

  lemma StreamingGood(sha: Hasher, l: Link)
    requires LinkInv(sha, l) && l.tx.Some? && Streaming(l, l.tx.value)
    ensures Usable(l) && NoErrorNext(sha, l)
  {
    var s, n := l.tx.value, l.rx.value.received;
    ChunksFull(s.id, s.src, n, s.nextOffset);
    AcksFor(s.id, s.src, s.acked, n);
    AcksOnly(s.id, s.src, s.acked, n);
    hide Chunks, Acks, Aligned, Clean, PartialName, OUT_OF_ORDER, Poll, Append;
    if l.bwd != [] {
      assert l.bwd[0] in l.bwd && l.bwd[0] == FileAck(s.id, l.bwd[0].offset);
      assert OnPeer(s, l.bwd[0]).1 == Good(true);
      AnswerTaken(sha, l);
    }
    if l.fwd != [] {
      assert l.fwd[0] in l.fwd;
    }
    hide OnPeer, Outgoing;
  }

  lemma {:induction false} AcksFor(id: u32, src: file, lo: nat, hi: nat)
    requires lo <= hi <= |src|
    ensures forall m :: m in Acks(id, src, lo, hi) ==> m.FileAck? && m.id == id
    decreases hi - lo
  {
    if lo < hi {
      AcksFor(id, src, lo + Min(FILE_CHUNK_SIZE, hi - lo), hi);
    }
  }

  lemma CompletionGood(sha: Hasher, l: Link)
    requires LinkInv(sha, l) && l.tx.Some? && Finishing(sha, l, l.tx.value)
    ensures Usable(l) && NoErrorNext(sha, l)
  {
    hide Clean, PartialName, Aligned, HASH_MISMATCH, TOO_EARLY, Rename;
    assert l.tx.value.src[..|l.tx.value.src|] == l.tx.value.src;
  }

  lemma {:induction false} AcksOnly(id: u32, src: file, lo: nat, hi: nat)
    requires lo <= hi <= |src|
    ensures Climbing(Acks(id, src, lo, hi), lo, hi)
    decreases hi - lo
  {
    if lo < hi {
      var next := lo + Min(FILE_CHUNK_SIZE, hi - lo);
      AcksOnly(id, src, next, hi);
      var rest := Acks(id, src, next, hi);
      assert Acks(id, src, lo, hi) == [FileAck(id, next)] + rest;
    }
  }

  /** Acks of strictly growing offsets above `lo`, up to `hi`. */
  ghost predicate Climbing(ms: seq<Message>, lo: nat, hi: nat) {
    && (forall i :: 0 <= i < |ms| ==> ms[i].FileAck? && lo < ms[i].offset <= hi)
    && (forall i, j :: 0 <= i < j < |ms| ==> ms[i].offset < ms[j].offset)
  }

  /**
    At every moment of a transfer: acked, received and sent are in that order,
    the receiver holds exactly the first bytes of the file, in its hash and on
    disk, the chunks in flight are exactly the bytes between received and sent,
    and the acks in flight climb from acked to received.
    */
  lemma InFlightOrder(sha: Hasher, l: Link)
    requires LinkInv(sha, l) && l.tx.Some? && l.rx.Some?
    ensures var s, r := l.tx.value, l.rx.value;
            && s.acked <= r.received <= s.nextOffset <= |s.src|
            && r.hashed == s.src[..r.received]
            && r.Temp() in l.dir && l.dir[r.Temp()] == s.src[..r.received]
            && Payload(l.fwd) == s.src[r.received..s.nextOffset]
            && (s.accepted ==> Climbing(l.bwd, s.acked, r.received))
  {
    var s, r := l.tx.value, l.rx.value;
    if Streaming(l, s) {
      ChunksTile(s.id, s.src, r.received, s.nextOffset);
      TilesPayload(l.fwd, s.id, s.src, r.received, s.nextOffset);
      AcksOnly(s.id, s.src, s.acked, r.received);
    } else {
      assert Payload(l.fwd) == [];
    }
    hide Chunks, Acks, Aligned, Clean, PartialName, Payload, Tiles;
  }

  /** Every chunk but the one that ends the file is a full one. */
  lemma {:induction false} ChunksFull(id: u32, src: file, lo: nat, hi: nat)
    requires lo <= hi && Aligned(src, lo) && Aligned(src, hi)
    ensures forall m :: m in Chunks(id, src, lo, hi) ==>
              m.FileChunk? && (|m.data| == 16384 || m.offset + |m.data| == |src|)
    decreases hi - lo
  {
    if lo < hi {
      ChunksFull(id, src, lo + Min(FILE_CHUNK_SIZE, hi - lo), hi);
    }
  }

  /** At every moment of a transfer, every chunk in flight is a full one or the one that ends the file. */
  lemma FullInFlight(sha: Hasher, l: Link)
    requires LinkInv(sha, l)
    ensures forall m :: m in l.fwd && m.FileChunk? ==>
              l.tx.Some? && (|m.data| == 16384 || m.offset + |m.data| == |l.tx.value.src|)
  {
    if l.tx.Some? && Streaming(l, l.tx.value) {
      var s := l.tx.value;
      ChunksFull(s.id, s.src, l.rx.value.received, s.nextOffset);
    }
    hide Aligned, Chunks, Acks, SenderInv, Clean, PartialName;
  }

  ghost predicate Legal(sha: Hasher, l: Link, acts: seq<Action>)
    decreases |acts|
  {
    acts == [] || (Usable(l) && Enabled(l, acts[0]) && Legal(sha, Step(sha, l, acts[0]), acts[1..]))
  }

  ghost function Run(sha: Hasher, l: Link, acts: seq<Action>): Link
    requires Legal(sha, l, acts)
    decreases |acts|
  {
    if acts == [] then l else Run(sha, Step(sha, l, acts[0]), acts[1..])
  }

  /** The messages delivered in a run. */
  function Deliveries(acts: seq<Action>): nat {
    if acts == [] then 0 else (if acts[0].Start? then 0 else 1) + Deliveries(acts[1..])
  }

  /** The deliveries all transfers started in a run take together. */
  function TotalCost(acts: seq<Action>): nat {
    if acts == [] then 0 else (if acts[0].Start? then Cost(|acts[0].src|) else 0) + TotalCost(acts[1..])
  }

  function SaveStarted(dir: Dir, a: Action): Dir {
    if a.Start? then Save(dir, Open(a.id, a.fileName, a.src).name, a.id, a.src) else dir
  }

  /** The directory with every file started in a run saved in turn. */
  function SaveAll(dir: Dir, acts: seq<Action>): Dir
    decreases |acts|
  {
    if acts == [] then dir else SaveAll(SaveStarted(dir, acts[0]), acts[1..])
  }

  /**
    In every run, whatever the order of deliveries: each delivery brings the
    transfers started so far one step nearer to their exact total, and the
    directory is on its way to holding every file sent.
    */
  lemma {:induction false} RunConserves(sha: Hasher, l: Link, acts: seq<Action>)
    requires LinkInv(sha, l) && Usable(l) && Legal(sha, l, acts)
    ensures var l' := Run(sha, l, acts);
            && LinkInv(sha, l')
            && Remaining(l') + Deliveries(acts) == Remaining(l) + TotalCost(acts)
            && Settled(l') == SaveAll(Settled(l), acts)
    decreases |acts|
  {
    hide LinkInv, Step, Remaining, Settled, Cost, SaveStarted;
    if acts != [] {
      StepConserves(sha, l, acts[0]);
      RunConserves(sha, Step(sha, l, acts[0]), acts[1..]);
    }
  }

  /** A link with nothing under way. */
  function Idle(dir: Dir): Link {
    Link(None, None, [], [], dir)
  }

  /**
    Every run from an idle link ends its transfers after exactly
    2 * ceil(size / 16384) + 4 deliveries each. It has nothing left to deliver
    if and only if all of them were made, and then the directory is the old one
    with every file saved as it was sent, in turn, and no partial file of theirs.
    */
  lemma ExactlyDelivered(sha: Hasher, dir: Dir, acts: seq<Action>)
    requires Legal(sha, Idle(dir), acts)
    ensures Deliveries(acts) <= TotalCost(acts)
    ensures var l := Run(sha, Idle(dir), acts);
            && (l.fwd == [] && l.bwd == [] <==> Deliveries(acts) == TotalCost(acts))
            && (Deliveries(acts) == TotalCost(acts) ==> l == Idle(SaveAll(dir, acts)))
  {
    RunConserves(sha, Idle(dir), acts);
    AlwaysInFlight(sha, Run(sha, Idle(dir), acts));
  }

  /** In every run from an idle link: no error, no cancel, and only full chunks but for the ends of files. */
  lemma RunNeverFails(sha: Hasher, dir: Dir, acts: seq<Action>)
    requires Legal(sha, Idle(dir), acts)
    ensures var l := Run(sha, Idle(dir), acts);
            && Usable(l) && NoErrorNext(sha, l)
            && (forall m :: m in l.fwd || m in l.bwd ==> !m.FileCancel?)
            && (forall m :: m in l.fwd && m.FileChunk? ==>
                  l.tx.Some? && (|m.data| == 16384 || m.offset + |m.data| == |l.tx.value.src|))
  {
    RunConserves(sha, Idle(dir), acts);
    var l := Run(sha, Idle(dir), acts);
    hide Run, Legal, LinkInv;
    NeverFails(sha, l);
    FullInFlight(sha, l);
  }
}
