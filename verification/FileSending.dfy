/**
  The sending half of a file transfer: `FileSender` as a state and its two
  operations, and what every peer can make it do.
  */
module FileSending {
  import opened Bytes
  import opened Utf8
  import opened Wire
  import opened FileNames

  const FILE_CHUNK_SIZE: nat := 16 * 1024
  const FILE_WINDOW_BYTES: nat := 64 * 1024

  /** SHA-256, of which nothing is assumed but that it is a function. */
  type Hasher = bytes -> Digest

  datatype FileError = Failed(id: u32, reason: Text) | HashMismatch(id: u32)

  datatype Outcome<+T> = Good(value: T) | Bad(error: FileError)

  const ACK_PAST_SENT: Text := Ascii("ack past sent bytes")
  const PEER_HASH_MISMATCH: Text := Ascii("peer hash mismatch")

  datatype Sender = Sender(
    id: u32, name: Text, src: file, nextOffset: nat, acked: nat, offered: bool, accepted: bool,
    hashed: bytes, hash: Option<Digest>, completeSent: bool, peerConfirmed: bool, failed: Option<Text>)

  /** `FileSender::open` on a file whose name is `fileName`, if that is text. */
  function Open(id: u32, fileName: Option<Text>, src: file): Sender {
    var name := Sanitize(match fileName case Some(t) => t case None => FALLBACK);
    SanitizeClean(match fileName case Some(t) => t case None => FALLBACK);
    Sender(id, name, src, 0, 0, false, false, [], None, false, false, None)
  }

  /** The bytes of `src` from `lo` to `hi` as full chunks and a last shorter one. */
  function Chunks(id: u32, src: file, lo: nat, hi: nat): seq<Message>
    requires lo <= hi <= |src|
    decreases hi - lo
  {
    if lo == hi then []
    else
      var n := Min(FILE_CHUNK_SIZE, hi - lo);
      [FileChunk(id, lo, src[lo..lo + n])] + Chunks(id, src, lo + n, hi)
  }

  lemma ChunksStep(sofar: seq<Message>, id: u32, src: file, lo: nat, hi: nat)
    requires lo < hi <= |src|
    ensures var n := Min(FILE_CHUNK_SIZE, hi - lo);
            sofar + Chunks(id, src, lo, hi)
            == sofar + [FileChunk(id, lo, src[lo..lo + n])] + Chunks(id, src, lo + n, hi)
  {
  }

  lemma AppendSlice(before: bytes, src: bytes, a: nat, b: nat, c: nat)
    requires a <= b <= c <= |src|
    ensures before + src[a..b] + src[b..c] == before + src[a..c]
  {
    assert src[a..b] + src[b..c] == src[a..c];
  }

  lemma NoChunks(id: u32, src: file, at: nat)
    requires at <= |src|
    ensures Chunks(id, src, at, at) == []
  {
  }

  /** Where the window lets the sender read to. */
  function Limit(s: Sender): nat {
    Max(s.nextOffset, Min(|s.src|, s.acked + FILE_WINDOW_BYTES))
  }

  function Complete(sha: Hasher, s: Sender): (Sender, Message) {
    var hash := if s.hash.None? then sha(s.hashed) else s.hash.value;
    (s.(hash := Some(hash), completeSent := true), FileComplete(s.id, hash))
  }

  /** `FileSender::poll`. */
  function Poll(sha: Hasher, s: Sender): (r: (Sender, seq<Message>))
    requires s.nextOffset <= |s.src|
    ensures r.0.id == s.id && r.0.src == s.src
  {
    if s.failed.Some? || s.completeSent then (s, [])
    else if !s.offered then (s.(offered := true), [FileOffer(s.id, s.name, |s.src|)])
    else if !s.accepted then (s, [])
    else
      var hi := Limit(s);
      var chunks := Chunks(s.id, s.src, s.nextOffset, hi);
      var s' := s.(nextOffset := hi, hashed := s.hashed + s.src[s.nextOffset..hi]);
      if s'.acked == |s.src| then
        var (s'', done) := Complete(sha, s');
        (s'', chunks + [done])
      else (s', chunks)
  }

  /** `FileSender::on_peer`: whether the message was for this transfer. */
  function OnPeer(s: Sender, m: Message): (r: (Sender, Outcome<bool>))
    ensures r.0.id == s.id && r.0.src == s.src && r.0.nextOffset == s.nextOffset
    ensures r.1 == Good(false) ==> r.0 == s
    ensures r.1 != Good(false) <==> (m.FileAccept? || m.FileAck? || m.FileComplete? || m.FileCancel?) && m.id == s.id
  {
    match m
    case FileAccept(id) =>
      if id == s.id then (s.(accepted := true), Good(true)) else (s, Good(false))
    case FileAck(id, offset) =>
      if id != s.id then (s, Good(false))
      else if offset < s.acked then (s, Good(true))
      else if offset > s.nextOffset || offset > |s.src| then
        (s.(failed := Some(ACK_PAST_SENT)), Bad(Failed(s.id, ACK_PAST_SENT)))
      else (s.(acked := offset), Good(true))
    case FileComplete(id, sha256) =>
      if id != s.id then (s, Good(false))
      else if s.hash.Some? && s.hash.value != sha256 then
        (s.(failed := Some(PEER_HASH_MISMATCH)), Bad(HashMismatch(s.id)))
      else (s.(peerConfirmed := true), Good(true))
    case FileCancel(id, reason) =>
      if id == s.id then (s.(failed := Some(reason)), Bad(Failed(s.id, reason))) else (s, Good(false))
    case _ => (s, Good(false))
  }

  /** What each answer does to its transfer, and nothing does more. */
  lemma OnPeerExactly(s: Sender, offset: u64, sha256: Digest, reason: Text)
    ensures OnPeer(s, FileAccept(s.id)) == (s.(accepted := true), Good(true))
    ensures offset < s.acked ==> OnPeer(s, FileAck(s.id, offset)) == (s, Good(true))
    ensures s.acked <= offset <= s.nextOffset && offset <= |s.src| ==>
              OnPeer(s, FileAck(s.id, offset)) == (s.(acked := offset), Good(true))
    ensures s.acked <= offset && (offset > s.nextOffset || offset > |s.src|) ==>
              OnPeer(s, FileAck(s.id, offset))
              == (s.(failed := Some(Ascii("ack past sent bytes"))), Bad(Failed(s.id, Ascii("ack past sent bytes"))))
    ensures s.hash.Some? && s.hash.value != sha256 ==>
              OnPeer(s, FileComplete(s.id, sha256))
              == (s.(failed := Some(Ascii("peer hash mismatch"))), Bad(HashMismatch(s.id)))
    ensures OnPeer(s, FileCancel(s.id, reason)) == (s.(failed := Some(reason)), Bad(Failed(s.id, reason)))
  {
    hide Ascii;
  }

  /** A failed transfer sends nothing more. */
  lemma FailedSilent(sha: Hasher, s: Sender)
    requires s.nextOffset <= |s.src| && s.failed.Some?
    ensures Poll(sha, s) == (s, [])
  {
  }

  /** The name offered is the file's own, made clean, or "file.bin". */
  lemma OpenNamed(id: u32, name: Text, src: file)
    ensures Open(id, Some(name), src).name == Sanitize(name)
    ensures Open(id, None, src).name == Ascii("file.bin")
  {
    hide Sanitize, Clean, Ascii, FALLBACK, Valid;
    FallbackKept();
  }

  // ------------------------------------------- against an arbitrary peer

  /** What every sender state keeps, whatever the peer says. */
  ghost predicate SenderInv(sha: Hasher, s: Sender) {
    && s.acked <= s.nextOffset <= |s.src|
    && s.nextOffset - s.acked <= FILE_WINDOW_BYTES
    && s.hashed == s.src[..s.nextOffset]
    && (s.nextOffset > 0 || s.completeSent ==> s.offered && s.accepted)
    && (s.completeSent ==> s.acked == |s.src| && s.hash == Some(sha(s.src)))
    && (!s.completeSent ==> s.hash == None)
  }

  ghost predicate IsTile(m: Message, id: u32, src: file, lo: nat) {
    && m.FileChunk?
    && 0 < |m.data| <= FILE_CHUNK_SIZE
    && lo + |m.data| <= |src|
    && m == FileChunk(id, lo, src[lo..lo + |m.data|])
  }

  /** `ms` are chunks of at most the chunk size that cover `src[lo..hi]` in order, without a gap. */
  ghost predicate Tiles(ms: seq<Message>, id: u32, src: file, lo: nat, hi: nat) {
    if ms == [] then lo == hi <= |src|
    else IsTile(ms[0], id, src, lo) && Tiles(ms[1..], id, src, lo + |ms[0].data|, hi)
  }

  lemma {:induction false} TilesAppend(a: seq<Message>, b: seq<Message>, id: u32, src: file, lo: nat, mid: nat, hi: nat)
    requires Tiles(a, id, src, lo, mid) && Tiles(b, id, src, mid, hi)
    ensures Tiles(a + b, id, src, lo, hi)
    decreases |a|
  {
    if a == [] {
      assert a + b == b;
    } else {
      var n := |a[0].data|;
      hide IsTile;
      TilesAppend(a[1..], b, id, src, lo + n, mid, hi);
      assert (a + b)[1..] == a[1..] + b;
    }
  }

  lemma {:induction false} ChunksTile(id: u32, src: file, lo: nat, hi: nat)
    requires lo <= hi <= |src|
    ensures Tiles(Chunks(id, src, lo, hi), id, src, lo, hi)
    decreases hi - lo
  {
    if lo < hi {
      ChunksTile(id, src, lo + Min(FILE_CHUNK_SIZE, hi - lo), hi);
    }
  }

  /** The file bytes a list of messages carries. */
  function Payload(ms: seq<Message>): bytes {
    if ms == [] then []
    else (if ms[0].FileChunk? then ms[0].data else []) + Payload(ms[1..])
  }

  lemma {:induction false} TilesPayload(ms: seq<Message>, id: u32, src: file, lo: nat, hi: nat)
    requires Tiles(ms, id, src, lo, hi)
    ensures lo <= hi <= |src| && Payload(ms) == src[lo..hi]
    decreases |ms|
  {
    if ms != [] {
      var next := lo + |ms[0].data|;
      TilesPayload(ms[1..], id, src, next, hi);
      hide Tiles;
      assert src[lo..next] + src[next..hi] == src[lo..hi];
    }
  }

  datatype Event = PollNow | Peer(m: Message)

  /** One call on the sender and the messages it hands out. */
  function Step(sha: Hasher, s: Sender, e: Event): (Sender, seq<Message>)
    requires s.nextOffset <= |s.src|
  {
    match e
    case PollNow => Poll(sha, s)
    case Peer(m) => (OnPeer(s, m).0, [])
  }

  lemma PollInv(sha: Hasher, s: Sender)
    requires SenderInv(sha, s)
    ensures SenderInv(sha, Poll(sha, s).0) && Onward(s, Poll(sha, s).0)
  {
    hide Chunks;
    var hi := Limit(s);
    assert s.src[..s.nextOffset] + s.src[s.nextOffset..hi] == s.src[..hi];
    assert s.src[..|s.src|] == s.src;
  }

  /** Chunks between two offsets are full but for the one that ends at the second. */
  lemma {:induction false} ChunkSizes(id: u32, src: file, lo: nat, hi: nat)
    requires lo <= hi <= |src|
    ensures forall m :: m in Chunks(id, src, lo, hi) ==>
              m.FileChunk? && 0 < |m.data| && (|m.data| == 16384 || (|m.data| < 16384 && m.offset + |m.data| == hi))
    decreases hi - lo
  {
    if lo < hi {
      ChunkSizes(id, src, lo + Min(FILE_CHUNK_SIZE, hi - lo), hi);
    }
  }

  /**
    A poll of an accepted transfer reads on until 65536 bytes are unacked or
    the file ends, in chunks of 16384 bytes and a last one that may be shorter.
    */
  lemma PollFills(sha: Hasher, s: Sender)
    requires s.nextOffset <= |s.src| && s.offered && s.accepted && !s.completeSent && s.failed.None?
    ensures var (s', out) := Poll(sha, s);
            && s'.nextOffset == Max(s.nextOffset, Min(|s.src|, s.acked + 65536))
            && Payload(out) == s.src[s.nextOffset..s'.nextOffset]
            && (forall m :: m in out && m.FileChunk? ==>
                  |m.data| == 16384 || (|m.data| < 16384 && m.offset + |m.data| == s'.nextOffset))
            && (s.acked == |s.src| <==> exists m :: m in out && m.FileComplete?)
  {
    var hi := Limit(s);
    var chunks := Chunks(s.id, s.src, s.nextOffset, hi);
    ChunkSizes(s.id, s.src, s.nextOffset, hi);
    ChunksTile(s.id, s.src, s.nextOffset, hi);
    TilesPayload(chunks, s.id, s.src, s.nextOffset, hi);
    hide Chunks, Tiles;
    var out := Poll(sha, s).1;
    if s.acked == |s.src| {
      var done := out[|chunks|];
      assert out == chunks + [done] && done in out && done.FileComplete?;
      PayloadAppend(chunks, [done]);
      assert Payload([done]) == [] by {
        assert [done][1..] == [];
      }
    }
  }

  lemma OnPeerInv(sha: Hasher, s: Sender, m: Message)
    requires SenderInv(sha, s)
    ensures SenderInv(sha, OnPeer(s, m).0) && Onward(s, OnPeer(s, m).0)
  {
    hide ACK_PAST_SENT, PEER_HASH_MISMATCH, Valid;
    var s' := OnPeer(s, m).0;
    assert s' == s.(accepted := s'.accepted, acked := s'.acked, peerConfirmed := s'.peerConfirmed, failed := s'.failed);
    assert s.accepted ==> s'.accepted;
    assert s.acked <= s'.acked <= s'.nextOffset && s'.acked <= |s.src|;
    hide OnPeer;
  }

  /** The same transfer, with no less of it acked. */
  ghost predicate Onward(s: Sender, s': Sender) {
    s'.src == s.src && s'.id == s.id && s'.name == s.name && s.acked <= s'.acked
  }

  lemma StepInv(sha: Hasher, s: Sender, e: Event)
    requires SenderInv(sha, s)
    ensures SenderInv(sha, Step(sha, s, e).0) && Onward(s, Step(sha, s, e).0)
  {
    hide Poll, OnPeer, Onward;
    match e
    case PollNow => PollInv(sha, s);
    case Peer(m) => OnPeerInv(sha, s, m);
  }

  /** Any calls in any order, with everything handed out so far. */
  ghost function Run(sha: Hasher, s: Sender, events: seq<Event>): (r: (Sender, seq<Message>))
    requires SenderInv(sha, s)
    ensures SenderInv(sha, r.0)
    decreases |events|
  {
    if events == [] then (s, [])
    else
      var last := |events| - 1;
      var (s1, sent) := Run(sha, s, events[..last]);
      StepInv(sha, s1, events[last]);
      var (s2, more) := Step(sha, s1, events[last]);
      (s2, sent + more)
  }

  /** Everything a sender that has reached state `s` has ever sent. */
  ghost predicate SentSoFar(sha: Hasher, s: Sender, sent: seq<Message>, tiles: seq<Message>) {
    && Tiles(tiles, s.id, s.src, 0, s.nextOffset)
    && sent == (if s.offered then [FileOffer(s.id, s.name, |s.src|)] else [])
               + tiles
               + (if s.completeSent then [FileComplete(s.id, sha(s.src))] else [])
  }

  lemma PollSent(sha: Hasher, s: Sender, sent: seq<Message>, tiles: seq<Message>) returns (tiles': seq<Message>)
    requires SenderInv(sha, s) && SentSoFar(sha, s, sent, tiles)
    ensures var (s', more) := Poll(sha, s);
            SentSoFar(sha, s', sent + more, tiles')
  {
    hide Tiles, Chunks;
    tiles' := tiles;
    PollInv(sha, s);
    var (s', more) := Poll(sha, s);
    if s.failed.Some? || s.completeSent || (s.offered && !s.accepted) {
      assert sent + more == sent;
    } else if !s.offered {
      NoTiles(tiles, s.id, s.src);
      assert sent + more == more;
    } else {
      var chunks := Chunks(s.id, s.src, s.nextOffset, Limit(s));
      ChunksTile(s.id, s.src, s.nextOffset, Limit(s));
      tiles' := tiles + chunks;
      TilesAppend(tiles, chunks, s.id, s.src, 0, s.nextOffset, Limit(s));
      var offer := [FileOffer(s.id, s.name, |s.src|)];
      assert sent == offer + tiles;
      assert more == chunks + (if s'.completeSent then [FileComplete(s.id, sha(s.src))] else []);
    }
  }

  lemma NoTiles(tiles: seq<Message>, id: u32, src: file)
    requires Tiles(tiles, id, src, 0, 0)
    ensures tiles == []
  {
    if tiles != [] {
      TilesPayload(tiles[1..], id, src, |tiles[0].data|, 0);
    }
  }

  lemma OnPeerSent(sha: Hasher, s: Sender, sent: seq<Message>, tiles: seq<Message>, m: Message)
    requires SenderInv(sha, s) && SentSoFar(sha, s, sent, tiles)
    ensures SentSoFar(sha, OnPeer(s, m).0, sent, tiles)
  {
    hide Tiles;
  }

  lemma StepSent(sha: Hasher, s: Sender, sent: seq<Message>, tiles: seq<Message>, e: Event) returns (tiles': seq<Message>)
    requires SenderInv(sha, s) && SentSoFar(sha, s, sent, tiles)
    ensures var (s', more) := Step(sha, s, e);
            SentSoFar(sha, s', sent + more, tiles')
  {
    hide Poll, OnPeer, SentSoFar;
    match e
    case PollNow => tiles' := PollSent(sha, s, sent, tiles);
    case Peer(m) =>
      tiles' := tiles;
      OnPeerSent(sha, s, sent, tiles, m);
      assert sent + [] == sent;
  }

  lemma {:induction false} RunSent(sha: Hasher, s0: Sender, events: seq<Event>) returns (tiles: seq<Message>)
    requires SenderInv(sha, s0) && SentSoFar(sha, s0, [], [])
    ensures var (s, sent) := Run(sha, s0, events);
            Onward(s0, s) && SentSoFar(sha, s, sent, tiles)
    decreases |events|
  {
    hide Step, SentSoFar, SenderInv;
    if events == [] {
      tiles := [];
    } else {
      var last := |events| - 1;
      var before := RunSent(sha, s0, events[..last]);
      var (s1, sent) := Run(sha, s0, events[..last]);
      StepInv(sha, s1, events[last]);
      tiles := StepSent(sha, s1, sent, before, events[last]);
    }
  }

  lemma OpenSent(sha: Hasher, id: u32, fileName: Option<Text>, src: file)
    ensures SenderInv(sha, Open(id, fileName, src)) && SentSoFar(sha, Open(id, fileName, src), [], [])
  {
  }

  /**
    Whatever a peer answers and whenever the sender is polled: it has sent at
    most one offer, then its file in order and without a gap up to the next
    offset, then at most one completion, and only once every byte was acked,
    with the hash of the whole file.
    */
  lemma AnyPeer(sha: Hasher, id: u32, fileName: Option<Text>, src: file, events: seq<Event>)
    ensures SenderInv(sha, Open(id, fileName, src))
    ensures var (s, sent) := Run(sha, Open(id, fileName, src), events);
            && s.acked <= s.nextOffset <= |src|
            && s.nextOffset - s.acked <= 65536
            && Payload(sent) == src[..s.nextOffset]
            && (s.completeSent ==> s.accepted && s.acked == |src|)
            && exists tiles :: SentSoFar(sha, s, sent, tiles)
  {
    OpenSent(sha, id, fileName, src);
    hide Run;
    var s0 := Open(id, fileName, src);
    var (s, sent) := Run(sha, s0, events);
    var tiles := RunSent(sha, s0, events);
    hide Open;
    TilesPayload(tiles, id, src, 0, s.nextOffset);
    var offer := if s.offered then [FileOffer(s.id, s.name, |src|)] else [];
    var done := if s.completeSent then [FileComplete(s.id, sha(src))] else [];
    PayloadAppend(offer + tiles, done);
    PayloadAppend(offer, tiles);
  }

  lemma {:induction false} PayloadAppend(a: seq<Message>, b: seq<Message>)
    ensures Payload(a + b) == Payload(a) + Payload(b)
    decreases |a|
  {
    if a == [] {
      assert a + b == b;
    } else {
      var all := a + b;
      PayloadAppend(a[1..], b);
      assert all[0] == a[0] && all[1..] == a[1..] + b;
      var head := if a[0].FileChunk? then a[0].data else [];
      assert Payload(all) == head + Payload(all[1..]) && Payload(a) == head + Payload(a[1..]);
      hide Payload;
      AppendThree(head, Payload(a[1..]), Payload(b));
    }
  }

  /** Acks only move forward: a later state of the same run has acked no less. */
  lemma {:induction false} AckedGrows(sha: Hasher, s: Sender, before: seq<Event>, after: seq<Event>)
    requires SenderInv(sha, s)
    ensures Run(sha, s, before).0.acked <= Run(sha, s, before + after).0.acked
    decreases |after|
  {
    hide Step, SenderInv;
    if after == [] {
      assert before + after == before;
    } else {
      var n := |after| - 1;
      AckedGrows(sha, s, before, after[..n]);
      var all := before + after;
      assert all[..|all| - 1] == before + after[..n];
      StepInv(sha, Run(sha, s, before + after[..n]).0, after[n]);
    }
  }

  /**
    A peer may confirm a transfer it never finished: before the sender has
    sent its own hash, any hash confirms. Afterwards only the right one does.
    */
  lemma ConfirmedExactly(sha: Hasher, s: Sender, sha256: Digest)
    requires SenderInv(sha, s) && !s.peerConfirmed
    ensures OnPeer(s, FileComplete(s.id, sha256)).0.peerConfirmed <==> !s.completeSent || sha256 == sha(s.src)
  {
  }

  /** A transfer that has sent nothing but its offer is confirmed by a completion with any hash. */
  lemma ConfirmedUnsent(sha: Hasher, id: u32, fileName: Option<Text>, src: file, sha256: Digest)
    ensures var (s, out) := Poll(sha, Open(id, fileName, src));
            && out == [FileOffer(id, s.name, |src|)]
            && OnPeer(s, FileComplete(id, sha256)) == (s.(peerConfirmed := true), Good(true))
  {
    hide Sanitize;
  }
}
