/**
  `FileSender` as the program has it: fields updated in place. Every method is
  proved to do what the function of the same name in FileSending does.
  */
module FileSenders {
  import opened Bytes
  import opened Utf8
  import opened Wire
  import opened FileNames
  import opened FileSending

  class FileSender {
    const sha: Hasher
    const id: u32
    const name: Text
    const src: file
    var nextOffset: nat
    var acked: nat
    var offered: bool
    var accepted: bool
    var hashed: bytes
    var hash: Option<Digest>
    var completeSent: bool
    var peerConfirmed: bool
    var failed: Option<Text>

    ghost function State(): Sender
      reads this
    {
      Sender(id, name, src, nextOffset, acked, offered, accepted, hashed, hash, completeSent, peerConfirmed, failed)
    }

    ghost predicate Valid()
      reads this
    {
      SenderInv(sha, State())
    }

    constructor (sha: Hasher, id: u32, fileName: Option<Text>, src: file)
      ensures Valid() && State() == FileSending.Open(id, fileName, src) && this.sha == sha
    {
      var raw := match fileName case Some(t) => t case None => FALLBACK;
      SanitizeClean(raw);
      this.sha := sha;
      this.id := id;
      this.name := Sanitize(raw);
      this.src := src;
      nextOffset, acked := 0, 0;
      offered, accepted := false, false;
      hashed, hash := [], None;
      completeSent, peerConfirmed, failed := false, false, None;
    }

    method Poll() returns (out: seq<Message>)
      requires Valid()
      modifies this
      ensures Valid() && (State(), out) == FileSending.Poll(sha, old(State()))
    {
      PollInv(sha, State());
      out := [];
      if failed.Some? || completeSent {
        return;
      }
      if !offered {
        offered := true;
        return [FileOffer(id, name, |src|)];
      }
      if !accepted {
        return;
      }
      if |src| == 0 {
        assert hashed + src[0..0] == hashed;
        out := [];
        var done := FinishHash();
        out := out + [done];
        return;
      }
      out := FillWindow();
      if acked == |src| && !completeSent {
        var done := FinishHash();
        out := out + [done];
      }
    }

    /** The loop of `poll`: reads and hashes chunks while the window has room. */
    method ReadChunks() returns (out: seq<Message>)
      requires Valid()
      modifies this`nextOffset, this`hashed
      ensures nextOffset == Limit(old(State()))
      ensures hashed == old(hashed) + src[old(nextOffset)..nextOffset]
      ensures out == Chunks(id, src, old(nextOffset), nextOffset)
    {
      hide Chunks;
      out := [];
      ghost var lo, hi, before := nextOffset, Limit(State()), hashed;
      assert src[lo..lo] == [];
      while nextOffset < |src| && nextOffset - acked < FILE_WINDOW_BYTES
        invariant lo <= nextOffset <= hi <= |src|
        invariant hashed == before + src[lo..nextOffset]
        invariant out + Chunks(id, src, nextOffset, hi) == Chunks(id, src, lo, hi)
        decreases |src| - nextOffset
      {
        var room := FILE_WINDOW_BYTES - (nextOffset - acked);
        var n := Min(Min(room, FILE_CHUNK_SIZE), |src| - nextOffset);
        var buf := src[nextOffset..nextOffset + n];
        assert n == Min(FILE_CHUNK_SIZE, hi - nextOffset);
        ChunksStep(out, id, src, nextOffset, hi);
        AppendSlice(before, src, lo, nextOffset, nextOffset + n);
        hashed := hashed + buf;
        out := out + [FileChunk(id, nextOffset, buf)];
        nextOffset := nextOffset + n;
      }
      NoChunks(id, src, hi);
    }

    /** What the loop comes to: the window is filled to its edge or the file ends, in full chunks and a shorter last one. */
    method FillWindow() returns (out: seq<Message>)
      requires Valid()
      modifies this`nextOffset, this`hashed
      ensures nextOffset == Limit(old(State())) == Max(old(nextOffset), Min(|src|, acked + 65536))
      ensures hashed == old(hashed) + src[old(nextOffset)..nextOffset]
      ensures out == Chunks(id, src, old(nextOffset), nextOffset)
      ensures forall m :: m in out ==>
                m.FileChunk? && (|m.data| == 16384 || (|m.data| < 16384 && m.offset + |m.data| == nextOffset))
    {
      out := ReadChunks();
      ChunkSizes(id, src, old(nextOffset), nextOffset);
      hide Chunks, SenderInv;
    }

    /** `finish_hash`, `complete_message` and the flag set after them. */
    method FinishHash() returns (done: Message)
      modifies this
      ensures (State(), done) == Complete(sha, old(State()))
    {
      if hash == None {
        hash := Some(sha(hashed));
      }
      completeSent := true;
      done := FileComplete(id, hash.value);
    }

    method OnPeer(m: Message) returns (r: Outcome<bool>)
      requires Valid()
      modifies this
      ensures Valid() && (State(), r) == FileSending.OnPeer(old(State()), m)
    {
      OnPeerInv(sha, State(), m);
      hide SenderInv, ACK_PAST_SENT, PEER_HASH_MISMATCH;
      match m
      case FileAccept(mid) =>
        if mid != id {
          return Good(false);
        }
        accepted := true;
        r := Good(true);
      case FileAck(mid, offset) =>
        if mid != id {
          return Good(false);
        }
        if offset < acked {
          return Good(true);
        }
        if offset > nextOffset || offset > |src| {
          failed := Some(ACK_PAST_SENT);
          return Bad(Failed(id, ACK_PAST_SENT));
        }
        acked := offset;
        r := Good(true);
      case FileComplete(mid, sha256) =>
        if mid != id {
          return Good(false);
        }
        if hash.Some? && hash.value != sha256 {
          failed := Some(PEER_HASH_MISMATCH);
          return Bad(HashMismatch(id));
        }
        peerConfirmed := true;
        r := Good(true);
      case FileCancel(mid, reason) =>
        if mid != id {
          return Good(false);
        }
        failed := Some(reason);
        r := Bad(Failed(id, reason));
      case _ =>
        r := Good(false);
    }
  }
}
