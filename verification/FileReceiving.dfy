/**
  The receiving half of a file transfer: `FileReceiver` as a state, its
  operations on the download directory, and what every peer can make it do.
  */
module FileReceiving {
  import opened Bytes
  import opened Utf8
  import opened Wire
  import opened FileNames
  import opened FileSending

  /** The download directory: the contents under each name. */
  type Dir = map<bytes, bytes>

  const OUT_OF_ORDER: Text := Ascii("chunk out of order")
  const TOO_EARLY: Text := Ascii("complete before all bytes")
  const HASH_MISMATCH: Text := Ascii("hash mismatch")
  const FILE_CLOSED: Text := Ascii("receiver file closed")

  datatype Receiver = Receiver(
    id: u32, name: Text, size: u64, received: nat, open: bool, hashed: bytes, done: bool, failed: Option<Text>)
  {
    /** The partial file. */
    function Temp(): bytes {
      PartialName(name, id)
    }

    predicate Active() {
      !done && failed.None?
    }
  }

  /** Appending through an open handle. */
  function Append(dir: Dir, path: bytes, data: bytes): Dir {
    if path in dir then dir[path := dir[path] + data] else dir
  }

  /** `fs::rename`, which replaces what was under the new name. */
  function Rename(dir: Dir, source: bytes, target: bytes): Dir {
    if source in dir then (dir - {source})[target := dir[source]] else dir
  }

  /** `FileReceiver::accept`. */
  function Accept(dir: Dir, id: u32, name: Text, size: u64): (Receiver, Dir, Message) {
    SanitizeClean(name);
    var r := Receiver(id, Sanitize(name), size, 0, true, [], false, None);
    (r, dir[r.Temp() := []], FileAccept(id))
  }

  /** `cancel`, with the `cleanup` it starts with. */
  function Cancel(r: Receiver, dir: Dir, reason: Text): (Receiver, Dir, Outcome<seq<Message>>) {
    (r.(open := false, failed := Some(reason)), dir - {r.Temp()}, Good([FileCancel(r.id, reason)]))
  }

  /** `FileReceiver::handle`. */
  function Handle(sha: Hasher, r: Receiver, dir: Dir, m: Message): (Receiver, Dir, Outcome<seq<Message>>) {
    if !r.Active() then (r, dir, Good([]))
    else
      match m
      case FileChunk(id, offset, data) =>
        if id != r.id then (r, dir, Good([]))
        else if offset != r.received || r.received + |data| > r.size then Cancel(r, dir, OUT_OF_ORDER)
        else if !r.open then (r, dir, Bad(Failed(r.id, FILE_CLOSED)))
        else (r.(hashed := r.hashed + data, received := r.received + |data|),
              Append(dir, r.Temp(), data),
              Good([FileAck(r.id, r.received + |data|)]))
      case FileComplete(id, sha256) =>
        if id != r.id then (r, dir, Good([]))
        else if r.received != r.size then Cancel(r, dir, TOO_EARLY)
        else if sha(r.hashed) != sha256 then
          var (r', dir', _) := Cancel(r, dir, HASH_MISMATCH);
          (r', dir', Bad(HashMismatch(r.id)))
        else (r.(open := false, done := true), Rename(dir, r.Temp(), r.name), Good([FileComplete(r.id, sha256)]))
      case FileCancel(id, reason) =>
        if id != r.id then (r, dir, Good([]))
        else
          var (r', dir', _) := Cancel(r, dir, reason);
          (r', dir', Bad(Failed(r.id, reason)))
      case _ => (r, dir, Good([]))
  }

  // ------------------------------------------- against an arbitrary peer

  /** What every receiver keeps, whatever the peer sends. */
  ghost predicate ReceiverInv(r: Receiver, dir: Dir) {
    && Clean(r.name)
    && r.received == |r.hashed| <= r.size
    && (r.Active() ==> r.open && r.Temp() in dir && dir[r.Temp()] == r.hashed)
    && (!r.Active() ==> !r.open && r.Temp() !in dir)
    && (r.done ==> r.failed.None? && r.received == r.size && r.name in dir && dir[r.name] == r.hashed)
  }

  lemma HandleInv(sha: Hasher, r: Receiver, dir: Dir, m: Message)
    requires ReceiverInv(r, dir)
    ensures var (r', dir', _) := Handle(sha, r, dir, m);
            ReceiverInv(r', dir') && r'.id == r.id && r'.name == r.name && r'.size == r.size
  {
    hide PartialName, Clean, OUT_OF_ORDER, TOO_EARLY, HASH_MISMATCH, FILE_CLOSED;
    PartialNotFinal(r.name, r.id, r.name);
  }

  /** What a receiver that cancels tells its peer. */
  lemma CancelReasons(sha: Hasher, r: Receiver, dir: Dir, offset: u64, data: bytes, sha256: Digest)
    requires r.Active()
    ensures offset != r.received || r.received + |data| > r.size ==>
              Handle(sha, r, dir, FileChunk(r.id, offset, data))
              == (r.(open := false, failed := Some(Ascii("chunk out of order"))), dir - {r.Temp()},
                  Good([FileCancel(r.id, Ascii("chunk out of order"))]))
    ensures r.received != r.size ==>
              Handle(sha, r, dir, FileComplete(r.id, sha256))
              == (r.(open := false, failed := Some(Ascii("complete before all bytes"))), dir - {r.Temp()},
                  Good([FileCancel(r.id, Ascii("complete before all bytes"))]))
    ensures r.received == r.size && sha(r.hashed) != sha256 ==>
              Handle(sha, r, dir, FileComplete(r.id, sha256))
              == (r.(open := false, failed := Some(Ascii("hash mismatch"))), dir - {r.Temp()}, Bad(HashMismatch(r.id)))
  {
    hide PartialName, Ascii;
  }

  /** The messages a receiver is given, and everything it answers. */
  ghost function Run(sha: Hasher, r: Receiver, dir: Dir, ms: seq<Message>): (x: (Receiver, Dir, seq<Outcome<seq<Message>>>))
    ensures |x.2| == |ms|
    decreases |ms|
  {
    if ms == [] then (r, dir, [])
    else
      var n := |ms| - 1;
      var (r1, dir1, answers) := Run(sha, r, dir, ms[..n]);
      var (r2, dir2, answer) := Handle(sha, r1, dir1, ms[n]);
      (r2, dir2, answers + [answer])
  }

  /** The data of a chunk that was answered with an ack. */
  ghost function Acked(m: Message, answer: Outcome<seq<Message>>): bytes {
    if m.FileChunk? && answer.Good? && |answer.value| == 1 && answer.value[0].FileAck? then m.data else []
  }

  ghost function AckedData(ms: seq<Message>, answers: seq<Outcome<seq<Message>>>): bytes
    requires |ms| == |answers|
    decreases |ms|
  {
    if ms == [] then []
    else
      var n := |ms| - 1;
      AckedData(ms[..n], answers[..n]) + Acked(ms[n], answers[n])
  }

  /** Only the partial file and, once complete, the final one are touched. */
  ghost predicate OthersKept(r: Receiver, dir0: Dir, dir: Dir) {
    && dir - {r.Temp(), r.name} == dir0 - {r.Temp(), r.name}
    && (!r.done ==> dir - {r.Temp()} == dir0 - {r.Temp()})
  }

  lemma HandleKeepsOthers(sha: Hasher, r: Receiver, dir0: Dir, dir: Dir, m: Message)
    requires ReceiverInv(r, dir) && OthersKept(r, dir0, dir)
    ensures var (r', dir', _) := Handle(sha, r, dir, m);
            OthersKept(r', dir0, dir')
  {
    hide PartialName, Clean, OUT_OF_ORDER, TOO_EARLY, HASH_MISMATCH, FILE_CLOSED;
    PartialNotFinal(r.name, r.id, r.name);
  }

  lemma HandleData(sha: Hasher, r: Receiver, dir: Dir, m: Message)
    requires ReceiverInv(r, dir)
    ensures var (r', _, answer) := Handle(sha, r, dir, m);
            && r'.hashed == r.hashed + Acked(m, answer)
            && (r'.done ==> r.done || m == FileComplete(r.id, sha(r'.hashed)))
  {
    hide PartialName, Clean, OUT_OF_ORDER, TOO_EARLY, HASH_MISMATCH, FILE_CLOSED, Append, Rename;
  }

  /**
    Whatever a peer sends after the offer was accepted: the partial file is
    the data of the acked chunks, never longer than the size offered. The
    final name changes only when all bytes are there and their hash is the
    one announced, and then holds exactly them. No other file is touched, and
    a failed transfer leaves no partial file.
    */
  lemma {:induction false} AnyPeer(sha: Hasher, dir0: Dir, id: u32, name: Text, size: u64, ms: seq<Message>)
    ensures var (r0, dir1, _) := Accept(dir0, id, name, size);
            var (r, dir, answers) := Run(sha, r0, dir1, ms);
            && r.id == id && r.name == Sanitize(name) && r.size == size
            && ReceiverInv(r, dir)
            && r.hashed == AckedData(ms, answers)
            && OthersKept(r, dir0, dir)
            && (r.done ==> FileComplete(id, sha(dir[r.name])) in ms)
    decreases |ms|
  {
    hide Handle, OthersKept, Acked;
    var (r0, dir1, _) := Accept(dir0, id, name, size);
    if ms == [] {
      AcceptKept(dir0, id, name, size);
    } else {
      var n := |ms| - 1;
      AnyPeer(sha, dir0, id, name, size, ms[..n]);
      var (r1, dir1', answers) := Run(sha, r0, dir1, ms[..n]);
      var (r2, dir2, answer) := Handle(sha, r1, dir1', ms[n]);
      HandleInv(sha, r1, dir1', ms[n]);
      HandleKeepsOthers(sha, r1, dir0, dir1', ms[n]);
      HandleData(sha, r1, dir1', ms[n]);
      assert (answers + [answer])[..n] == answers;
      if r1.done {
        DoneAbsorbs(sha, r1, dir1', ms[n]);
        assert FileComplete(id, sha(dir1'[r1.name])) in ms[..n];
      }
    }
  }

  lemma AcceptKept(dir0: Dir, id: u32, name: Text, size: u64)
    ensures var (r, dir, _) := Accept(dir0, id, name, size);
            ReceiverInv(r, dir) && OthersKept(r, dir0, dir)
  {
    SanitizeClean(name);
    hide Sanitize, PartialName, Clean;
  }

  /** A finished or failed transfer reacts to nothing. */
  lemma DoneAbsorbs(sha: Hasher, r: Receiver, dir: Dir, m: Message)
    requires !r.Active()
    ensures Handle(sha, r, dir, m) == (r, dir, Good([]))
  {
  }
}
