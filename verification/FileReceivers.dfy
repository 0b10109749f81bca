/**
  `FileReceiver` as the program has it: fields and a directory updated in
  place. Every method does what the function of the same name in FileReceiving does.
  */
module FileReceivers {
  import opened Bytes
  import opened Utf8
  import opened Wire
  import opened FileNames
  import opened FileSending
  import opened FileReceiving

  /** The download directory on disk. */
  class Directory {
    var files: Dir

    constructor (files: Dir)
      ensures this.files == files
    {
      this.files := files;
    }
  }

  class FileReceiver {
    const sha: Hasher
    const directory: Directory
    const id: u32
    const name: Text
    const size: u64
    var received: nat
    var open: bool
    var hashed: bytes
    var done: bool
    var failed: Option<Text>

    ghost function State(): Receiver
      reads this
    {
      Receiver(id, name, size, received, open, hashed, done, failed)
    }

    ghost predicate Valid()
      reads this, directory
    {
      ReceiverInv(State(), directory.files)
    }

    /** `accept`; the reply is `FileAccept`. */
    constructor (sha: Hasher, directory: Directory, id: u32, name: Text, size: u64)
      modifies directory
      ensures Valid() && this.sha == sha && this.directory == directory
      ensures (State(), directory.files, FileAccept(id)) == Accept(old(directory.files), id, name, size)
    {
      SanitizeClean(name);
      this.sha := sha;
      this.directory := directory;
      this.id := id;
      this.name := Sanitize(name);
      this.size := size;
      received, open, hashed, done, failed := 0, true, [], false, None;
      new;
      directory.files := directory.files[PartialName(this.name, id) := []];
    }

    method Handle(m: Message) returns (r: Outcome<seq<Message>>)
      requires Valid()
      modifies this, directory
      ensures Valid()
      ensures (State(), directory.files, r) == FileReceiving.Handle(sha, old(State()), old(directory.files), m)
    {
      hide OUT_OF_ORDER, TOO_EARLY, HASH_MISMATCH, FILE_CLOSED, PartialName, ReceiverInv;
      HandleInv(sha, State(), directory.files, m);
      if failed.Some? || done {
        return Good([]);
      }
      match m
      case FileChunk(mid, offset, data) =>
        if mid != id {
          return Good([]);
        }
        if offset != received || received + |data| > size {
          r := Cancel(OUT_OF_ORDER);
          return;
        }
        if !open {
          return Bad(Failed(id, FILE_CLOSED));
        }
        directory.files := Append(directory.files, PartialName(name, id), data);
        hashed := hashed + data;
        received := received + |data|;
        r := Good([FileAck(id, received)]);
      case FileComplete(mid, sha256) =>
        if mid != id {
          return Good([]);
        }
        if received != size {
          r := Cancel(TOO_EARLY);
          return;
        }
        if sha(hashed) != sha256 {
          r := Cancel(HASH_MISMATCH);
          return Bad(HashMismatch(id));
        }
        open := false;
        directory.files := Rename(directory.files, PartialName(name, id), name);
        done := true;
        r := Good([FileComplete(id, sha256)]);
      case FileCancel(mid, reason) =>
        if mid != id {
          return Good([]);
        }
        Cleanup();
        failed := Some(reason);
        r := Bad(Failed(id, reason));
      case _ =>
        r := Good([]);
    }

    method Cancel(reason: Text) returns (r: Outcome<seq<Message>>)
      modifies this, directory
      ensures (State(), directory.files, r) == FileReceiving.Cancel(old(State()), old(directory.files), reason)
    {
      Cleanup();
      failed := Some(reason);
      r := Good([FileCancel(id, reason)]);
    }

    method Cleanup()
      modifies this, directory
      ensures State() == old(State()).(open := false)
      ensures directory.files == old(directory.files) - {PartialName(name, id)}
    {
      open := false;
      directory.files := directory.files - {PartialName(name, id)};
    }
  }
}
