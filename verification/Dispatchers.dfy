/**
  The dispatcher as the program has it: two slots for transfer objects that
  are filled, updated and freed in place.
  */
module Dispatchers {
  import opened Bytes
  import opened Utf8
  import opened Wire
  import opened FileSending
  import opened FileSenders
  import opened FileReceiving
  import opened FileReceivers
  import opened Dispatching

  class TransferSlots {
    const sha: Hasher
    const directory: Directory
    var outgoing: FileSender?
    var incoming: FileReceiver?

    ghost predicate Valid()
      reads this, outgoing, incoming, directory
    {
      && (outgoing != null ==> outgoing.sha == sha && outgoing.Valid())
      && (incoming != null ==> incoming.sha == sha && incoming.directory == directory && incoming.Valid())
    }

    ghost function State(): Transfers
      reads this, outgoing, incoming
    {
      Transfers(if outgoing == null then None else Some(outgoing.State()),
                if incoming == null then None else Some(incoming.State()))
    }

    constructor (sha: Hasher, directory: Directory)
      ensures Valid() && State() == Transfers(None, None)
      ensures this.sha == sha && this.directory == directory
    {
      this.sha, this.directory := sha, directory;
      outgoing, incoming := null, null;
    }

    /** `take_file_replies` and `take_file`. */
    method TakeFileReplies(m: Message) returns (r: Outcome<seq<Message>>)
      requires Valid()
      modifies this, outgoing, incoming, directory
      ensures Valid()
      ensures (State(), directory.files, r) == Dispatch(sha, old(State()), old(directory.files), m)
    {
      hide SenderInv, ReceiverInv, FileSending.OnPeer, FileSending.Poll, FileReceiving.Handle, Accept;
      if outgoing != null {
        ghost var s := outgoing.State();
        var mine := outgoing.OnPeer(m);
        if mine.Bad? {
          outgoing := null;
          return Bad(mine.error);
        }
        if mine.value {
          var replies := outgoing.Poll();
          if outgoing.peerConfirmed {
            outgoing := null;
          }
          return Good(replies);
        }
      }
      r := TakeIncoming(m);
    }

    /** The rest of `take_file_replies`, for what the outgoing transfer left alone. */
    method TakeIncoming(m: Message) returns (r: Outcome<seq<Message>>)
      requires Valid()
      modifies this`incoming, incoming, directory
      ensures Valid() && State().outgoing == old(State().outgoing)
      ensures (State().incoming, directory.files, r) == Incoming(sha, old(State().incoming), old(directory.files), m)
    {
      hide SenderInv, ReceiverInv, FileReceiving.Handle, Accept, ALREADY_INCOMING;
      if m.FileOffer? {
        if incoming != null {
          return Good([FileCancel(m.id, ALREADY_INCOMING)]);
        }
        incoming := new FileReceiver(sha, directory, m.id, m.name, m.size);
        return Good([FileAccept(m.id)]);
      }
      if incoming == null {
        return Good([]);
      }
      r := incoming.Handle(m);
      if r.Bad? || incoming.done {
        incoming := null;
      }
    }

    /** `queue_send`: one file at a time. */
    method QueueSend(ids: IdCounter, host: bool, fileName: Option<Text>, src: file) returns (r: Option<seq<Message>>)
      requires Valid()
      modifies this`outgoing, ids
      ensures Valid() && State().incoming == old(State().incoming)
      ensures old(outgoing) != null ==> r == None && State() == old(State())
      ensures old(outgoing) == null ==>
                var (s, out) := FileSending.Poll(sha, Open(TransferId(host, old(ids.next)), fileName, src));
                r == Some(out) && State().outgoing == Some(s)
    {
      hide SenderInv, ReceiverInv, FileSending.Poll, Open;
      if outgoing != null {
        return None;
      }
      var id := ids.Next(host);
      var sender := new FileSender(sha, id, fileName, src);
      var out := sender.Poll();
      outgoing := sender;
      r := Some(out);
    }
  }

  /** The process-wide counter behind transfer ids; it wraps. */
  class IdCounter {
    var next: u32

    constructor ()
      ensures next == 1
    {
      next := 1;
    }

    method Next(host: bool) returns (id: u32)
      modifies this
      ensures id == TransferId(host, old(next)) && IsHostId(id) == host
      ensures next == (old(next) + 1) % 0x1_0000_0000
    {
      id := next % HOST_BIT;
      if host {
        id := id + HOST_BIT;
      }
      next := (next + 1) % 0x1_0000_0000;
    }
  }
}
