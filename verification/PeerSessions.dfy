/**
  What an arbitrary peer can do to the download directory in a whole session:
  any number of offers and any other messages, while files also go out.
  */
module PeerSessions {
  import opened Bytes
  import opened Utf8
  import opened Wire
  import opened FileNames
  import opened FileSending
  import opened FileReceiving
  import opened Dispatching

  /** The same contents under a name, or none in both. */
  predicate Same(a: Dir, b: Dir, p: bytes) {
    (p in a <==> p in b) && (p in a ==> a[p] == b[p])
  }

  ghost predicate IsPartial(p: bytes) {
    exists name: bytes, id: u32 :: Clean(name) && p == PartialName(name, id)
  }

  /** A completion that was read announced the hash of these bytes. */
  ghost predicate Announced(sha: Hasher, data: bytes, calls: seq<Call>) {
    exists id: u32 :: Read(FileComplete(id, sha(data))) in calls
  }

  /** The partial file of the transfer under way. */
  predicate UnderWay(t: Transfers, p: bytes) {
    t.incoming.Some? && t.incoming.value.Active() && t.incoming.value.Temp() == p
  }

  /** How a name came to be as it is. */
  ghost predicate Accounted(sha: Hasher, dir0: Dir, t: Transfers, dir: Dir, calls: seq<Call>, p: bytes) {
    || Same(dir0, dir, p)
    || (IsPartial(p) && (p in dir ==> UnderWay(t, p)))
    || (Clean(p) && p in dir && Announced(sha, dir[p], calls))
  }

  ghost predicate SessionInv(sha: Hasher, dir0: Dir, t: Transfers, dir: Dir, calls: seq<Call>) {
    && Ready(t)
    && (t.incoming.Some? ==> ReceiverInv(t.incoming.value, dir) && !t.incoming.value.done)
    && forall p: bytes :: Accounted(sha, dir0, t, dir, calls, p)
  }

  /** What one message leaves of the incoming transfer and the directory. */
  ghost predicate Changed(sha: Hasher, rx: Option<Receiver>, dir: Dir, m: Message, rx': Option<Receiver>, dir': Dir, p: bytes) {
    || Same(dir, dir', p)
    || (IsPartial(p) && (p in dir' ==> UnderWay(Transfers(None, rx'), p)))
    || (Clean(p) && p in dir' && m.FileComplete? && m.sha256 == sha(dir'[p]))
  }

  lemma OfferChanges(sha: Hasher, dir: Dir, m: Message, p: bytes)
    requires m.FileOffer?
    ensures var (rx', dir', _) := Incoming(sha, None, dir, m);
            && rx'.Some? && ReceiverInv(rx'.value, dir') && !rx'.value.done
            && Changed(sha, None, dir, m, rx', dir', p)
  {
    SanitizeClean(m.name);
    AcceptKept(dir, m.id, m.name, m.size);
    hide Sanitize, PartialName, Clean;
    if p == PartialName(Sanitize(m.name), m.id) {
      assert IsPartial(p);
    }
  }

  lemma HandleChanges(sha: Hasher, r: Receiver, dir: Dir, m: Message, p: bytes)
    requires ReceiverInv(r, dir) && !r.done && !m.FileOffer?
    ensures var (rx', dir', _) := Incoming(sha, Some(r), dir, m);
            && (rx'.Some? ==> ReceiverInv(rx'.value, dir') && !rx'.value.done)
            && Changed(sha, Some(r), dir, m, rx', dir', p)
            && (rx'.Some? ==> rx'.value.Temp() == r.Temp() && (r.failed.Some? ==> rx' == Some(r)))
            && (rx'.None? || !rx'.value.Active() ==> r.Temp() !in dir')
  {
    HandleInv(sha, r, dir, m);
    HandleKeepsOthers(sha, r, dir, dir, m);
    HandleData(sha, r, dir, m);
    HandleCleans(sha, r, dir, m);
    var (r', dir', _) := FileReceiving.Handle(sha, r, dir, m);
    hide Handle, PartialName, Clean;
    if p == r.Temp() {
      assert IsPartial(p);
    } else if p != r.name || !r'.done {
      OthersSame(r', dir, dir', p);
    }
  }

  /** An error leaves no partial file. */
  lemma HandleCleans(sha: Hasher, r: Receiver, dir: Dir, m: Message)
    requires ReceiverInv(r, dir)
    ensures var (r', dir', out) := FileReceiving.Handle(sha, r, dir, m);
            && (out.Bad? ==> r'.failed.Some? && !r'.done)
            && r'.Temp() == r.Temp()
  {
    hide PartialName, Clean, OUT_OF_ORDER, TOO_EARLY, HASH_MISMATCH, FILE_CLOSED, Append, Rename;
  }

  lemma OthersSame(r: Receiver, dir: Dir, dir': Dir, p: bytes)
    requires OthersKept(r, dir, dir') && p != r.Temp() && (p != r.name || !r.done)
    ensures Same(dir, dir', p)
  {
    hide PartialName;
    if p != r.name {
      assert p in dir <==> p in dir - {r.Temp(), r.name};
      assert p in dir' <==> p in dir' - {r.Temp(), r.name};
    } else {
      assert p in dir <==> p in dir - {r.Temp()};
      assert p in dir' <==> p in dir' - {r.Temp()};
    }
  }

  lemma StepIncoming(sha: Hasher, dir0: Dir, t: Transfers, dir: Dir, calls: seq<Call>, m: Message, t': Transfers, dir': Dir)
    requires SessionInv(sha, dir0, t, dir, calls) && Ready(t')
    requires var (rx', dir1, _) := Incoming(sha, t.incoming, dir, m); t'.incoming == rx' && dir' == dir1
    ensures SessionInv(sha, dir0, t', dir', calls + [Read(m)])
  {
    hide Accounted, Changed, Handle, Accept, PartialName, Clean, ReceiverInv;
    if m.FileOffer? && t.incoming.None? {
      forall p: bytes ensures Accounted(sha, dir0, t', dir', calls + [Read(m)], p) {
        OfferChanges(sha, dir, m, p);
        assert Accounted(sha, dir0, t, dir, calls, p);
        AccountedStill(sha, dir0, t, dir, calls, m, t', dir', p);
      }
      OfferChanges(sha, dir, m, []);
    } else if !m.FileOffer? && t.incoming.Some? {
      forall p: bytes ensures Accounted(sha, dir0, t', dir', calls + [Read(m)], p) {
        HandleChanges(sha, t.incoming.value, dir, m, p);
        assert Accounted(sha, dir0, t, dir, calls, p);
        AccountedStill(sha, dir0, t, dir, calls, m, t', dir', p);
      }
      HandleChanges(sha, t.incoming.value, dir, m, []);
    } else {
      Untouched(sha, dir0, t, dir, calls, Read(m), t');
    }
  }

  lemma AccountedStill(
    sha: Hasher, dir0: Dir, t: Transfers, dir: Dir, calls: seq<Call>, m: Message, t': Transfers, dir': Dir, p: bytes)
    requires Accounted(sha, dir0, t, dir, calls, p) && Changed(sha, t.incoming, dir, m, t'.incoming, dir', p)
    requires UnderWay(t, p) ==> p !in dir' || UnderWay(t', p)
    ensures Accounted(sha, dir0, t', dir', calls + [Read(m)], p)
  {
    hide IsPartial, Clean, PartialName;
    var more := calls + [Read(m)];
    if p in dir && Announced(sha, dir[p], calls) {
      var id: u32 :| Read(FileComplete(id, sha(dir[p]))) in calls;
      assert Read(FileComplete(id, sha(dir[p]))) in more;
    }
    if m.FileComplete? {
      assert m == FileComplete(m.id, m.sha256) && Read(m) in more;
    }
  }

  /** The incoming side and the directory stay as they are. */
  lemma Untouched(sha: Hasher, dir0: Dir, t: Transfers, dir: Dir, calls: seq<Call>, c: Call, t': Transfers)
    requires SessionInv(sha, dir0, t, dir, calls) && Ready(t') && t'.incoming == t.incoming
    ensures SessionInv(sha, dir0, t', dir, calls + [c])
  {
    hide IsPartial, Clean, PartialName, ReceiverInv;
    var more := calls + [c];
    forall p: bytes ensures Accounted(sha, dir0, t', dir, more, p) {
      assert Accounted(sha, dir0, t, dir, calls, p);
      if p in dir && Announced(sha, dir[p], calls) {
        var id: u32 :| Read(FileComplete(id, sha(dir[p]))) in calls;
        assert Read(FileComplete(id, sha(dir[p]))) in more;
      }
    }
  }

  lemma ServeInv(sha: Hasher, dir0: Dir, t: Transfers, dir: Dir, calls: seq<Call>, c: Call)
    requires SessionInv(sha, dir0, t, dir, calls)
    ensures var (t', dir') := Serve(sha, t, dir, c);
            SessionInv(sha, dir0, t', dir', calls + [c])
  {
    var (t', dir') := Serve(sha, t, dir, c);
    hide Accounted, Poll, Open, Incoming, Outgoing, ReceiverInv;
    if c.Send? {
      Untouched(sha, dir0, t, dir, calls, c, t');
    } else {
      Routed(sha, t, dir, c.m);
      if Claimed(t, c.m) {
        Untouched(sha, dir0, t, dir, calls, c, t');
      } else {
        StepIncoming(sha, dir0, t, dir, calls, c.m, t', dir');
      }
    }
  }

  /**
    In any session, whatever the peer sends and however often it offers: a name
    that is not as it was before is either that of a partial file, and gone
    unless its transfer is the one under way, or a clean name, and holds bytes
    whose hash the peer announced. So at most one partial file is left of the
    session, and no file appears or changes without its hash.
    */
  lemma {:induction false} AnySession(sha: Hasher, dir0: Dir, calls: seq<Call>)
    ensures var (t, dir) := Through(sha, Transfers(None, None), dir0, calls);
            && SessionInv(sha, dir0, t, dir, calls)
            && forall p: bytes :: Accounted(sha, dir0, t, dir, calls, p)
    decreases |calls|
  {
    hide Serve, Accounted, ReceiverInv;
    if calls == [] {
      NothingYet(sha, dir0);
    } else {
      var n := |calls| - 1;
      AnySession(sha, dir0, calls[..n]);
      var (t, dir) := Through(sha, Transfers(None, None), dir0, calls[..n]);
      ServeInv(sha, dir0, t, dir, calls[..n], calls[n]);
      assert calls[..n] + [calls[n]] == calls;
    }
  }

  lemma NothingYet(sha: Hasher, dir0: Dir)
    ensures SessionInv(sha, dir0, Transfers(None, None), dir0, [])
  {
    hide IsPartial, Clean;
  }

  /** Two partial files that were not there before are one. */
  lemma OnePartialLeft(sha: Hasher, dir0: Dir, calls: seq<Call>, p: bytes, q: bytes)
    requires IsPartial(p) && IsPartial(q)
    ensures var dir := Through(sha, Transfers(None, None), dir0, calls).1;
            p in dir && q in dir && !Same(dir0, dir, p) && !Same(dir0, dir, q) ==> p == q
  {
    AnySession(sha, dir0, calls);
    PartialNotClean(p);
    PartialNotClean(q);
    var (t, dir) := Through(sha, Transfers(None, None), dir0, calls);
    hide Through, IsPartial, Clean, PartialName, ReceiverInv;
    assert Accounted(sha, dir0, t, dir, calls, p) && Accounted(sha, dir0, t, dir, calls, q);
  }

  lemma PartialNotClean(p: bytes)
    requires IsPartial(p)
    ensures !Clean(p)
  {
    var name: bytes, id: u32 :| Clean(name) && p == PartialName(name, id);
    assert p[0] == DOT;
  }
}
