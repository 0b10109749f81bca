/**
  Length-prefixed messages on a byte stream: `write_message` and
  `read_message`, and what a reader sees of a stream cut at any byte.
  */
module Framing {
  import opened Bytes
  import opened Wire
  import opened WireIo
  import opened ByteVecs

  /** `write_message` refuses a message whose encoding is larger than a frame. */
  predicate Fits(m: Message) {
    |Encode(m)| <= MAX_FRAME_BYTES
  }

  function Frame(m: Message): bytes {
    ToLE(|Encode(m)|, 4) + Encode(m)
  }

  /** What a writer leaves on the stream for a list of messages. */
  function Stream(ms: seq<Message>): bytes {
    if ms == [] then [] else Frame(ms[0]) + Stream(ms[1..])
  }

  /** One `read_message` on the bytes that are left before end of file. */
  function ReadOne(s: bytes): (Result<Message>, bytes) {
    if |s| < 4 then (Err(Closed), [])
    else
      Ranges();
      FromLEBound(s[..4]);
      var len: u32 := FromLE(s[..4]);
      if len == 0 || len > MAX_FRAME_BYTES then (Err(BadLength(len)), s[4..])
      else if |s| - 4 < len then (Err(Io), [])
      else (Decode(s[4..4 + len]), s[4 + len..])
  }

  /** Reads until the first error, as both session loops do. */
  function ReadAll(s: bytes): (seq<Message>, ProtocolError)
    decreases |s|
  {
    var (r, rest) := ReadOne(s);
    match r
    case Err(e) => ([], e)
    case Ok(m) =>
      var (ms, e) := ReadAll(rest);
      ([m] + ms, e)
  }

  // --------------------------------------------------------- the program

  /** The reading half of a connection that will deliver `pending` and then end. */
  class ByteStream {
    var pending: bytes

    constructor (s: bytes)
      ensures pending == s
    {
      pending := s;
    }

    /** Fills a buffer of `n` bytes, or meets end of file and has used up the rest. */
    method ReadExact(n: nat) returns (r: Option<bytes>)
      modifies this
      ensures n <= |old(pending)| ==> r == Some(old(pending)[..n]) && pending == old(pending)[n..]
      ensures n > |old(pending)| ==> r == None && pending == []
    {
      if n > |pending| {
        pending := [];
        return None;
      }
      r := Some(pending[..n]);
      pending := pending[n..];
    }
  }

  /** `read_message`. */
  method ReadMessage(reader: ByteStream) returns (r: Result<Message>)
    modifies reader
    ensures (r, reader.pending) == ReadOne(old(reader.pending))
  {
    hide Decode;
    var lenBuf := reader.ReadExact(4);
    if lenBuf == None {
      return Err(Closed);
    }
    Ranges();
    FromLEBound(lenBuf.value);
    var len := FromLE(lenBuf.value);
    if len == 0 || len > MAX_FRAME_BYTES {
      return Err(BadLength(len));
    }
    var buf := reader.ReadExact(len);
    if buf == None {
      return Err(Io);
    }
    assert old(reader.pending)[4..][..len] == old(reader.pending)[4..4 + len];
    assert old(reader.pending)[4..][len..] == old(reader.pending)[4 + len..];
    r := DecodeFrom(buf.value);
  }

  /** `write_message`. */
  method WriteMessage(writer: ByteVec, m: Message) returns (r: Result<()>)
    modifies writer
    ensures Fits(m) ==> r == Ok(()) && writer.contents == old(writer.contents) + Frame(m)
    ensures !Fits(m) ==> r == Err(Invalid) && writer.contents == old(writer.contents)
  {
    EncodeNotEmpty(m);
    hide Encode;
    var body := new ByteVec();
    EncodeTo(body, m);
    assert body.contents == Encode(m);
    if |body.contents| == 0 || |body.contents| > MAX_FRAME_BYTES {
      return Err(Invalid);
    }
    writer.Extend(ToLE(|body.contents|, 4));
    writer.Extend(body.contents);
    assert old(writer.contents) + ToLE(|Encode(m)|, 4) + Encode(m) == old(writer.contents) + Frame(m);
    r := Ok(());
  }

  // ---------------------------------------------------------- properties

  /** A length of 0 or above 8 MiB is refused by itself, and only the length is read. */
  lemma BadLengths(len: u32, tail: bytes)
    requires len == 0 || len > 8_388_608
    ensures ReadOne([len % 256, len / 256 % 256, len / 65536 % 256, len / 16_777_216] + tail) == (Err(BadLength(len)), tail)
  {
    LittleEndian4(len);
    FrameHead(len, tail);
  }

  /** A length within the limits whose body is there gives the body to the decoder. */
  lemma GoodLengths(body: bytes, tail: bytes)
    requires 1 <= |body| <= 8_388_608
    ensures var len := |body|;
            ReadOne([len % 256, len / 256 % 256, len / 65536 % 256, len / 16_777_216] + body + tail) == (Decode(body), tail)
  {
    var len := |body|;
    LittleEndian4(len);
    FrameHead(len, body + tail);
    var head := [len % 256, len / 256 % 256, len / 65536 % 256, len / 16_777_216];
    assert head + body + tail == head + (body + tail);
    assert (head + (body + tail))[4..4 + len] == body;
    assert (head + (body + tail))[4 + len..] == tail;
    hide Decode;
  }

  lemma FrameHead(len: u32, tail: bytes)
    ensures (ToLE(len, 4) + tail)[..4] == ToLE(len, 4) && (ToLE(len, 4) + tail)[4..] == tail
    ensures FromLE(ToLE(len, 4)) == len
  {
    Ranges();
    FromToLE(len, 4);
    hide ToLE;
  }

  /** What is written in front of a message is its length, low byte first. */
  lemma FrameBytes(m: Message)
    requires Fits(m)
    ensures var len := |Encode(m)|;
            Frame(m) == [len % 256, len / 256 % 256, len / 65536 % 256, len / 16_777_216] + Encode(m)
    ensures Fits(m) <==> |Encode(m)| <= 8_388_608
  {
    LittleEndian4(|Encode(m)|);
    hide Encode;
  }

  lemma EncodeNotEmpty(m: Message)
    ensures Encode(m) != []
  {
    hide Put16, Put32, Put64, PutStr, PutData, PutDisplays, EncodeInput, PutFlag;
  }

  /** One frame is read back whole, whatever follows it. */
  lemma ReadFrame(m: Message, tail: bytes)
    requires Fits(m)
    ensures ReadOne(Frame(m) + tail) == (Decode(Encode(m)), tail)
  {
    EncodeNotEmpty(m);
    hide Encode, Decode, ToLE, FromLE;
    var len := |Encode(m)|;
    Ranges();
    FromToLE(len, 4);
    var s := Frame(m) + tail;
    assert s[..4] == ToLE(len, 4);
    assert s[4..4 + len] == Encode(m);
    assert s[4 + len..] == tail;
  }

  /** A frame missing its last byte or more is an error, never another message. */
  lemma ReadCutFrame(m: Message, n: nat)
    requires Fits(m) && n < |Frame(m)|
    ensures ReadOne(Frame(m)[..n]) == (Err(if n < 4 then Closed else Io), [])
  {
    hide Encode, Decode, ToLE, FromLE;
    var len := |Encode(m)|;
    if n >= 4 {
      Ranges();
      FromToLE(len, 4);
      assert Frame(m)[..n][..4] == ToLE(len, 4);
    }
  }

  /**
    Of a stream cut after `n` bytes, with `k` whole frames before the cut, the
    reader gets exactly those `k` messages and then an error: a clean close if
    the cut leaves no whole length, a truncated body otherwise.
    */
  lemma {:induction false} CutStream(ms: seq<Message>, n: nat, k: nat)
    requires forall m :: m in ms ==> WellFormed(m) && Fits(m)
    requires k <= |ms| && n <= |Stream(ms)|
    requires |Stream(ms[..k])| <= n
    requires k < |ms| ==> n < |Stream(ms[..k + 1])|
    ensures ReadAll(Stream(ms)[..n]) == (ms[..k], if n - |Stream(ms[..k])| < 4 then Closed else Io)
    decreases k
  {
    hide Encode, Decode, WellFormed, ReadOne, Frame;
    var s := Stream(ms)[..n];
    if k == 0 {
      if ms == [] {
        EmptyStream();
      } else {
        FirstOnly(ms);
        assert s == Frame(ms[0])[..n];
        ReadCutFrame(ms[0], n);
      }
    } else {
      var f := Frame(ms[0]);
      StreamPrefix(ms, k);
      if k < |ms| {
        StreamPrefix(ms, k + 1);
      }
      assert s == f + Stream(ms[1..])[..n - |f|];
      ReadFrame(ms[0], Stream(ms[1..])[..n - |f|]);
      DecodeEncode(ms[0]);
      FrameLength(ms[0]);
      CutStream(ms[1..], n - |f|, k - 1);
      assert [ms[0]] + ms[1..][..k - 1] == ms[..k];
    }
  }

  lemma EmptyStream()
    ensures ReadOne([]) == (Err(Closed), [])
  {
  }

  lemma FrameLength(m: Message)
    ensures |Frame(m)| >= 4
  {
    hide Encode;
  }

  lemma FirstOnly(ms: seq<Message>)
    requires ms != []
    ensures Stream(ms[..1]) == Frame(ms[0])
  {
    hide Frame;
    assert ms[..1][1..] == [];
    assert Stream(ms[..1]) == Frame(ms[0]) + [];
  }

  lemma StreamPrefix(ms: seq<Message>, k: nat)
    requires 0 < k <= |ms|
    ensures Stream(ms[..k]) == Frame(ms[0]) + Stream(ms[1..][..k - 1])
  {
    hide Frame;
    assert ms[..k][1..] == ms[1..][..k - 1];
  }

  /** Every cut has such a `k`. */
  lemma {:induction false} WholeFrames(ms: seq<Message>, n: nat) returns (k: nat)
    requires n <= |Stream(ms)|
    ensures k <= |ms| && |Stream(ms[..k])| <= n
    ensures k < |ms| ==> n < |Stream(ms[..k + 1])|
  {
    hide Frame;
    k := 0;
    assert ms[..0] == [];
    while k < |ms| && |Stream(ms[..k + 1])| <= n
      invariant k <= |ms| && |Stream(ms[..k])| <= n
    {
      k := k + 1;
    }
  }

  /** A whole stream comes back as it was sent exactly when every message fits the format. */
  lemma {:induction false} WholeStream(ms: seq<Message>)
    requires forall m :: m in ms ==> Fits(m)
    ensures ReadAll(Stream(ms)) == (ms, Closed) <==> forall m :: m in ms ==> WellFormed(m)
    decreases |ms|
  {
    hide Encode, Decode, WellFormed, ReadOne, Frame;
    if ms == [] {
      EmptyStream();
    } else {
      var tail := Stream(ms[1..]);
      ReadFrame(ms[0], tail);
      RoundTrip(ms[0]);
      FrameLength(ms[0]);
      WholeStream(ms[1..]);
      var (r, rest) := ReadAll(Stream(ms));
      assert ms == [ms[0]] + ms[1..];
      assert forall m :: m in ms <==> m == ms[0] || m in ms[1..];
      if r == ms {
        assert Decode(Encode(ms[0])).Ok?;
        assert r[0] == Decode(Encode(ms[0])).value;
        assert r[1..] == ReadAll(tail).0;
      }
    }
  }
}
