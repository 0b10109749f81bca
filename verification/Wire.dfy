/**
  The byte layout of a message: what `Message::encode` writes and what
  `Message::decode` accepts, as functions on bytes.

  A `Put` function writes one field in front of the bytes that follow it; the
  parser of the same field gives back the field and those bytes.
  */
module Wire {
  import opened Bytes
  import opened Utf8

  const MAX_FRAME_BYTES: nat := 8 * 1024 * 1024
  const MAX_STRING_BYTES: nat := 4096
  const MAX_DISPLAYS: nat := 16

  const T_HELLO: byte := 1
  const T_HELLO_ACK: byte := 2
  const T_DISPLAYS: byte := 3
  const T_VIDEO: byte := 4
  const T_INPUT: byte := 5
  const T_FILE_OFFER: byte := 6
  const T_FILE_ACCEPT: byte := 7
  const T_FILE_CHUNK: byte := 8
  const T_FILE_ACK: byte := 9
  const T_FILE_COMPLETE: byte := 10
  const T_FILE_CANCEL: byte := 11
  const T_PING: byte := 12
  const T_PONG: byte := 13
  const T_AUTH: byte := 14
  const T_AUTH_CONFIRM: byte := 15
  const T_AUTH_DENIED: byte := 16

  const I_MOVE: byte := 1
  const I_BUTTON: byte := 2
  const I_WHEEL: byte := 3
  const I_KEY: byte := 4

  /** A SHA-256 digest or an HMAC-SHA256. */
  type Digest = s: bytes | |s| == 32 witness seq(32, _ => 0)

  datatype DisplayInfo = DisplayInfo(
    id: u32, x: i32, y: i32, width: u32, height: u32, scalePercent: u16, name: Text)

  datatype InputEvent =
    | MouseMove(displayId: u32, px: u32, py: u32)
    | MouseButton(displayId: u32, button: byte, pressed: bool)
    | MouseWheel(displayId: u32, dx: i32, dy: i32)
    | Key(code: u16, pressed: bool)

  datatype Message =
    | Hello(version: u16, name: Text)
    | HelloAck(version: u16)
    | Displays(displays: seq<DisplayInfo>)
    | Video(displayId: u32, ptsMs: u32, keyframe: bool, data: bytes)
    | Input(event: InputEvent)
    | FileOffer(id: u32, name: Text, size: u64)
    | FileAccept(id: u32)
    | FileChunk(id: u32, offset: u64, data: bytes)
    | FileAck(id: u32, offset: u64)
    | FileComplete(id: u32, sha256: Digest)
    | FileCancel(id: u32, reason: Text)
    | Ping(nonce: u64)
    | Pong(nonce: u64)
    | Auth(spake2: bytes)
    | AuthConfirm(mac: Digest)
    | AuthDenied(retryAfterSecs: u32, reason: Text)

  datatype ProtocolError = Closed | BadLength(len: u32) | Truncated | UnknownType(kind: byte) | Invalid | Utf8Error | Io

  datatype Result<+T> = Ok(value: T) | Err(error: ProtocolError) {
    predicate IsFailure() { Err? }

    function PropagateFailure<U>(): Result<U>
      requires Err?
    {
      Err(error)
    }

    function Extract(): T
      requires Ok?
    {
      value
    }
  }

  /** The outcome of one read: the value and the bytes not yet read. */
  datatype Parse<+T> = Done(value: T, rest: bytes) | Fail(error: ProtocolError) {
    predicate IsFailure() { Fail? }

    function PropagateFailure<U>(): Parse<U>
      requires Fail?
    {
      Fail(error)
    }

    function Extract(): (T, bytes)
      requires Done?
    {
      (value, rest)
    }
  }

  // ---------------------------------------------------------------- fields

  function Take(b: bytes, n: nat): (r: Parse<bytes>)
    ensures r.Done? ==> |r.value| == n && b == r.value + r.rest
    ensures r.Done? <==> n <= |b|
  {
    if n > |b| then Fail(Truncated) else Done(b[..n], b[n..])
  }

  function U8(b: bytes): (r: Parse<byte>)
    ensures r.Done? ==> b == [r.value] + r.rest
  {
    var (s, rest) :- Take(b, 1);
    Done(s[0], rest)
  }

  function U16(b: bytes): (r: Parse<u16>)
    ensures r.Done? ==> b == ToLE(r.value, 2) + r.rest
  {
    var (s, rest) :- Take(b, 2);
    Ranges();
    FromLEBound(s);
    ToFromLE(s);
    Done(FromLE(s), rest)
  }

  function U32(b: bytes): (r: Parse<u32>)
    ensures r.Done? ==> b == ToLE(r.value, 4) + r.rest
  {
    var (s, rest) :- Take(b, 4);
    Ranges();
    FromLEBound(s);
    ToFromLE(s);
    Done(FromLE(s), rest)
  }

  function U64(b: bytes): (r: Parse<u64>)
    ensures r.Done? ==> b == ToLE(r.value, 8) + r.rest
  {
    var (s, rest) :- Take(b, 8);
    Ranges();
    FromLEBound(s);
    ToFromLE(s);
    Done(FromLE(s), rest)
  }

  function I32(b: bytes): Parse<i32> {
    var (x, rest) :- U32(b);
    Done(CastI32(x), rest)
  }

  function Data(b: bytes): Parse<bytes> {
    var (len, rest) :- U32(b);
    if len > MAX_FRAME_BYTES then Fail(Invalid) else Take(rest, len)
  }

  function Str(b: bytes): Parse<Text> {
    var (len, rest) :- U16(b);
    if len > MAX_STRING_BYTES then Fail(Invalid)
    else
      var (s, rest') :- Take(rest, len);
      if Valid(s) then Done(s, rest') else Fail(Utf8Error)
  }

  function Flag(b: bytes): Parse<bool> {
    var (x, rest) :- U8(b);
    if x == 0 then Done(false, rest)
    else if x == 1 then Done(true, rest)
    else Fail(Invalid)
  }

  function Hash(b: bytes): Parse<Digest> {
    var (s, rest) :- Take(b, 32);
    Done(s, rest)
  }

  lemma TakeAppended(s: bytes, tail: bytes)
    ensures Take(s + tail, |s|) == Done(s, tail)
  {
    assert (s + tail)[..|s|] == s;
    assert (s + tail)[|s|..] == tail;
  }

  function Put8(v: byte, tail: bytes): (b: bytes)
    ensures U8(b) == Done(v, tail)
  {
    TakeAppended([v], tail);
    [v] + tail
  }

  function Put16(v: u16, tail: bytes): (b: bytes)
    ensures U16(b) == Done(v, tail)
  {
    TakeAppended(ToLE(v, 2), tail);
    Ranges();
    FromToLE(v, 2);
    ToLE(v, 2) + tail
  }

  function Put32(v: u32, tail: bytes): (b: bytes)
    ensures U32(b) == Done(v, tail)
  {
    TakeAppended(ToLE(v, 4), tail);
    Ranges();
    FromToLE(v, 4);
    ToLE(v, 4) + tail
  }

  function Put64(v: u64, tail: bytes): (b: bytes)
    ensures U64(b) == Done(v, tail)
  {
    TakeAppended(ToLE(v, 8), tail);
    Ranges();
    FromToLE(v, 8);
    ToLE(v, 8) + tail
  }

  function PutI32(v: i32, tail: bytes): bytes {
    Put32(CastU32(v), tail)
  }

  /** The length is cast to 32 bits, so it wraps for 4 GiB and more. */
  function PutData(data: bytes, tail: bytes): bytes {
    Put32(|data| % 0x1_0000_0000, data + tail)
  }

  /** Text over the limit is cut at a byte, not at a character. */
  function PutStr(text: Text, tail: bytes): bytes {
    var len := Min(|text|, MAX_STRING_BYTES);
    Put16(len, text[..len] + tail)
  }

  function PutFlag(v: bool, tail: bytes): bytes {
    Put8(if v then 1 else 0, tail)
  }

  // -------------------------------------------------------------- displays

  function PutDisplay(d: DisplayInfo, tail: bytes): bytes {
    Put32(d.id, PutI32(d.x, PutI32(d.y, Put32(d.width, Put32(d.height,
                                                             Put16(d.scalePercent, PutStr(d.name, tail)))))))
  }

  function PutDisplays(ds: seq<DisplayInfo>, tail: bytes): bytes {
    if ds == [] then tail else PutDisplay(ds[0], PutDisplays(ds[1..], tail))
  }

  predicate Shown(d: DisplayInfo) {
    d.width != 0 && d.height != 0 && d.scalePercent != 0
  }

  function Display(b: bytes): Parse<DisplayInfo> {
    var (id, b1) :- U32(b);
    var (x, b2) :- I32(b1);
    var (y, b3) :- I32(b2);
    var (width, b4) :- U32(b3);
    var (height, b5) :- U32(b4);
    var (scale, b6) :- U16(b5);
    var (name, b7) :- Str(b6);
    var d := DisplayInfo(id, x, y, width, height, scale, name);
    if Shown(d) then Done(d, b7) else Fail(Invalid)
  }

  /** Reads `count` displays after those already in `sofar`. */
  function DisplayList(b: bytes, count: nat, sofar: seq<DisplayInfo>): Parse<seq<DisplayInfo>> {
    if count == 0 then Done(sofar, b)
    else
      var (d, rest) :- Display(b);
      DisplayList(rest, count - 1, sofar + [d])
  }

  // -------------------------------------------------------------- messages

  function EncodeInput(e: InputEvent): bytes {
    match e
    case MouseMove(d, x, y) => Put8(I_MOVE, Put32(d, Put32(x, Put32(y, []))))
    case MouseButton(d, button, pressed) => Put8(I_BUTTON, Put32(d, Put8(button, PutFlag(pressed, []))))
    case MouseWheel(d, dx, dy) => Put8(I_WHEEL, Put32(d, PutI32(dx, PutI32(dy, []))))
    case Key(code, pressed) => Put8(I_KEY, Put16(code, PutFlag(pressed, [])))
  }

  function Encode(m: Message): bytes {
    match m
    case Hello(version, name) => Put8(T_HELLO, Put16(version, PutStr(name, [])))
    case HelloAck(version) => Put8(T_HELLO_ACK, Put16(version, []))
    case Displays(ds) => Put8(T_DISPLAYS, Put16(|ds| % 0x1_0000, PutDisplays(ds, [])))
    case Video(d, pts, keyframe, data) =>
      Put8(T_VIDEO, Put32(d, Put32(pts, PutFlag(keyframe, PutData(data, [])))))
    case Input(event) => Put8(T_INPUT, EncodeInput(event))
    case FileOffer(id, name, size) => Put8(T_FILE_OFFER, Put32(id, Put64(size, PutStr(name, []))))
    case FileAccept(id) => Put8(T_FILE_ACCEPT, Put32(id, []))
    case FileChunk(id, offset, data) => Put8(T_FILE_CHUNK, Put32(id, Put64(offset, PutData(data, []))))
    case FileAck(id, offset) => Put8(T_FILE_ACK, Put32(id, Put64(offset, [])))
    case FileComplete(id, sha256) => Put8(T_FILE_COMPLETE, Put32(id, sha256))
    case FileCancel(id, reason) => Put8(T_FILE_CANCEL, Put32(id, PutStr(reason, [])))
    case Ping(nonce) => Put8(T_PING, Put64(nonce, []))
    case Pong(nonce) => Put8(T_PONG, Put64(nonce, []))
    case Auth(spake2) => Put8(T_AUTH, PutData(spake2, []))
    case AuthConfirm(mac) => Put8(T_AUTH_CONFIRM, mac)
    case AuthDenied(secs, reason) => Put8(T_AUTH_DENIED, Put32(secs, PutStr(reason, [])))
  }

  function ParseInput(b: bytes): Parse<InputEvent> {
    var (kind, b0) :- U8(b);
    if kind == I_MOVE then
      var (d, b1) :- U32(b0);
      var (x, b2) :- U32(b1);
      var (y, b3) :- U32(b2);
      Done(MouseMove(d, x, y), b3)
    else if kind == I_BUTTON then
      var (d, b1) :- U32(b0);
      var (button, b2) :- U8(b1);
      var (pressed, b3) :- Flag(b2);
      Done(MouseButton(d, button, pressed), b3)
    else if kind == I_WHEEL then
      var (d, b1) :- U32(b0);
      var (dx, b2) :- I32(b1);
      var (dy, b3) :- I32(b2);
      Done(MouseWheel(d, dx, dy), b3)
    else if kind == I_KEY then
      var (code, b1) :- U16(b0);
      var (pressed, b2) :- Flag(b1);
      Done(Key(code, pressed), b2)
    else Fail(Invalid)
  }

  /** Everything after the type byte. */
  function ParseBody(kind: byte, b: bytes): Parse<Message> {
    if kind == T_HELLO then
      var (version, b1) :- U16(b);
      var (name, b2) :- Str(b1);
      Done(Hello(version, name), b2)
    else if kind == T_HELLO_ACK then
      var (version, b1) :- U16(b);
      Done(HelloAck(version), b1)
    else if kind == T_DISPLAYS then
      var (count, b1) :- U16(b);
      if count > MAX_DISPLAYS then Fail(Invalid)
      else
        var (ds, b2) :- DisplayList(b1, count, []);
        Done(Displays(ds), b2)
    else if kind == T_VIDEO then
      var (d, b1) :- U32(b);
      var (pts, b2) :- U32(b1);
      var (flags, b3) :- U8(b2);
      var (data, b4) :- Data(b3);
      Done(Video(d, pts, flags % 2 == 1, data), b4)
    else if kind == T_INPUT then
      var (event, b1) :- ParseInput(b);
      Done(Input(event), b1)
    else ParseRest(kind, b)
  }

  function ParseRest(kind: byte, b: bytes): Parse<Message> {
    if kind == T_FILE_OFFER then
      var (id, b1) :- U32(b);
      var (size, b2) :- U64(b1);
      var (name, b3) :- Str(b2);
      Done(FileOffer(id, name, size), b3)
    else if kind == T_FILE_ACCEPT then
      var (id, b1) :- U32(b);
      Done(FileAccept(id), b1)
    else if kind == T_FILE_CHUNK then
      var (id, b1) :- U32(b);
      var (offset, b2) :- U64(b1);
      var (data, b3) :- Data(b2);
      Done(FileChunk(id, offset, data), b3)
    else if kind == T_FILE_ACK then
      var (id, b1) :- U32(b);
      var (offset, b2) :- U64(b1);
      Done(FileAck(id, offset), b2)
    else if kind == T_FILE_COMPLETE then
      var (id, b1) :- U32(b);
      var (sha256, b2) :- Hash(b1);
      Done(FileComplete(id, sha256), b2)
    else if kind == T_FILE_CANCEL then
      var (id, b1) :- U32(b);
      var (reason, b2) :- Str(b1);
      Done(FileCancel(id, reason), b2)
    else if kind == T_PING then
      var (nonce, b1) :- U64(b);
      Done(Ping(nonce), b1)
    else if kind == T_PONG then
      var (nonce, b1) :- U64(b);
      Done(Pong(nonce), b1)
    else if kind == T_AUTH then
      var (spake2, b1) :- Data(b);
      Done(Auth(spake2), b1)
    else if kind == T_AUTH_CONFIRM then
      var (mac, b1) :- Hash(b);
      Done(AuthConfirm(mac), b1)
    else if kind == T_AUTH_DENIED then
      var (secs, b1) :- U32(b);
      var (reason, b2) :- Str(b1);
      Done(AuthDenied(secs, reason), b2)
    else Fail(UnknownType(kind))
  }

  function Decode(buf: bytes): Result<Message> {
    match U8(buf)
    case Fail(e) => Err(e)
    case Done(kind, body) => Whole(ParseBody(kind, body))
  }

  /** A message must use up its buffer. */
  function Whole(p: Parse<Message>): Result<Message> {
    match p
    case Fail(e) => Err(e)
    case Done(m, rest) => if rest != [] then Err(Invalid) else Ok(m)
  }

  // ------------------------------------------------------------ properties

  predicate ShortText(t: Text) {
    |t| <= MAX_STRING_BYTES
  }

  /** The messages the format can carry. */
  predicate WellFormed(m: Message) {
    match m
    case Hello(_, name) => ShortText(name)
    case Displays(ds) =>
      |ds| <= MAX_DISPLAYS && forall d :: d in ds ==> Shown(d) && ShortText(d.name)
    case Video(_, _, _, data) => |data| <= MAX_FRAME_BYTES
    case FileOffer(_, name, _) => ShortText(name)
    case FileChunk(_, _, data) => |data| <= MAX_FRAME_BYTES
    case FileCancel(_, reason) => ShortText(reason)
    case Auth(spake2) => |spake2| <= MAX_FRAME_BYTES
    case AuthDenied(_, reason) => ShortText(reason)
    case _ => true
  }

  /** The limits of the format in numbers. */
  lemma Limits(m: Message)
    ensures WellFormed(m) <==>
            match m
            case Hello(_, name) => |name| <= 4096
            case Displays(ds) =>
              && |ds| <= 16
              && forall d :: d in ds ==> d.width >= 1 && d.height >= 1 && d.scalePercent >= 1 && |d.name| <= 4096
            case Video(_, _, _, data) => |data| <= 8_388_608
            case FileOffer(_, name, _) => |name| <= 4096
            case FileChunk(_, _, data) => |data| <= 8_388_608
            case FileCancel(_, reason) => |reason| <= 4096
            case Auth(spake2) => |spake2| <= 8_388_608
            case AuthDenied(_, reason) => |reason| <= 4096
            case _ => true
  {
  }

  lemma PutStrReads(t: Text, tail: bytes)
    requires ShortText(t)
    ensures Str(PutStr(t, tail)) == Done(t, tail)
  {
    assert t[..|t|] == t;
    TakeAppended(t, tail);
  }

  lemma PutDataReads(data: bytes, tail: bytes)
    requires |data| <= MAX_FRAME_BYTES
    ensures Data(PutData(data, tail)) == Done(data, tail)
  {
    TakeAppended(data, tail);
  }

  lemma PutDisplayReads(d: DisplayInfo, tail: bytes)
    requires Shown(d) && ShortText(d.name)
    ensures Display(PutDisplay(d, tail)) == Done(d, tail)
  {
    PutStrReads(d.name, tail);
  }

  lemma DisplayListStep(b: bytes, count: nat, sofar: seq<DisplayInfo>, d: DisplayInfo, rest: bytes)
    requires count > 0 && Display(b) == Done(d, rest)
    ensures DisplayList(b, count, sofar) == DisplayList(rest, count - 1, sofar + [d])
  {
    hide Display;
  }

  lemma {:induction false} PutDisplaysReads(ds: seq<DisplayInfo>, sofar: seq<DisplayInfo>, tail: bytes)
    requires forall d :: d in ds ==> Shown(d) && ShortText(d.name)
    ensures DisplayList(PutDisplays(ds, tail), |ds|, sofar) == Done(sofar + ds, tail)
    decreases |ds|
  {
    hide Display, PutDisplay;
    if ds == [] {
      assert sofar + ds == sofar;
    } else {
      var rest := PutDisplays(ds[1..], tail);
      PutDisplayReads(ds[0], rest);
      DisplayListStep(PutDisplay(ds[0], rest), |ds|, sofar, ds[0], rest);
      PutDisplaysReads(ds[1..], sofar + [ds[0]], tail);
      assert sofar + [ds[0]] + ds[1..] == sofar + ds;
    }
  }

  /** What follows the type byte decides the message. */
  lemma DecodeBody(kind: byte, body: bytes, m: Message)
    requires ParseBody(kind, body) == Done(m, [])
    ensures Decode(Put8(kind, body)) == Ok(m)
  {
    hide ParseBody;
  }

  lemma NamedReads(m: Message)
    requires WellFormed(m) && (m.Hello? || m.FileOffer?)
    ensures Decode(Encode(m)) == Ok(m)
  {
    hide Str, PutStr;
    PutStrReads(m.name, []);
  }

  lemma ReasonReads(m: Message)
    requires WellFormed(m) && (m.FileCancel? || m.AuthDenied?)
    ensures Decode(Encode(m)) == Ok(m)
  {
    hide Str, PutStr;
    PutStrReads(m.reason, []);
  }

  lemma DataReads(m: Message)
    requires WellFormed(m) && (m.FileChunk? || m.Auth?)
    ensures Decode(Encode(m)) == Ok(m)
  {
    hide Data, PutData;
    PutDataReads(if m.Auth? then m.spake2 else m.data, []);
  }

  lemma VideoReads(m: Message)
    requires WellFormed(m) && m.Video?
    ensures Decode(Encode(m)) == Ok(m)
  {
    hide Data, PutData;
    PutDataReads(m.data, []);
  }

  lemma DigestReads(m: Message)
    requires m.FileComplete? || m.AuthConfirm?
    ensures Decode(Encode(m)) == Ok(m)
  {
    if m.FileComplete? {
      HashReads(m.sha256);
      DecodeBody(T_FILE_COMPLETE, Put32(m.id, m.sha256), m) by {
        hide Hash, ToLE, FromLE, Take;
      }
    } else {
      HashReads(m.mac);
      DecodeBody(T_AUTH_CONFIRM, m.mac, m) by {
        hide Hash;
      }
    }
    hide Decode, ParseBody, ParseRest, Put8, Put32;
  }

  lemma HashReads(digest: Digest)
    ensures Hash(digest) == Done(digest, [])
  {
    TakeAppended(digest, []);
    assert digest + [] == digest;
  }

  lemma DisplaysReads(m: Message)
    requires WellFormed(m) && m.Displays?
    ensures Decode(Encode(m)) == Ok(m)
  {
    hide DisplayList, PutDisplays;
    var ds := m.displays;
    PutDisplaysReads(ds, [], []);
    assert [] + ds == ds;
    DecodeBody(T_DISPLAYS, Put16(|ds|, PutDisplays(ds, [])), m);
  }

  lemma InputReads(e: InputEvent)
    ensures ParseInput(EncodeInput(e)) == Done(e, [])
  {
  }

  lemma FixedReads(m: Message)
    requires m.HelloAck? || m.FileAccept? || m.FileAck? || m.Ping? || m.Pong?
    ensures Decode(Encode(m)) == Ok(m)
  {
    if m.FileAck? {
      DecodeBody(T_FILE_ACK, Put32(m.id, Put64(m.offset, [])), m);
    }
  }

  /** Every message the format can carry survives the wire unchanged. */
  lemma DecodeEncode(m: Message)
    requires WellFormed(m)
    ensures Decode(Encode(m)) == Ok(m)
  {
    hide Decode, Encode;
    match m
    case Hello(_, _) => NamedReads(m);
    case Displays(_) => DisplaysReads(m);
    case Video(_, _, _, _) => VideoReads(m);
    case Input(e) => InputMessageReads(e);
    case FileOffer(_, _, _) => NamedReads(m);
    case FileChunk(_, _, _) => DataReads(m);
    case FileComplete(_, _) => DigestReads(m);
    case FileCancel(_, _) => ReasonReads(m);
    case Auth(_) => DataReads(m);
    case AuthConfirm(_) => DigestReads(m);
    case AuthDenied(_, _) => ReasonReads(m);
    case _ => FixedReads(m);
  }

  lemma InputMessageReads(e: InputEvent)
    ensures Decode(Encode(Input(e))) == Ok(Input(e))
  {
    hide ParseInput, EncodeInput;
    InputReads(e);
  }

  /** `r` reads exactly the displays `ds` from `b`. */
  ghost predicate Extends(
    b: bytes, count: nat, sofar: seq<DisplayInfo>, r: Parse<seq<DisplayInfo>>, ds: seq<DisplayInfo>)
  {
    && r.Done?
    && |ds| == count
    && r.value == sofar + ds
    && b == PutDisplays(ds, r.rest)
    && forall d :: d in ds ==> Shown(d) && ShortText(d.name)
  }

  lemma {:induction false} DisplayListCanonical(b: bytes, count: nat, sofar: seq<DisplayInfo>)
    requires DisplayList(b, count, sofar).Done?
    ensures exists ds :: Extends(b, count, sofar, DisplayList(b, count, sofar), ds)
    decreases count
  {
    hide Display, PutDisplay;
    var r := DisplayList(b, count, sofar);
    if count == 0 {
      assert Extends(b, count, sofar, r, []);
    } else {
      var d := Display(b);
      DisplayListStep(b, count, sofar, d.value, d.rest);
      DisplayListCanonical(d.rest, count - 1, sofar + [d.value]);
      var ds :| Extends(d.rest, count - 1, sofar + [d.value], r, ds);
      DisplayCanonical(b);
      assert ([d.value] + ds)[1..] == ds;
      assert sofar + [d.value] + ds == sofar + ([d.value] + ds);
      assert Extends(b, count, sofar, r, [d.value] + ds);
    }
  }

  lemma StrCanonical(b: bytes)
    requires Str(b).Done?
    ensures ShortText(Str(b).value) && b == PutStr(Str(b).value, Str(b).rest)
  {
    var t := Str(b).value;
    assert t[..|t|] == t;
  }

  lemma DataCanonical(b: bytes)
    requires Data(b).Done?
    ensures |Data(b).value| <= MAX_FRAME_BYTES && b == PutData(Data(b).value, Data(b).rest)
  {
  }

  lemma DisplayCanonical(b: bytes)
    requires Display(b).Done?
    ensures var r := Display(b);
            Shown(r.value) && ShortText(r.value.name) && b == PutDisplay(r.value, r.rest)
  {
    var r := Display(b);
    var b1 := U32(b).rest;
    var b2 := I32(b1).rest;
    var b3 := I32(b2).rest;
    var b4 := U32(b3).rest;
    var b5 := U32(b4).rest;
    var b6 := U16(b5).rest;
    StrCanonical(b6);
    assert b5 == Put16(r.value.scalePercent, b6);
    assert b3 == Put32(r.value.width, Put32(r.value.height, b5));
    assert b1 == PutI32(r.value.x, PutI32(r.value.y, b3));
  }

  /** The decoder ignores every `flags` bit of a video message but the lowest. */
  function Normal(b: bytes): bytes {
    if |b| > 9 && b[0] == T_VIDEO then b[9 := b[9] % 2] else b
  }

  lemma NamedCanonical(kind: byte, b: bytes)
    requires ParseBody(kind, b).Done? && (kind == T_HELLO || kind == T_FILE_OFFER)
    ensures var r := ParseBody(kind, b);
            WellFormed(r.value) && (r.rest == [] ==> Encode(r.value) == Put8(kind, b))
  {
    hide Str, PutStr;
    if kind == T_HELLO {
      StrCanonical(U16(b).rest);
    } else {
      StrCanonical(U64(U32(b).rest).rest);
    }
  }

  lemma ReasonCanonical(kind: byte, b: bytes)
    requires ParseBody(kind, b).Done? && (kind == T_FILE_CANCEL || kind == T_AUTH_DENIED)
    ensures var r := ParseBody(kind, b);
            WellFormed(r.value) && (r.rest == [] ==> Encode(r.value) == Put8(kind, b))
  {
    hide Str, PutStr;
    StrCanonical(U32(b).rest);
  }

  lemma DataBodyCanonical(kind: byte, b: bytes)
    requires ParseBody(kind, b).Done? && (kind == T_FILE_CHUNK || kind == T_AUTH)
    ensures var r := ParseBody(kind, b);
            WellFormed(r.value) && (r.rest == [] ==> Encode(r.value) == Put8(kind, b))
  {
    hide Data, PutData;
    DataCanonical(if kind == T_AUTH then b else U64(U32(b).rest).rest);
  }

  lemma DigestCanonical(kind: byte, b: bytes)
    requires ParseBody(kind, b).Done? && (kind == T_FILE_COMPLETE || kind == T_AUTH_CONFIRM)
    ensures var r := ParseBody(kind, b);
            WellFormed(r.value) && (r.rest == [] ==> Encode(r.value) == Put8(kind, b))
  {
    var digest := if kind == T_AUTH_CONFIRM then b else U32(b).rest;
    assert digest == Hash(digest).value + Hash(digest).rest;
    assert Hash(digest).value + [] == Hash(digest).value;
  }

  lemma DisplaysCanonical(b: bytes)
    requires ParseBody(T_DISPLAYS, b).Done?
    ensures var r := ParseBody(T_DISPLAYS, b);
            WellFormed(r.value) && (r.rest == [] ==> Encode(r.value) == Put8(T_DISPLAYS, b))
  {
    hide DisplayList, PutDisplays, ToLE, FromLE, Take;
    var count := U16(b);
    DisplayListCanonical(count.rest, count.value, []);
    var r := DisplayList(count.rest, count.value, []);
    var ds :| Extends(count.rest, count.value, [], r, ds);
    assert [] + ds == ds;
    assert ParseBody(T_DISPLAYS, b) == Done(Displays(ds), r.rest);
    hide ParseBody, ShortText, Shown, Valid;
  }

  lemma PressedCanonical(b: bytes)
    requires ParseInput(b).Done? && U8(b).value in {I_BUTTON, I_KEY}
    ensures ParseInput(b).rest == [] ==> EncodeInput(ParseInput(b).value) == b
  {
    hide FromLE, ToLE, Take, Flag, PutFlag;
    var kind := U8(b);
    if kind.value == I_BUTTON {
      FlagCanonical(U8(U32(kind.rest).rest).rest);
    } else {
      FlagCanonical(U16(kind.rest).rest);
    }
  }

  lemma MoveCanonical(b: bytes)
    requires ParseInput(b).Done? && U8(b).value == I_MOVE
    ensures ParseInput(b).rest == [] ==> EncodeInput(ParseInput(b).value) == b
  {
    hide FromLE, ToLE, Take;
  }

  lemma WheelCanonical(b: bytes)
    requires ParseInput(b).Done? && U8(b).value == I_WHEEL
    ensures ParseInput(b).rest == [] ==> EncodeInput(ParseInput(b).value) == b
  {
    hide FromLE, ToLE, Take;
  }

  lemma InputCanonical(b: bytes)
    requires ParseInput(b).Done? && ParseInput(b).rest == []
    ensures EncodeInput(ParseInput(b).value) == b
  {
    hide EncodeInput;
    var kind := U8(b).value;
    assert kind in {I_MOVE, I_BUTTON, I_WHEEL, I_KEY};
    hide ParseInput;
    if kind == I_MOVE {
      MoveCanonical(b);
    } else if kind == I_WHEEL {
      WheelCanonical(b);
    } else {
      PressedCanonical(b);
    }
  }

  lemma FlagCanonical(b: bytes)
    requires Flag(b).Done?
    ensures b == PutFlag(Flag(b).value, Flag(b).rest)
  {
  }

  lemma FixedCanonical(kind: byte, b: bytes)
    requires ParseBody(kind, b).Done?
    requires kind in {T_HELLO_ACK, T_INPUT, T_FILE_ACCEPT, T_FILE_ACK, T_PING, T_PONG}
    ensures var r := ParseBody(kind, b);
            WellFormed(r.value) && (r.rest == [] ==> Encode(r.value) == Put8(kind, b))
  {
    hide ParseInput, EncodeInput;
    if kind == T_INPUT && ParseBody(kind, b).rest == [] {
      InputCanonical(b);
    }
  }

  lemma VideoCanonical(b: bytes)
    requires ParseBody(T_VIDEO, b).Done?
    ensures var r := ParseBody(T_VIDEO, b);
            WellFormed(r.value) && (r.rest == [] ==> Encode(r.value) == Normal(Put8(T_VIDEO, b)))
  {
    hide Data, PutData;
    var d := U32(b);
    var pts := U32(d.rest);
    var flags := U8(pts.rest);
    DataCanonical(flags.rest);
    VideoNormal(d.value, pts.value, flags.value, flags.rest);
  }

  lemma VideoNormal(d: u32, pts: u32, flags: byte, data: bytes)
    ensures Normal(Put8(T_VIDEO, Put32(d, Put32(pts, Put8(flags, data)))))
         == Put8(T_VIDEO, Put32(d, Put32(pts, Put8(flags % 2, data))))
  {
    NinthByte(d, pts, flags, data);
    NinthByte(d, pts, flags % 2, data);
    hide ToLE, Put8, Put32;
    var front := [T_VIDEO] + ToLE(d, 4) + ToLE(pts, 4);
    ReplaceAt(front, flags, flags % 2, data);
  }

  lemma NinthByte(d: u32, pts: u32, flags: byte, data: bytes)
    ensures Put8(T_VIDEO, Put32(d, Put32(pts, Put8(flags, data)))) == [T_VIDEO] + ToLE(d, 4) + ToLE(pts, 4) + [flags] + data
  {
    hide ToLE;
    var a, b, c := [T_VIDEO], ToLE(d, 4), ToLE(pts, 4);
    AppendThree(a, b, c + ([flags] + data));
    AppendThree(a + b, c, [flags] + data);
    AppendThree(a + b + c, [flags], data);
  }

  lemma ReplaceAt(front: bytes, was: byte, other: byte, back: bytes)
    ensures (front + [was] + back)[|front| := other] == front + [other] + back
  {
  }

  lemma UnknownFails(kind: byte, b: bytes)
    requires kind == 0 || kind > T_AUTH_DENIED
    ensures ParseBody(kind, b) == Fail(UnknownType(kind))
  {
  }

  /**
    Only what the format can carry is accepted, and re-encoding it gives back
    the bytes received, but for the ignored flag bits.
    */
  lemma EncodeDecode(b: bytes)
    requires Decode(b).Ok?
    ensures WellFormed(Decode(b).value)
    ensures Encode(Decode(b).value) == Normal(b)
  {
    hide ParseBody, Encode, WellFormed;
    var kind, body := b[0], b[1..];
    assert b == Put8(kind, body);
    assert ParseBody(kind, body) == Done(Decode(b).value, []);
    if kind == T_HELLO || kind == T_FILE_OFFER {
      NamedCanonical(kind, body);
    } else if kind == T_FILE_CANCEL || kind == T_AUTH_DENIED {
      ReasonCanonical(kind, body);
    } else if kind == T_FILE_CHUNK || kind == T_AUTH {
      DataBodyCanonical(kind, body);
    } else if kind == T_FILE_COMPLETE || kind == T_AUTH_CONFIRM {
      DigestCanonical(kind, body);
    } else if kind == T_DISPLAYS {
      DisplaysCanonical(body);
    } else if kind == T_VIDEO {
      VideoCanonical(body);
    } else if kind == 0 || kind > T_AUTH_DENIED {
      UnknownFails(kind, body);
    } else {
      FixedCanonical(kind, body);
    }
  }

  /** The round trip succeeds for the messages the format can carry and for no others. */
  lemma RoundTrip(m: Message)
    ensures Decode(Encode(m)) == Ok(m) <==> WellFormed(m)
  {
    hide Decode, Encode, WellFormed;
    if WellFormed(m) {
      DecodeEncode(m);
    }
    if Decode(Encode(m)) == Ok(m) {
      EncodeDecode(Encode(m));
    }
  }

  lemma DecodeNormal(b: bytes)
    ensures Decode(Normal(b)) == Decode(b)
  {
    if |b| > 9 && b[0] == T_VIDEO {
      hide Data, FromLE, ToLE;
      var c := Normal(b);
      assert c[1..][..4] == b[1..][..4];
      assert c[1..][4..][..4] == b[1..][4..][..4];
      assert c[1..][4..][4..][1..] == b[1..][4..][4..][1..];
    }
  }

  /** The language `Decode` accepts, without reference to how it reads. */
  lemma Accepted(b: bytes)
    ensures Decode(b).Ok? <==> exists m :: WellFormed(m) && Encode(m) == Normal(b)
  {
    hide Decode, Encode, WellFormed, Normal;
    if Decode(b).Ok? {
      EncodeDecode(b);
    }
    if m :| WellFormed(m) && Encode(m) == Normal(b) {
      DecodeEncode(m);
      DecodeNormal(b);
    }
  }

  // ------------------------------------------------------------ long text

  function CutText(t: Text): bytes {
    t[..Min(|t|, MAX_STRING_BYTES)]
  }

  /** The limits of `WellFormed` other than those on text. */
  predicate Carriable(m: Message) {
    match m
    case Displays(ds) => |ds| <= MAX_DISPLAYS && forall d :: d in ds ==> Shown(d)
    case Video(_, _, _, data) => |data| <= MAX_FRAME_BYTES
    case FileChunk(_, _, data) => |data| <= MAX_FRAME_BYTES
    case Auth(spake2) => |spake2| <= MAX_FRAME_BYTES
    case _ => true
  }

  /** No text of the message is cut inside a character. */
  predicate CutsValid(m: Message) {
    match m
    case Hello(_, name) => Valid(CutText(name))
    case Displays(ds) => NamesValid(ds)
    case FileOffer(_, name, _) => Valid(CutText(name))
    case FileCancel(_, reason) => Valid(CutText(reason))
    case AuthDenied(_, reason) => Valid(CutText(reason))
    case _ => true
  }

  predicate NamesValid(ds: seq<DisplayInfo>) {
    forall d :: d in ds ==> Valid(CutText(d.name))
  }

  function TrimmedDisplays(ds: seq<DisplayInfo>): (ts: seq<DisplayInfo>)
    requires NamesValid(ds)
    ensures |ts| == |ds| && forall i :: 0 <= i < |ds| ==> ts[i] == ds[i].(name := CutText(ds[i].name))
  {
    if ds == [] then [] else [ds[0].(name := CutText(ds[0].name))] + TrimmedDisplays(ds[1..])
  }

  function Trimmed(m: Message): Message
    requires CutsValid(m)
  {
    match m
    case Hello(version, name) => Hello(version, CutText(name))
    case Displays(ds) => Displays(TrimmedDisplays(ds))
    case FileOffer(id, name, size) => FileOffer(id, CutText(name), size)
    case FileCancel(id, reason) => FileCancel(id, CutText(reason))
    case AuthDenied(secs, reason) => AuthDenied(secs, CutText(reason))
    case _ => m
  }

  lemma PutStrCut(t: Text, tail: bytes)
    requires Valid(CutText(t))
    ensures PutStr(t, tail) == PutStr(CutText(t), tail)
  {
    hide Valid;
    var cut := CutText(t);
    assert cut[..Min(|cut|, MAX_STRING_BYTES)] == cut;
  }

  lemma {:induction false} PutDisplaysCut(ds: seq<DisplayInfo>, tail: bytes)
    requires NamesValid(ds)
    ensures PutDisplays(ds, tail) == PutDisplays(TrimmedDisplays(ds), tail)
    decreases |ds|
  {
    hide Valid, PutStr, CutText;
    if ds != [] {
      PutStrCut(ds[0].name, PutDisplays(ds[1..], tail));
      PutDisplaysCut(ds[1..], tail);
    }
  }

  lemma TrimmedShown(ds: seq<DisplayInfo>)
    requires NamesValid(ds) && forall d :: d in ds ==> Shown(d)
    ensures forall d :: d in TrimmedDisplays(ds) ==> Shown(d) && ShortText(d.name)
  {
    hide Valid;
    var ts := TrimmedDisplays(ds);
    forall d | d in ts ensures Shown(d) && ShortText(d.name) {
      var i :| 0 <= i < |ts| && ts[i] == d;
      assert ds[i] in ds && d == ds[i].(name := CutText(ds[i].name));
    }
  }

  lemma EncodeTrimmed(m: Message)
    requires Carriable(m) && CutsValid(m)
    ensures Encode(m) == Encode(Trimmed(m)) && WellFormed(Trimmed(m))
  {
    hide Valid, PutStr, PutDisplays, Put8, Put16, Put32, Put64;
    match m
    case Hello(_, name) => PutStrCut(name, []);
    case Displays(ds) =>
      PutDisplaysCut(ds, []);
      TrimmedShown(ds);
      hide TrimmedDisplays, Shown, ShortText, CutText;
    case FileOffer(_, name, _) => PutStrCut(name, []);
    case FileCancel(_, reason) => PutStrCut(reason, []);
    case AuthDenied(_, reason) => PutStrCut(reason, []);
    case _ =>
  }

  lemma CutInvalid(t: Text, tail: bytes)
    requires !Valid(CutText(t))
    ensures Str(PutStr(t, tail)) == Fail(Utf8Error)
  {
    hide Valid;
    TakeAppended(CutText(t), tail);
  }

  lemma DisplayCutInvalid(d: DisplayInfo, tail: bytes)
    requires !Valid(CutText(d.name))
    ensures Display(PutDisplay(d, tail)) == Fail(Utf8Error)
  {
    hide Valid, Str, PutStr, CutText;
    CutInvalid(d.name, tail);
  }

  lemma DisplayCutReads(d: DisplayInfo, tail: bytes)
    requires Shown(d) && Valid(CutText(d.name))
    ensures Display(PutDisplay(d, tail)) == Done(d.(name := CutText(d.name)), tail)
  {
    hide Valid, Display, PutStr;
    PutStrCut(d.name, tail);
    var cut := d.(name := CutText(d.name));
    assert PutDisplay(d, tail) == PutDisplay(cut, tail);
    hide PutDisplay;
    PutDisplayReads(cut, tail);
  }

  lemma DisplayListFails(b: bytes, count: nat, sofar: seq<DisplayInfo>)
    requires count > 0 && Display(b) == Fail(Utf8Error)
    ensures DisplayList(b, count, sofar) == Fail(Utf8Error)
  {
    hide Display;
  }

  lemma {:induction false} DisplaysCutInvalid(ds: seq<DisplayInfo>, sofar: seq<DisplayInfo>, tail: bytes)
    requires (forall d :: d in ds ==> Shown(d)) && !NamesValid(ds)
    ensures DisplayList(PutDisplays(ds, tail), |ds|, sofar) == Fail(Utf8Error)
    decreases |ds|
  {
    hide Valid, Display, PutDisplay, CutText, DisplayList;
    var d, rest := ds[0], PutDisplays(ds[1..], tail);
    if Valid(CutText(d.name)) {
      DisplayCutReads(d, rest);
      var cut := d.(name := CutText(d.name));
      DisplayListStep(PutDisplay(d, rest), |ds|, sofar, cut, rest);
      DisplaysCutInvalid(ds[1..], sofar + [cut], tail);
    } else {
      DisplayCutInvalid(d, rest);
      DisplayListFails(PutDisplay(d, rest), |ds|, sofar);
    }
  }

  /** What follows the type byte decides the error. */
  lemma DecodeFails(kind: byte, body: bytes)
    requires ParseBody(kind, body) == Fail(Utf8Error)
    ensures Decode(Put8(kind, body)) == Err(Utf8Error)
  {
    hide ParseBody;
  }

  lemma DisplaysMessageCutInvalid(ds: seq<DisplayInfo>)
    requires Carriable(Displays(ds)) && !NamesValid(ds)
    ensures Decode(Encode(Displays(ds))) == Err(Utf8Error)
  {
    hide DisplayList, PutDisplays, NamesValid, Valid, CutText;
    DisplaysCutInvalid(ds, [], []);
    DecodeFails(T_DISPLAYS, Put16(|ds|, PutDisplays(ds, [])));
  }

  lemma NamedCutInvalid(m: Message)
    requires (m.Hello? || m.FileOffer?) && !Valid(CutText(m.name))
    ensures Decode(Encode(m)) == Err(Utf8Error)
  {
    hide Str, PutStr, Valid, CutText, ToLE, FromLE, Take;
    CutInvalid(m.name, []);
  }

  lemma ReasonCutInvalid(m: Message)
    requires (m.FileCancel? || m.AuthDenied?) && !Valid(CutText(m.reason))
    ensures Decode(Encode(m)) == Err(Utf8Error)
  {
    hide Str, PutStr, Valid, CutText, ToLE, FromLE, Take;
    CutInvalid(m.reason, []);
  }

  /**
    Text over the limit does not survive, in whichever message and however
    many: the peer sees the first 4096 bytes of each, or rejects the message
    when a cut falls inside a character.
    */
  lemma LongTextCut(m: Message)
    requires Carriable(m)
    ensures Decode(Encode(m)) == if CutsValid(m) then Ok(Trimmed(m)) else Err(Utf8Error)
  {
    if CutsValid(m) {
      EncodeTrimmed(m);
      hide Encode, Decode, CutsValid, Carriable, Trimmed, WellFormed;
      DecodeEncode(Trimmed(m));
    } else {
      hide Encode, Decode, Valid;
      match m
      case Hello(_, _) => NamedCutInvalid(m);
      case FileOffer(_, _, _) => NamedCutInvalid(m);
      case FileCancel(_, _) => ReasonCutInvalid(m);
      case AuthDenied(_, _) => ReasonCutInvalid(m);
      case Displays(ds) => DisplaysMessageCutInvalid(ds);
    }
  }
}
