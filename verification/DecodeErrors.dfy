/**
  What a decoder says of buffers that are not a message: a message cut short
  anywhere, one with bytes after it, and a type that does not exist.
  */
module DecodeErrors {
  import opened Bytes
  import opened Utf8
  import opened Wire

  /**
    `whole` and `cut` are one read on `b` and on its first `n` bytes. What
    `whole` took is a prefix of `b`; `cut` gives the same if that lies within
    the first `n` bytes, and otherwise meets the end of the buffer. And if
    `cut` succeeds, the bytes after it change nothing.
    */
  ghost predicate Cuts<T(!new)>(b: bytes, n: nat, whole: Parse<T>, cut: Parse<T>)
    requires n <= |b|
  {
    && (whole.Done? ==>
          var k := |b| - |whole.rest|;
          && 0 <= k && b[k..] == whole.rest
          && cut == if n < k then Fail(Truncated) else Done(whole.value, whole.rest[..n - k]))
    && (cut.Done? ==> whole.Done?)
  }

  lemma CutTake(b: bytes, n: nat, k: nat)
    requires n <= |b|
    ensures Cuts(b, n, Take(b, k), Take(b[..n], k))
  {
    if k <= n {
      assert b[..n][..k] == b[..k] && b[..n][k..] == b[k..][..n - k];
    }
  }

  lemma CutNumbers(b: bytes, n: nat)
    requires n <= |b|
    ensures Cuts(b, n, U8(b), U8(b[..n])) && Cuts(b, n, U16(b), U16(b[..n])) && Cuts(b, n, U32(b), U32(b[..n]))
    ensures Cuts(b, n, U64(b), U64(b[..n])) && Cuts(b, n, Hash(b), Hash(b[..n]))
  {
    hide Cuts, U8, U16, U32, U64, Hash;
    CutU8(b, n);
    CutU16(b, n);
    CutU32(b, n);
    CutU64(b, n);
    CutHash(b, n);
  }

  lemma CutU8(b: bytes, n: nat)
    requires n <= |b|
    ensures Cuts(b, n, U8(b), U8(b[..n]))
  {
    CutTake(b, n, 1);
    hide Take;
  }

  lemma CutU16(b: bytes, n: nat)
    requires n <= |b|
    ensures Cuts(b, n, U16(b), U16(b[..n]))
  {
    CutTake(b, n, 2);
    hide Take, FromLE, ToLE;
  }

  lemma CutU32(b: bytes, n: nat)
    requires n <= |b|
    ensures Cuts(b, n, U32(b), U32(b[..n]))
  {
    CutTake(b, n, 4);
    hide Take, FromLE, ToLE;
  }

  lemma CutU64(b: bytes, n: nat)
    requires n <= |b|
    ensures Cuts(b, n, U64(b), U64(b[..n]))
  {
    CutTake(b, n, 8);
    hide Take, FromLE, ToLE;
  }

  lemma CutHash(b: bytes, n: nat)
    requires n <= |b|
    ensures Cuts(b, n, Hash(b), Hash(b[..n]))
  {
    CutTake(b, n, 32);
    hide Take;
  }

  lemma CutSigned(b: bytes, n: nat)
    requires n <= |b|
    ensures Cuts(b, n, I32(b), I32(b[..n])) && Cuts(b, n, Flag(b), Flag(b[..n]))
  {
    CutNumbers(b, n);
    hide U8, U32, FromLE, ToLE;
  }

  // Reads as values, so that those of a message can be put together.

  type Read<T> = bytes -> Parse<T>

  ghost predicate LocalAt<T(!new)>(p: Read<T>, b: bytes, n: nat)
    requires n <= |b|
  {
    Cuts(b, n, p(b), p(b[..n]))
  }

  /** A read that looks at no byte it does not take. */
  ghost predicate Local<T(!new)>(p: Read<T>) {
    forall b: bytes, n: nat | n <= |b| :: LocalAt(p, b, n)
  }

  function Give<T>(v: T): Read<T> {
    b => Done(v, b)
  }

  function Refuse<T>(e: ProtocolError): Read<T> {
    b => Fail(e)
  }

  /** One read and then the next on what it left. */
  function Then<T, U>(p: Read<T>, q: T -> Read<U>): Read<U> {
    b => match p(b)
         case Fail(e) => Fail(e)
         case Done(v, rest) => q(v)(rest)
  }

  lemma GiveLocal<T(!new)>(v: T)
    ensures Local(Give(v))
  {
    forall b: bytes, n: nat | n <= |b| ensures LocalAt(Give(v), b, n) {
    }
  }

  lemma RefuseLocal<T(!new)>(e: ProtocolError)
    ensures Local<T>(Refuse(e))
  {
    forall b: bytes, n: nat | n <= |b| ensures LocalAt<T>(Refuse(e), b, n) {
    }
  }

  lemma ThenLocal<T(!new), U(!new)>(p: Read<T>, q: T -> Read<U>)
    requires Local(p) && forall v :: Local(q(v))
    ensures Local(Then(p, q))
  {
    forall b: bytes, n: nat | n <= |b| ensures LocalAt(Then(p, q), b, n) {
      assert LocalAt(p, b, n);
      var first, cut := p(b), p(b[..n]);
      if first.Done? {
        var k := |b| - |first.rest|;
        if n >= k {
          assert Local(q(first.value));
          assert LocalAt(q(first.value), first.rest, n - k);
        } else {
          assert Local(q(first.value));
          assert LocalAt(q(first.value), first.rest, |first.rest|);
        }
      }
    }
  }

  lemma NumbersLocal()
    ensures Local(U8) && Local(U16) && Local(U32) && Local(U64) && Local(Hash) && Local(I32) && Local(Flag)
  {
    forall b: bytes, n: nat | n <= |b|
      ensures LocalAt(U8, b, n) && LocalAt(U16, b, n) && LocalAt(U32, b, n) && LocalAt(U64, b, n)
      ensures LocalAt(Hash, b, n) && LocalAt(I32, b, n) && LocalAt(Flag, b, n)
    {
      CutNumbers(b, n);
      CutSigned(b, n);
    }
    hide U8, U16, U32, U64, Hash, I32, Flag, Cuts;
  }

  function TakeRead(k: nat): Read<bytes> {
    b => Take(b, k)
  }

  lemma TakeLocal(k: nat)
    ensures Local(TakeRead(k))
  {
    forall b: bytes, n: nat | n <= |b| ensures LocalAt(TakeRead(k), b, n) {
      CutTake(b, n, k);
    }
  }

  function DataRest(len: u32): Read<bytes> {
    if len > MAX_FRAME_BYTES then Refuse(Invalid) else TakeRead(len)
  }

  lemma DataLocal()
    ensures Local(Data)
  {
    NumbersLocal();
    forall len: u32 ensures Local(DataRest(len)) {
      RefuseLocal<bytes>(Invalid);
      TakeLocal(len);
    }
    ThenLocal(U32, DataRest);
    hide Local;
    SameRead(Then(U32, DataRest), Data) by {
      hide U32, Take;
    }
  }

  /** Reads that agree everywhere are local together. */
  lemma SameRead<T(!new)>(p: Read<T>, q: Read<T>)
    requires Local(p) && forall b :: p(b) == q(b)
    ensures Local(q)
  {
    forall b: bytes, n: nat | n <= |b| ensures LocalAt(q, b, n) {
      assert LocalAt(p, b, n);
    }
  }

  function TextOf(s: bytes): Read<Text> {
    if Valid(s) then Give(s) else Refuse(Utf8Error)
  }

  function StrRest(len: u16): Read<Text> {
    if len > MAX_STRING_BYTES then Refuse(Invalid) else Then(TakeRead(len), TextOf)
  }

  lemma StrLocal()
    ensures Local(Str)
  {
    NumbersLocal();
    forall s: bytes ensures Local(TextOf(s)) {
      RefuseLocal<Text>(Utf8Error);
      if Valid(s) {
        GiveLocal<Text>(s);
      }
    }
    forall len: u16 ensures Local(StrRest(len)) {
      RefuseLocal<Text>(Invalid);
      TakeLocal(len);
      ThenLocal(TakeRead(len), TextOf);
    }
    ThenLocal(U16, StrRest);
    hide Local;
    SameRead(Then(U16, StrRest), Str) by {
      hide U16, Take, Valid;
    }
  }

  // -------------------------------------------------- fields in a row

  function Map<A, T>(p: Read<A>, f: A -> T): Read<T> {
    Then(p, a => Give(f(a)))
  }

  function Two<A, B, T>(p: Read<A>, q: Read<B>, f: (A, B) -> T): Read<T> {
    Then(p, a => Map(q, b => f(a, b)))
  }

  function Three<A, B, C, T>(p: Read<A>, q: Read<B>, r: Read<C>, f: (A, B, C) -> T): Read<T> {
    Then(p, a => Two(q, r, (b, c) => f(a, b, c)))
  }

  function Four<A, B, C, D, T>(p: Read<A>, q: Read<B>, r: Read<C>, s: Read<D>, f: (A, B, C, D) -> T): Read<T> {
    Then(p, a => Three(q, r, s, (b, c, d) => f(a, b, c, d)))
  }

  lemma MapLocal<A(!new), T(!new)>(p: Read<A>, f: A -> T)
    requires Local(p)
    ensures Local(Map(p, f))
  {
    hide Local, Give;
    var q := a => Give(f(a));
    forall a ensures Local(q(a)) {
      GiveLocal(f(a));
    }
    ThenLocal(p, q);
  }

  lemma TwoLocal<A(!new), B(!new), T(!new)>(p: Read<A>, q: Read<B>, f: (A, B) -> T)
    requires Local(p) && Local(q)
    ensures Local(Two(p, q, f))
  {
    hide Local, Map;
    var g := a => Map(q, b => f(a, b));
    forall a ensures Local(g(a)) {
      MapLocal(q, b => f(a, b));
    }
    ThenLocal(p, g);
  }

  lemma ThreeLocal<A(!new), B(!new), C(!new), T(!new)>(p: Read<A>, q: Read<B>, r: Read<C>, f: (A, B, C) -> T)
    requires Local(p) && Local(q) && Local(r)
    ensures Local(Three(p, q, r, f))
  {
    hide Local, Two;
    var g := a => Two(q, r, (b, c) => f(a, b, c));
    forall a ensures Local(g(a)) {
      TwoLocal(q, r, (b, c) => f(a, b, c));
    }
    ThenLocal(p, g);
  }

  lemma FourLocal<A(!new), B(!new), C(!new), D(!new), T(!new)>(
    p: Read<A>, q: Read<B>, r: Read<C>, s: Read<D>, f: (A, B, C, D) -> T)
    requires Local(p) && Local(q) && Local(r) && Local(s)
    ensures Local(Four(p, q, r, s, f))
  {
    hide Local, Three;
    var g := a => Three(q, r, s, (b, c, d) => f(a, b, c, d));
    forall a ensures Local(g(a)) {
      ThreeLocal(q, r, s, (b, c, d) => f(a, b, c, d));
    }
    ThenLocal(p, g);
  }

  // What the rows come to.

  lemma MapIs<A, T>(p: Read<A>, f: A -> T, b: bytes)
    ensures Map(p, f)(b) == match p(b)
                            case Fail(e) => Fail(e)
                            case Done(v, rest) => Done(f(v), rest)
  {
  }

  lemma TwoIs<A, B, T>(p: Read<A>, q: Read<B>, f: (A, B) -> T, b: bytes)
    ensures Two(p, q, f)(b) == match p(b)
                               case Fail(e) => Fail(e)
                               case Done(v, rest) =>
                                 match q(rest)
                                 case Fail(e) => Fail(e)
                                 case Done(w, rest') => Done(f(v, w), rest')
  {
    if p(b).Done? {
      MapIs(q, w => f(p(b).value, w), p(b).rest);
    }
    hide Map;
  }

  lemma ThreeIs<A, B, C, T>(p: Read<A>, q: Read<B>, r: Read<C>, f: (A, B, C) -> T, b: bytes)
    ensures Three(p, q, r, f)(b) == match p(b)
                                    case Fail(e) => Fail(e)
                                    case Done(v, b1) =>
                                      match q(b1)
                                      case Fail(e) => Fail(e)
                                      case Done(w, b2) =>
                                        match r(b2)
                                        case Fail(e) => Fail(e)
                                        case Done(x, b3) => Done(f(v, w, x), b3)
  {
    if p(b).Done? {
      TwoIs(q, r, (w, x) => f(p(b).value, w, x), p(b).rest);
    }
    hide Two;
  }

  lemma FourIs<A, B, C, D, T>(p: Read<A>, q: Read<B>, r: Read<C>, s: Read<D>, f: (A, B, C, D) -> T, b: bytes)
    ensures Four(p, q, r, s, f)(b) == match p(b)
                                      case Fail(e) => Fail(e)
                                      case Done(v, b1) =>
                                        match q(b1)
                                        case Fail(e) => Fail(e)
                                        case Done(w, b2) =>
                                          match r(b2)
                                          case Fail(e) => Fail(e)
                                          case Done(x, b3) =>
                                            match s(b3)
                                            case Fail(e) => Fail(e)
                                            case Done(y, b4) => Done(f(v, w, x, y), b4)
  {
    if p(b).Done? {
      ThreeIs(q, r, s, (w, x, y) => f(p(b).value, w, x, y), p(b).rest);
    }
    hide Three;
  }

  // ------------------------------------------------------------ displays

  type Place = (u32, i32, i32, u32)
  type Look = (u32, u16, Text)

  function PlaceRead(): Read<Place> {
    Four(U32, I32, I32, U32, (id, x, y, width) => (id, x, y, width))
  }

  function LookRead(): Read<Look> {
    Three(U32, U16, Str, (height, scale, name) => (height, scale, name))
  }

  function DisplayOf(p: Place, l: Look): DisplayInfo {
    DisplayInfo(p.0, p.1, p.2, p.3, l.0, l.1, l.2)
  }

  function ShownOnly(d: DisplayInfo): Read<DisplayInfo> {
    if Shown(d) then Give(d) else Refuse(Invalid)
  }

  function DisplayRead(): Read<DisplayInfo> {
    Then(Two(PlaceRead(), LookRead(), DisplayOf), ShownOnly)
  }

  lemma DisplayLocal()
    ensures Local(Display)
  {
    hide Local, Two, Three, Four, U32, I32, U16, Str, Then;
    NumbersLocal();
    StrLocal();
    FourLocal(U32, I32, I32, U32, (id, x, y, width) => (id, x, y, width));
    ThreeLocal(U32, U16, Str, (height, scale, name) => (height, scale, name));
    TwoLocal(PlaceRead(), LookRead(), DisplayOf);
    forall d ensures Local(ShownOnly(d)) {
      RefuseLocal<DisplayInfo>(Invalid);
      GiveLocal(d);
    }
    ThenLocal(Two(PlaceRead(), LookRead(), DisplayOf), ShownOnly);
    forall b: bytes ensures DisplayRead()(b) == Display(b) {
      SameDisplay(b);
    }
    SameRead(DisplayRead(), Display);
  }

  lemma SameDisplay(b: bytes)
    ensures DisplayRead()(b) == Display(b)
  {
    hide U32, I32, U16, Str, Two, Three, Four;
    TwoIs(PlaceRead(), LookRead(), DisplayOf, b);
    FourIs(U32, I32, I32, U32, (id, x, y, width) => (id, x, y, width), b);
    if PlaceRead()(b).Done? {
      ThreeIs(U32, U16, Str, (height, scale, name) => (height, scale, name), PlaceRead()(b).rest);
    }
  }

  function ListRead(count: nat, sofar: seq<DisplayInfo>): Read<seq<DisplayInfo>> {
    b => DisplayList(b, count, sofar)
  }

  function ListNext(count: nat, sofar: seq<DisplayInfo>): DisplayInfo -> Read<seq<DisplayInfo>>
    requires count > 0
  {
    d => ListRead(count - 1, sofar + [d])
  }

  lemma {:induction false} ListLocal(count: nat, sofar: seq<DisplayInfo>)
    ensures Local(ListRead(count, sofar))
    decreases count
  {
    hide Local, Display, Then;
    if count == 0 {
      GiveLocal(sofar);
      SameRead(Give(sofar), ListRead(0, sofar));
    } else {
      DisplayLocal();
      forall d: DisplayInfo ensures Local(ListNext(count, sofar)(d)) {
        ListLocal(count - 1, sofar + [d]);
      }
      ThenLocal(Display, ListNext(count, sofar));
      forall b: bytes ensures Then(Display, ListNext(count, sofar))(b) == ListRead(count, sofar)(b) {
        SameList(b, count, sofar);
      }
      SameRead(Then(Display, ListNext(count, sofar)), ListRead(count, sofar));
    }
  }

  lemma SameList(b: bytes, count: nat, sofar: seq<DisplayInfo>)
    requires count > 0
    ensures Then(Display, ListNext(count, sofar))(b) == ListRead(count, sofar)(b)
  {
    hide Display;
  }

  // ------------------------------------------------------------ messages

  function CountedRead(count: u16): Read<seq<DisplayInfo>> {
    if count > MAX_DISPLAYS then Refuse(Invalid) else ListRead(count, [])
  }

  function InputRest(kind: byte): Read<InputEvent> {
    if kind == I_MOVE then Three(U32, U32, U32, (d, x, y) => MouseMove(d, x, y))
    else if kind == I_BUTTON then Three(U32, U8, Flag, (d, button, pressed) => MouseButton(d, button, pressed))
    else if kind == I_WHEEL then Three(U32, I32, I32, (d, dx, dy) => MouseWheel(d, dx, dy))
    else if kind == I_KEY then Two(U16, Flag, (code, pressed) => Key(code, pressed))
    else Refuse(Invalid)
  }

  /** Everything after the type byte, as fields in a row. */
  function BodyRead(kind: byte): Read<Message> {
    if kind == T_HELLO then Two(U16, Str, (version, name) => Hello(version, name))
    else if kind == T_HELLO_ACK then Map(U16, version => HelloAck(version))
    else if kind == T_DISPLAYS then Map(Then(U16, CountedRead), ds => Displays(ds))
    else if kind == T_VIDEO then Four(U32, U32, U8, Data, (d, pts, flags, data) => Video(d, pts, flags % 2 == 1, data))
    else if kind == T_INPUT then Map(Then(U8, InputRest), event => Input(event))
    else FileOrAuthRead(kind)
  }

  function FileOrAuthRead(kind: byte): Read<Message> {
    if kind == T_FILE_OFFER then Three(U32, U64, Str, (id, size, name) => FileOffer(id, name, size))
    else if kind == T_FILE_ACCEPT then Map(U32, id => FileAccept(id))
    else if kind == T_FILE_CHUNK then Three(U32, U64, Data, (id, offset, data) => FileChunk(id, offset, data))
    else if kind == T_FILE_ACK then Two(U32, U64, (id, offset) => FileAck(id, offset))
    else if kind == T_FILE_COMPLETE then Two(U32, Hash, (id, sha256) => FileComplete(id, sha256))
    else if kind == T_FILE_CANCEL then Two(U32, Str, (id, reason) => FileCancel(id, reason))
    else if kind == T_PING then Map(U64, nonce => Ping(nonce))
    else if kind == T_PONG then Map(U64, nonce => Pong(nonce))
    else if kind == T_AUTH then Map(Data, spake2 => Auth(spake2))
    else if kind == T_AUTH_CONFIRM then Map(Hash, mac => AuthConfirm(mac))
    else if kind == T_AUTH_DENIED then Two(U32, Str, (secs, reason) => AuthDenied(secs, reason))
    else Refuse(UnknownType(kind))
  }

  lemma CountedLocal(count: u16)
    ensures Local(CountedRead(count))
  {
    RefuseLocal<seq<DisplayInfo>>(Invalid);
    if count <= MAX_DISPLAYS {
      ListLocal(count, []);
    }
    hide Local, ListRead;
  }

  lemma InputLocal(kind: byte)
    ensures Local(InputRest(kind))
  {
    hide Local, U8, U16, U32, I32, Flag;
    NumbersLocal();
    if kind == I_MOVE {
      ThreeLocal(U32, U32, U32, (d, x, y) => MouseMove(d, x, y));
    } else if kind == I_BUTTON {
      ThreeLocal(U32, U8, Flag, (d, button, pressed) => MouseButton(d, button, pressed));
    } else if kind == I_WHEEL {
      ThreeLocal(U32, I32, I32, (d, dx, dy) => MouseWheel(d, dx, dy));
    } else if kind == I_KEY {
      TwoLocal(U16, Flag, (code, pressed) => Key(code, pressed));
    } else {
      RefuseLocal<InputEvent>(Invalid);
    }
    hide Two, Three;
  }

  lemma BodyLocal(kind: byte)
    ensures Local(BodyRead(kind))
  {
    hide Local, U8, U16, U32, I32, Flag, Str, Data, Then, CountedRead, InputRest, FileOrAuthRead;
    NumbersLocal();
    StrLocal();
    DataLocal();
    if kind == T_HELLO {
      TwoLocal(U16, Str, (version, name) => Hello(version, name));
    } else if kind == T_HELLO_ACK {
      MapLocal(U16, version => HelloAck(version));
    } else if kind == T_DISPLAYS {
      forall count ensures Local(CountedRead(count)) {
        CountedLocal(count);
      }
      ThenLocal(U16, CountedRead);
      MapLocal(Then(U16, CountedRead), ds => Displays(ds));
    } else if kind == T_VIDEO {
      FourLocal(U32, U32, U8, Data, (d, pts, flags, data) => Video(d, pts, flags % 2 == 1, data));
    } else if kind == T_INPUT {
      forall k ensures Local(InputRest(k)) {
        InputLocal(k);
      }
      ThenLocal(U8, InputRest);
      MapLocal(Then(U8, InputRest), event => Input(event));
    } else {
      FileOrAuthLocal(kind);
    }
    hide Map, Two, Four;
  }

  lemma FileOrAuthLocal(kind: byte)
    ensures Local(FileOrAuthRead(kind))
  {
    hide Local, U32, U64, Hash, Str, Data;
    NumbersLocal();
    StrLocal();
    DataLocal();
    if kind == T_FILE_OFFER {
      ThreeLocal(U32, U64, Str, (id, size, name) => FileOffer(id, name, size));
    } else if kind == T_FILE_ACCEPT {
      MapLocal(U32, id => FileAccept(id));
    } else if kind == T_FILE_CHUNK {
      ThreeLocal(U32, U64, Data, (id, offset, data) => FileChunk(id, offset, data));
    } else if kind == T_FILE_ACK {
      TwoLocal(U32, U64, (id, offset) => FileAck(id, offset));
    } else if kind == T_FILE_COMPLETE {
      TwoLocal(U32, Hash, (id, sha256) => FileComplete(id, sha256));
    } else if kind == T_FILE_CANCEL {
      TwoLocal(U32, Str, (id, reason) => FileCancel(id, reason));
    } else if kind == T_PING {
      MapLocal(U64, nonce => Ping(nonce));
    } else if kind == T_PONG {
      MapLocal(U64, nonce => Pong(nonce));
    } else if kind == T_AUTH {
      MapLocal(Data, spake2 => Auth(spake2));
    } else if kind == T_AUTH_CONFIRM {
      MapLocal(Hash, mac => AuthConfirm(mac));
    } else if kind == T_AUTH_DENIED {
      TwoLocal(U32, Str, (secs, reason) => AuthDenied(secs, reason));
    } else {
      RefuseLocal<Message>(UnknownType(kind));
    }
    hide Map, Two, Three;
  }

  lemma SameInput(b: bytes)
    ensures Then(U8, InputRest)(b) == ParseInput(b)
  {
    hide U8, U16, U32, I32, Flag, Two, Three;
    var kind := U8(b);
    if kind.Done? {
      var r := kind.rest;
      assert Then(U8, InputRest)(b) == InputRest(kind.value)(r);
      if kind.value == I_MOVE {
        ThreeIs(U32, U32, U32, (d, x, y) => MouseMove(d, x, y), r);
      } else if kind.value == I_BUTTON {
        ThreeIs(U32, U8, Flag, (d, button, pressed) => MouseButton(d, button, pressed), r);
      } else if kind.value == I_WHEEL {
        ThreeIs(U32, I32, I32, (d, dx, dy) => MouseWheel(d, dx, dy), r);
      } else if kind.value == I_KEY {
        TwoIs(U16, Flag, (code, pressed) => Key(code, pressed), r);
      }
    }
  }

  lemma SameFileOrAuth(kind: byte, b: bytes)
    ensures FileOrAuthRead(kind)(b) == ParseRest(kind, b)
  {
    hide U32, U64, Hash, Str, Data, Map, Two, Three;
    if kind == T_FILE_OFFER {
      ThreeIs(U32, U64, Str, (id, size, name) => FileOffer(id, name, size), b);
    } else if kind == T_FILE_ACCEPT {
      MapIs(U32, id => FileAccept(id), b);
    } else if kind == T_FILE_CHUNK {
      ThreeIs(U32, U64, Data, (id, offset, data) => FileChunk(id, offset, data), b);
    } else if kind == T_FILE_ACK {
      TwoIs(U32, U64, (id, offset) => FileAck(id, offset), b);
    } else if kind == T_FILE_COMPLETE {
      TwoIs(U32, Hash, (id, sha256) => FileComplete(id, sha256), b);
    } else if kind == T_FILE_CANCEL {
      TwoIs(U32, Str, (id, reason) => FileCancel(id, reason), b);
    } else if kind == T_PING {
      MapIs(U64, nonce => Ping(nonce), b);
    } else if kind == T_PONG {
      MapIs(U64, nonce => Pong(nonce), b);
    } else if kind == T_AUTH {
      MapIs(Data, spake2 => Auth(spake2), b);
    } else if kind == T_AUTH_CONFIRM {
      MapIs(Hash, mac => AuthConfirm(mac), b);
    } else if kind == T_AUTH_DENIED {
      TwoIs(U32, Str, (secs, reason) => AuthDenied(secs, reason), b);
    }
  }

  lemma SameCounted(b: bytes)
    ensures Then(U16, CountedRead)(b) == match U16(b)
                                         case Fail(e) => Fail(e)
                                         case Done(count, rest) =>
                                           if count > MAX_DISPLAYS then Fail(Invalid) else DisplayList(rest, count, [])
  {
    hide U16, DisplayList;
    var count := U16(b);
    if count.Done? {
      assert Then(U16, CountedRead)(b) == CountedRead(count.value)(count.rest);
    }
  }

  lemma SameBody(kind: byte, b: bytes)
    ensures BodyRead(kind)(b) == ParseBody(kind, b)
  {
    hide U8, U16, U32, Str, Data, DisplayList, ParseInput, ParseRest, FileOrAuthRead, Map, Two, Four, Then;
    if kind == T_HELLO {
      TwoIs(U16, Str, (version, name) => Hello(version, name), b);
    } else if kind == T_HELLO_ACK {
      MapIs(U16, version => HelloAck(version), b);
    } else if kind == T_DISPLAYS {
      MapIs(Then(U16, CountedRead), ds => Displays(ds), b);
      SameCounted(b);
    } else if kind == T_VIDEO {
      FourIs(U32, U32, U8, Data, (d, pts, flags, data) => Video(d, pts, flags % 2 == 1, data), b);
    } else if kind == T_INPUT {
      MapIs(Then(U8, InputRest), event => Input(event), b);
      SameInput(b);
    } else {
      SameFileOrAuth(kind, b);
    }
  }

  lemma CutBody(kind: byte, b: bytes, n: nat)
    requires n <= |b|
    ensures Cuts(b, n, ParseBody(kind, b), ParseBody(kind, b[..n]))
  {
    BodyLocal(kind);
    SameBody(kind, b);
    SameBody(kind, b[..n]);
    hide Cuts, BodyRead, ParseBody;
    assert LocalAt(BodyRead(kind), b, n);
  }

  // ---------------------------------------------------------- the results

  /** A message cut short at any byte is reported as truncated, never read as another message. */
  lemma CutShort(m: Message, n: nat)
    requires WellFormed(m) && n < |Encode(m)|
    ensures Decode(Encode(m)[..n]) == Err(Truncated)
  {
    DecodeEncode(m);
    hide Encode, WellFormed;
    var b := Encode(m);
    if n > 0 {
      assert b[..n][1..] == b[1..][..n - 1];
      CutBody(b[0], b[1..], n - 1);
    }
    hide ParseBody;
  }

  /** A message with anything behind it is refused. */
  lemma Trailing(m: Message, more: bytes)
    requires WellFormed(m) && more != []
    ensures Decode(Encode(m) + more) == Err(Invalid)
  {
    DecodeEncode(m);
    TrailingBody(Encode(m), m, more);
  }

  lemma TrailingBody(whole: bytes, m: Message, more: bytes)
    requires Decode(whole) == Ok(m) && more != []
    ensures Decode(whole + more) == Err(Invalid)
  {
    hide ParseBody, WellFormed;
    var b := whole + more;
    var n := |whole| - 1;
    assert b[1..][..n] == whole[1..] && b[0] == whole[0];
    var p := ParseBody(b[0], b[1..]);
    assert ParseBody(b[0], b[1..][..n]) == Done(m, []);
    CutBody(b[0], b[1..], n);
    assert p.Done? && |p.rest| == |more|;
    assert U8(b) == Done(b[0], b[1..]);
  }

  /** A type byte that no message has is reported as such, whatever follows. */
  lemma UnknownKind(kind: byte, body: bytes)
    requires kind == 0 || kind >= 17
    ensures Decode([kind] + body) == Err(UnknownType(kind))
  {
    assert ([kind] + body)[1..] == body;
    UnknownFails(kind, body);
    hide ParseBody;
  }

  // What is invalid in itself, whatever follows.

  /** A pressed flag other than 0 and 1. */
  lemma BadFlag(x: byte, tail: bytes)
    requires x >= 2
    ensures Flag([x] + tail) == Fail(Invalid)
  {
    TakeAppended([x], tail);
  }

  lemma BadPressed(d: u32, button: byte, code: u16, x: byte, tail: bytes)
    requires x >= 2
    ensures ParseInput(Put8(2, Put32(d, Put8(button, [x] + tail)))) == Fail(Invalid)
    ensures ParseInput(Put8(4, Put16(code, [x] + tail))) == Fail(Invalid)
  {
    BadFlag(x, tail);
    hide Flag, Put8, Put16, Put32;
  }

  /** An input kind that does not exist. */
  lemma BadInput(kind: byte, tail: bytes)
    requires kind == 0 || kind >= 5
    ensures Decode([5, kind] + tail) == Err(Invalid)
  {
    var b := [5, kind] + tail;
    assert b[1..] == [kind] + tail && ([kind] + tail)[1..] == tail;
    assert ParseInput(b[1..]) == Fail(Invalid);
    assert U8(b) == Done(5, b[1..]);
    hide ParseInput;
  }

  /** More than 16 displays. */
  lemma TooManyDisplays(count: nat, tail: bytes)
    requires 16 < count < 0x1_0000
    ensures Decode([3, count % 256, count / 256] + tail) == Err(Invalid)
  {
    LittleEndian2(count);
    var b := [3, count % 256, count / 256] + tail;
    var body := Put16(count, tail);
    assert b == [3] + body && b[1..] == body;
    assert ParseBody(3, body) == Fail(Invalid);
    assert U8(b) == Done(3, body);
    hide ParseBody;
  }

  /** A display without width, height or scale. */
  lemma BadDisplay(d: DisplayInfo, tail: bytes)
    requires ShortText(d.name) && (d.width == 0 || d.height == 0 || d.scalePercent == 0)
    ensures Display(PutDisplay(d, tail)) == Fail(Invalid)
  {
    hide Str, PutStr;
    PutStrReads(d.name, tail);
  }

  /** A payload announced as longer than 8 MiB. */
  lemma DataTooLong(len: u32, tail: bytes)
    requires len > 8_388_608
    ensures Data(ToLE(len, 4) + tail) == Fail(Invalid)
  {
    assert ToLE(len, 4) + tail == Put32(len, tail);
  }
}
