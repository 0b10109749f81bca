/**
  The codec as the program runs it: a growing byte vector written field by
  field, and a cursor that reads fields from a buffer. Both are proved to
  compute the functions of module Wire.
  */
module WireIo {
  import opened Bytes
  import opened Utf8
  import opened Wire
  import opened ByteVecs

  // Each writer appends one field. Put in front of any tail, that field is
  // what the `Put` function of Wire writes.

  method WriteU8(out: ByteVec, v: byte)
    modifies out
    ensures forall tail {:trigger Put8(v, tail)} :: old(out.contents) + Put8(v, tail) == out.contents + tail
  {
    out.Extend([v]);
    AppendAssociates(old(out.contents), [v]);
  }

  method WriteU16(out: ByteVec, v: u16)
    modifies out
    ensures forall tail {:trigger Put16(v, tail)} :: old(out.contents) + Put16(v, tail) == out.contents + tail
  {
    out.Extend(ToLE(v, 2));
    AppendAssociates(old(out.contents), ToLE(v, 2));
  }

  method WriteU32(out: ByteVec, v: u32)
    modifies out
    ensures forall tail {:trigger Put32(v, tail)} :: old(out.contents) + Put32(v, tail) == out.contents + tail
  {
    out.Extend(ToLE(v, 4));
    AppendAssociates(old(out.contents), ToLE(v, 4));
  }

  method WriteU64(out: ByteVec, v: u64)
    modifies out
    ensures forall tail {:trigger Put64(v, tail)} :: old(out.contents) + Put64(v, tail) == out.contents + tail
  {
    out.Extend(ToLE(v, 8));
    AppendAssociates(old(out.contents), ToLE(v, 8));
  }

  method WriteI32(out: ByteVec, v: i32)
    modifies out
    ensures forall tail {:trigger PutI32(v, tail)} :: old(out.contents) + PutI32(v, tail) == out.contents + tail
  {
    hide Put32;
    WriteU32(out, CastU32(v));
  }

  method WriteFlag(out: ByteVec, v: bool)
    modifies out
    ensures forall tail {:trigger PutFlag(v, tail)} :: old(out.contents) + PutFlag(v, tail) == out.contents + tail
  {
    hide Put8;
    WriteU8(out, if v then 1 else 0);
  }

  method WriteData(out: ByteVec, data: bytes)
    modifies out
    ensures forall tail {:trigger PutData(data, tail)} :: old(out.contents) + PutData(data, tail) == out.contents + tail
  {
    hide Put32;
    WriteU32(out, |data| % 0x1_0000_0000);
    label L:
    out.Extend(data);
    AppendAssociates(old@L(out.contents), data);
  }

  method WriteStr(out: ByteVec, text: Text)
    modifies out
    ensures forall tail {:trigger PutStr(text, tail)} :: old(out.contents) + PutStr(text, tail) == out.contents + tail
  {
    hide Put16;
    var len := Min(|text|, MAX_STRING_BYTES);
    WriteU16(out, len);
    label L:
    out.Extend(text[..len]);
    AppendAssociates(old@L(out.contents), text[..len]);
  }

  lemma AppendAssociates(s: bytes, t: bytes)
    ensures forall tail: bytes {:trigger t + tail} {:trigger s + t + tail} :: s + (t + tail) == s + t + tail
  {
    forall tail: bytes ensures s + (t + tail) == s + t + tail {
      assert s + (t + tail) == s + t + tail;
    }
  }

  method WriteDisplay(out: ByteVec, d: DisplayInfo)
    modifies out
    ensures forall tail {:trigger PutDisplay(d, tail)} :: old(out.contents) + PutDisplay(d, tail) == out.contents + tail
  {
    hide Put32, PutI32, Put16, PutStr;
    WriteU32(out, d.id);
    WriteI32(out, d.x);
    WriteI32(out, d.y);
    WriteU32(out, d.width);
    WriteU32(out, d.height);
    WriteU16(out, d.scalePercent);
    WriteStr(out, d.name);
  }

  method WriteDisplays(out: ByteVec, ds: seq<DisplayInfo>)
    modifies out
    ensures out.contents == old(out.contents) + PutDisplays(ds, [])
  {
    hide PutDisplay;
    assert ds[0..] == ds;
    for i := 0 to |ds|
      invariant out.contents + PutDisplays(ds[i..], []) == old(out.contents) + PutDisplays(ds, [])
    {
      assert ds[i..][1..] == ds[i + 1..];
      WriteDisplay(out, ds[i]);
    }
  }

  method WriteInput(out: ByteVec, e: InputEvent)
    modifies out
    ensures out.contents == old(out.contents) + EncodeInput(e)
  {
    hide Put8, Put16, Put32, PutI32, PutFlag;
    match e
    case MouseMove(d, x, y) =>
      WriteU8(out, I_MOVE);
      WriteU32(out, d);
      WriteU32(out, x);
      WriteU32(out, y);
    case MouseButton(d, button, pressed) =>
      WriteU8(out, I_BUTTON);
      WriteU32(out, d);
      WriteU8(out, button);
      WriteFlag(out, pressed);
    case MouseWheel(d, dx, dy) =>
      WriteU8(out, I_WHEEL);
      WriteU32(out, d);
      WriteI32(out, dx);
      WriteI32(out, dy);
    case Key(code, pressed) =>
      WriteU8(out, I_KEY);
      WriteU16(out, code);
      WriteFlag(out, pressed);
  }

  /** `Message::encode`. */
  method EncodeTo(out: ByteVec, m: Message)
    modifies out
    ensures out.contents == old(out.contents) + Encode(m)
  {
    hide Put8, Put16, Put32, Put64, PutFlag, PutData, PutStr, PutDisplays, EncodeInput;
    match m
    case Hello(version, name) =>
      WriteU8(out, T_HELLO);
      WriteU16(out, version);
      WriteStr(out, name);
    case HelloAck(version) =>
      WriteU8(out, T_HELLO_ACK);
      WriteU16(out, version);
    case Displays(ds) =>
      WriteU8(out, T_DISPLAYS);
      WriteU16(out, |ds| % 0x1_0000);
      WriteDisplays(out, ds);
    case Video(d, pts, keyframe, data) =>
      WriteU8(out, T_VIDEO);
      WriteU32(out, d);
      WriteU32(out, pts);
      WriteFlag(out, keyframe);
      WriteData(out, data);
    case Input(event) =>
      WriteU8(out, T_INPUT);
      WriteInput(out, event);
    case FileOffer(id, name, size) =>
      WriteU8(out, T_FILE_OFFER);
      WriteU32(out, id);
      WriteU64(out, size);
      WriteStr(out, name);
    case FileAccept(id) =>
      WriteU8(out, T_FILE_ACCEPT);
      WriteU32(out, id);
    case FileChunk(id, offset, data) =>
      WriteU8(out, T_FILE_CHUNK);
      WriteU32(out, id);
      WriteU64(out, offset);
      WriteData(out, data);
    case FileAck(id, offset) =>
      WriteU8(out, T_FILE_ACK);
      WriteU32(out, id);
      WriteU64(out, offset);
    case FileComplete(id, sha256) =>
      WriteU8(out, T_FILE_COMPLETE);
      WriteU32(out, id);
      out.Extend(sha256);
    case FileCancel(id, reason) =>
      WriteU8(out, T_FILE_CANCEL);
      WriteU32(out, id);
      WriteStr(out, reason);
    case Ping(nonce) =>
      WriteU8(out, T_PING);
      WriteU64(out, nonce);
    case Pong(nonce) =>
      WriteU8(out, T_PONG);
      WriteU64(out, nonce);
    case Auth(spake2) =>
      WriteU8(out, T_AUTH);
      WriteData(out, spake2);
    case AuthConfirm(mac) =>
      WriteU8(out, T_AUTH_CONFIRM);
      out.Extend(mac);
    case AuthDenied(secs, reason) =>
      WriteU8(out, T_AUTH_DENIED);
      WriteU32(out, secs);
      WriteStr(out, reason);
  }

  // --------------------------------------------------------------- reading

  /** A method result that is what parse `p` yields, with `rest` still unread. */
  ghost predicate Reads<T(!new)>(p: Parse<T>, r: Result<T>, rest: bytes) {
    match p
    case Done(v, rest') => r == Ok(v) && rest == rest'
    case Fail(e) => r == Err(e)
  }

  class Reader {
    const buf: bytes
    var pos: nat

    ghost predicate Valid()
      reads this
    {
      pos <= |buf|
    }

    ghost function Rest(): bytes
      reads this
      requires Valid()
    {
      buf[pos..]
    }

    constructor (buf: bytes)
      ensures Valid() && this.buf == buf && Rest() == buf
    {
      this.buf := buf;
      this.pos := 0;
    }

    method IsEmpty() returns (empty: bool)
      requires Valid()
      ensures empty <==> |Rest()| == 0
    {
      empty := pos >= |buf|;
    }

    method Take(n: nat) returns (r: Result<bytes>)
      requires Valid()
      modifies this
      ensures Valid() && Reads(Wire.Take(old(Rest()), n), r, Rest())
      ensures r.Err? ==> pos == old(pos)
    {
      var end := pos + n;
      if end > |buf| {
        return Err(Truncated);
      }
      assert Rest()[..n] == buf[pos..end] && Rest()[n..] == buf[end..];
      r := Ok(buf[pos..end]);
      pos := end;
    }

    method U8() returns (r: Result<byte>)
      requires Valid()
      modifies this
      ensures Valid() && Reads(Wire.U8(old(Rest())), r, Rest())
    {
      var s :- Take(1);
      r := Ok(s[0]);
    }

    method U16() returns (r: Result<u16>)
      requires Valid()
      modifies this
      ensures Valid() && Reads(Wire.U16(old(Rest())), r, Rest())
    {
      var s :- Take(2);
      Ranges();
      FromLEBound(s);
      r := Ok(FromLE(s));
    }

    method U32() returns (r: Result<u32>)
      requires Valid()
      modifies this
      ensures Valid() && Reads(Wire.U32(old(Rest())), r, Rest())
    {
      var s :- Take(4);
      Ranges();
      FromLEBound(s);
      r := Ok(FromLE(s));
    }

    method U64() returns (r: Result<u64>)
      requires Valid()
      modifies this
      ensures Valid() && Reads(Wire.U64(old(Rest())), r, Rest())
    {
      var s :- Take(8);
      Ranges();
      FromLEBound(s);
      r := Ok(FromLE(s));
    }

    method I32() returns (r: Result<i32>)
      requires Valid()
      modifies this
      ensures Valid() && Reads(Wire.I32(old(Rest())), r, Rest())
    {
      hide Wire.U32;
      var x :- U32();
      r := Ok(CastI32(x));
    }

    method Data() returns (r: Result<bytes>)
      requires Valid()
      modifies this
      ensures Valid() && Reads(Wire.Data(old(Rest())), r, Rest())
    {
      hide Wire.U32, Wire.Take;
      var len :- U32();
      if len > MAX_FRAME_BYTES {
        return Err(Invalid);
      }
      r := Take(len);
    }

    method Str() returns (r: Result<Text>)
      requires Valid()
      modifies this
      ensures Valid() && Reads(Wire.Str(old(Rest())), r, Rest())
    {
      hide Wire.U16, Wire.Take;
      var len :- U16();
      if len > MAX_STRING_BYTES {
        return Err(Invalid);
      }
      var s :- Take(len);
      r := if Utf8.Valid(s) then Ok(s) else Err(Utf8Error);
    }

    method Flag() returns (r: Result<bool>)
      requires Valid()
      modifies this
      ensures Valid() && Reads(Wire.Flag(old(Rest())), r, Rest())
    {
      hide Wire.U8;
      var x :- U8();
      r := if x == 0 then Ok(false) else if x == 1 then Ok(true) else Err(Invalid);
    }

    method Hash() returns (r: Result<Digest>)
      requires Valid()
      modifies this
      ensures Valid() && Reads(Wire.Hash(old(Rest())), r, Rest())
    {
      var s :- Take(32);
      r := Ok(s);
    }

    method Display() returns (r: Result<DisplayInfo>)
      requires Valid()
      modifies this
      ensures Valid() && Reads(Wire.Display(old(Rest())), r, Rest())
    {
      hide Wire.U32, Wire.I32, Wire.U16, Wire.Str;
      var id :- U32();
      var x :- I32();
      var y :- I32();
      var width :- U32();
      var height :- U32();
      var scale :- U16();
      var name :- Str();
      if width == 0 || height == 0 || scale == 0 {
        return Err(Invalid);
      }
      r := Ok(DisplayInfo(id, x, y, width, height, scale, name));
    }

    method DisplayList(count: nat) returns (r: Result<seq<DisplayInfo>>)
      requires Valid()
      modifies this
      ensures Valid() && Reads(Wire.DisplayList(old(Rest()), count, []), r, Rest())
    {
      hide Wire.Display;
      var ds := [];
      for i := 0 to count
        invariant Valid()
        invariant Wire.DisplayList(Rest(), count - i, ds) == Wire.DisplayList(old(Rest()), count, [])
      {
        var d :- Display();
        ds := ds + [d];
      }
      r := Ok(ds);
    }

    method Input() returns (r: Result<InputEvent>)
      requires Valid()
      modifies this
      ensures Valid() && Reads(ParseInput(old(Rest())), r, Rest())
    {
      hide Wire.U8, Wire.U16, Wire.U32, Wire.I32, Wire.Flag;
      var kind :- U8();
      if kind == I_MOVE {
        var d :- U32();
        var x :- U32();
        var y :- U32();
        r := Ok(MouseMove(d, x, y));
      } else if kind == I_BUTTON {
        var d :- U32();
        var button :- U8();
        var pressed :- Flag();
        r := Ok(MouseButton(d, button, pressed));
      } else if kind == I_WHEEL {
        var d :- U32();
        var dx :- I32();
        var dy :- I32();
        r := Ok(MouseWheel(d, dx, dy));
      } else if kind == I_KEY {
        var code :- U16();
        var pressed :- Flag();
        r := Ok(Key(code, pressed));
      } else {
        r := Err(Invalid);
      }
    }

    method Body(kind: byte) returns (r: Result<Message>)
      requires Valid()
      modifies this
      ensures Valid() && Reads(ParseBody(kind, old(Rest())), r, Rest())
    {
      hide Wire.U8, Wire.U16, Wire.U32, Wire.Data, Wire.Str, Wire.DisplayList, ParseInput, ParseRest;
      if kind == T_HELLO {
        var version :- U16();
        var name :- Str();
        r := Ok(Hello(version, name));
      } else if kind == T_HELLO_ACK {
        var version :- U16();
        r := Ok(HelloAck(version));
      } else if kind == T_DISPLAYS {
        var count :- U16();
        if count > MAX_DISPLAYS {
          return Err(Invalid);
        }
        var ds :- DisplayList(count);
        r := Ok(Displays(ds));
      } else if kind == T_VIDEO {
        var d :- U32();
        var pts :- U32();
        var flags :- U8();
        var data :- Data();
        r := Ok(Video(d, pts, flags % 2 == 1, data));
      } else if kind == T_INPUT {
        var event :- Input();
        r := Ok(Message.Input(event));
      } else {
        r := FileOrAuthBody(kind);
      }
    }

    method FileOrAuthBody(kind: byte) returns (r: Result<Message>)
      requires Valid()
      modifies this
      ensures Valid() && Reads(ParseRest(kind, old(Rest())), r, Rest())
    {
      hide Wire.U32, Wire.U64, Wire.Data, Wire.Str, Wire.Hash;
      if kind == T_FILE_OFFER {
        var id :- U32();
        var size :- U64();
        var name :- Str();
        r := Ok(FileOffer(id, name, size));
      } else if kind == T_FILE_ACCEPT {
        var id :- U32();
        r := Ok(FileAccept(id));
      } else if kind == T_FILE_CHUNK {
        var id :- U32();
        var offset :- U64();
        var data :- Data();
        r := Ok(FileChunk(id, offset, data));
      } else if kind == T_FILE_ACK {
        var id :- U32();
        var offset :- U64();
        r := Ok(FileAck(id, offset));
      } else if kind == T_FILE_COMPLETE {
        var id :- U32();
        var sha256 :- Hash();
        r := Ok(FileComplete(id, sha256));
      } else if kind == T_FILE_CANCEL {
        var id :- U32();
        var reason :- Str();
        r := Ok(FileCancel(id, reason));
      } else if kind == T_PING {
        var nonce :- U64();
        r := Ok(Ping(nonce));
      } else if kind == T_PONG {
        var nonce :- U64();
        r := Ok(Pong(nonce));
      } else if kind == T_AUTH {
        var spake2 :- Data();
        r := Ok(Auth(spake2));
      } else if kind == T_AUTH_CONFIRM {
        var mac :- Hash();
        r := Ok(AuthConfirm(mac));
      } else if kind == T_AUTH_DENIED {
        var secs :- U32();
        var reason :- Str();
        r := Ok(AuthDenied(secs, reason));
      } else {
        r := Err(UnknownType(kind));
      }
    }
  }

  /** `Message::decode`. */
  method DecodeFrom(buf: bytes) returns (r: Result<Message>)
    ensures r == Decode(buf)
  {
    hide ParseBody;
    var reader := new Reader(buf);
    var kind := reader.U8();
    if kind.Err? {
      return Err(kind.error);
    }
    r := ReadWhole(reader, kind.value);
  }

  method ReadWhole(reader: Reader, kind: byte) returns (r: Result<Message>)
    requires reader.Valid()
    modifies reader
    ensures r == Whole(ParseBody(kind, old(reader.Rest())))
  {
    hide ParseBody;
    r := reader.Body(kind);
    if r.Ok? {
      var empty := reader.IsEmpty();
      if !empty {
        r := Err(Invalid);
      }
    }
  }
}
