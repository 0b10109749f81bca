/**
  The layout tables of the protocol's documentation, as the list of fields of
  each message: what `Encode` writes is exactly those fields one after the other.
  */
module WireLayout {
  import opened Bytes
  import opened Utf8
  import opened Wire

  function TextField(t: Text): bytes {
    ToLE(|t|, 2) + t
  }

  function DataField(data: bytes): bytes {
    ToLE(|data|, 4) + data
  }

  /** Two's complement. */
  function SignedField(x: i32): bytes {
    ToLE(CastU32(x), 4)
  }

  function FlagField(v: bool): bytes {
    [if v then 1 else 0]
  }

  function DisplayFields(d: DisplayInfo): seq<bytes> {
    [ToLE(d.id, 4), SignedField(d.x), SignedField(d.y), ToLE(d.width, 4), ToLE(d.height, 4),
     ToLE(d.scalePercent, 2), TextField(d.name)]
  }

  function AllDisplays(ds: seq<DisplayInfo>): bytes {
    if ds == [] then [] else Concat(DisplayFields(ds[0])) + AllDisplays(ds[1..])
  }

  function InputFields(e: InputEvent): seq<bytes> {
    match e
    case MouseMove(d, x, y) => [[1], ToLE(d, 4), ToLE(x, 4), ToLE(y, 4)]
    case MouseButton(d, button, pressed) => [[2], ToLE(d, 4), [button], FlagField(pressed)]
    case MouseWheel(d, dx, dy) => [[3], ToLE(d, 4), SignedField(dx), SignedField(dy)]
    case Key(code, pressed) => [[4], ToLE(code, 2), FlagField(pressed)]
  }

  function Fields(m: Message): seq<bytes> {
    match m
    case Hello(version, name) => [[1], ToLE(version, 2), TextField(name)]
    case HelloAck(version) => [[2], ToLE(version, 2)]
    case Displays(ds) => [[3], ToLE(|ds|, 2), AllDisplays(ds)]
    case Video(d, pts, keyframe, data) => [[4], ToLE(d, 4), ToLE(pts, 4), FlagField(keyframe), DataField(data)]
    case Input(event) => [[5], Concat(InputFields(event))]
    case FileOffer(id, name, size) => [[6], ToLE(id, 4), ToLE(size, 8), TextField(name)]
    case FileAccept(id) => [[7], ToLE(id, 4)]
    case FileChunk(id, offset, data) => [[8], ToLE(id, 4), ToLE(offset, 8), DataField(data)]
    case FileAck(id, offset) => [[9], ToLE(id, 4), ToLE(offset, 8)]
    case FileComplete(id, sha256) => [[10], ToLE(id, 4), sha256]
    case FileCancel(id, reason) => [[11], ToLE(id, 4), TextField(reason)]
    case Ping(nonce) => [[12], ToLE(nonce, 8)]
    case Pong(nonce) => [[13], ToLE(nonce, 8)]
    case Auth(spake2) => [[14], DataField(spake2)]
    case AuthConfirm(mac) => [[15], mac]
    case AuthDenied(secs, reason) => [[16], ToLE(secs, 4), TextField(reason)]
  }

  lemma Next(parts: seq<bytes>)
    requires parts != []
    ensures Concat(parts) == parts[0] + Concat(parts[1..])
  {
  }

  lemma Two(a: bytes, b: bytes)
    ensures Concat([a, b]) == a + b
  {
    Next([a, b]);
    Next([b]);
    assert [a, b][1..] == [b] && [b][1..] == [];
    assert b + [] == b;
  }

  lemma Three(a: bytes, b: bytes, c: bytes)
    ensures Concat([a, b, c]) == a + (b + c)
  {
    Next([a, b, c]);
    Two(b, c);
    assert [a, b, c][1..] == [b, c];
  }

  lemma Four(a: bytes, b: bytes, c: bytes, d: bytes)
    ensures Concat([a, b, c, d]) == a + (b + (c + d))
  {
    Next([a, b, c, d]);
    Three(b, c, d);
    assert [a, b, c, d][1..] == [b, c, d];
  }

  lemma Five(a: bytes, b: bytes, c: bytes, d: bytes, e: bytes)
    ensures Concat([a, b, c, d, e]) == a + (b + (c + (d + e)))
  {
    Next([a, b, c, d, e]);
    Four(b, c, d, e);
    assert [a, b, c, d, e][1..] == [b, c, d, e];
  }

  lemma PutTextField(t: Text, tail: bytes)
    requires ShortText(t)
    ensures PutStr(t, tail) == TextField(t) + tail
  {
    assert t[..|t|] == t;
  }

  lemma PutDataField(data: bytes, tail: bytes)
    requires |data| <= MAX_FRAME_BYTES
    ensures PutData(data, tail) == DataField(data) + tail
  {
    hide ToLE;
    var len := ToLE(|data|, 4);
    assert len + (data + tail) == len + data + tail;
  }

  lemma PutDisplayFields(d: DisplayInfo, tail: bytes)
    requires ShortText(d.name)
    ensures PutDisplay(d, tail) == Concat(DisplayFields(d)) + tail
  {
    PutTextField(d.name, tail);
    var id, x, y, w, h, scale, name :=
      ToLE(d.id, 4), SignedField(d.x), SignedField(d.y), ToLE(d.width, 4), ToLE(d.height, 4), ToLE(d.scalePercent, 2),
      TextField(d.name);
    assert PutDisplay(d, tail) == id + (x + (y + (w + (h + (scale + (name + tail)))))) by {
      hide ToLE, PutStr, TextField;
    }
    hide PutDisplay, ToLE, SignedField, TextField;
    Seven(id, x, y, w, h, scale, name);
    Regroup(id, x, y, w, h, scale, name, tail);
  }

  lemma Seven(a: bytes, b: bytes, c: bytes, d: bytes, e: bytes, f: bytes, g: bytes)
    ensures Concat([a, b, c, d, e, f, g]) == a + (b + (c + (d + (e + (f + g)))))
  {
    Next([a, b, c, d, e, f, g]);
    Next([b, c, d, e, f, g]);
    Five(c, d, e, f, g);
    assert [a, b, c, d, e, f, g][1..] == [b, c, d, e, f, g];
    assert [b, c, d, e, f, g][1..] == [c, d, e, f, g];
  }

  lemma Regroup(a: bytes, b: bytes, c: bytes, d: bytes, e: bytes, f: bytes, g: bytes, tail: bytes)
    ensures a + (b + (c + (d + (e + (f + (g + tail)))))) == a + (b + (c + (d + (e + (f + g))))) + tail
  {
    var fg := f + g;
    assert f + (g + tail) == fg + tail;
    var eg := e + fg;
    assert e + (fg + tail) == eg + tail;
    var dg := d + eg;
    assert d + (eg + tail) == dg + tail;
    var cg := c + dg;
    assert c + (dg + tail) == cg + tail;
    var bg := b + cg;
    assert b + (cg + tail) == bg + tail;
    assert a + (bg + tail) == a + bg + tail;
  }

  lemma {:induction false} PutAllDisplays(ds: seq<DisplayInfo>)
    requires forall d :: d in ds ==> ShortText(d.name)
    ensures PutDisplays(ds, []) == AllDisplays(ds)
    decreases |ds|
  {
    hide PutDisplay, DisplayFields;
    if ds != [] {
      PutDisplayFields(ds[0], PutDisplays(ds[1..], []));
      PutAllDisplays(ds[1..]);
    }
  }

  lemma InputLayout(e: InputEvent)
    ensures EncodeInput(e) == Concat(InputFields(e))
  {
    hide ToLE;
    var f := InputFields(e);
    if e.Key? {
      Three(f[0], f[1], f[2]);
    } else {
      Four(f[0], f[1], f[2], f[3]);
    }
  }

  /** Every message is written as the tables say, field by field. */
  lemma Layout(m: Message)
    requires WellFormed(m)
    ensures Encode(m) == Concat(Fields(m))
  {
    hide Encode, Fields, Concat;
    match m
    case Hello(version, name) => TextLayout(m, name);
    case FileOffer(id, name, size) => TextLayout(m, name);
    case FileCancel(id, reason) => TextLayout(m, reason);
    case AuthDenied(secs, reason) => TextLayout(m, reason);
    case Video(d, pts, keyframe, data) => DataLayout(m, data);
    case FileChunk(id, offset, data) => DataLayout(m, data);
    case Auth(spake2) => DataLayout(m, spake2);
    case Displays(ds) => DisplaysLayout(ds);
    case Input(e) => InputMessageLayout(e);
    case _ => FixedLayout(m);
  }

  lemma DisplaysLayout(ds: seq<DisplayInfo>)
    requires WellFormed(Displays(ds))
    ensures Encode(Displays(ds)) == Concat(Fields(Displays(ds)))
  {
    PutAllDisplays(ds);
    PutCount(|ds|, PutDisplays(ds, []));
    hide PutDisplays, AllDisplays, Put8, Put16, ToLE, WellFormed, Concat;
    Three([3], ToLE(|ds|, 2), AllDisplays(ds));
  }

  lemma PutCount(count: nat, tail: bytes)
    requires count <= MAX_DISPLAYS
    ensures Put8(3, Put16(count % 0x1_0000, tail)) == [3] + (ToLE(count, 2) + tail)
  {
    hide ToLE;
  }

  lemma InputMessageLayout(e: InputEvent)
    ensures Encode(Input(e)) == Concat(Fields(Input(e)))
  {
    InputLayout(e);
    hide EncodeInput, InputFields;
    Two([5], Concat(InputFields(e)));
  }

  /** Lengths beyond their field are written modulo its range. */
  lemma LengthsWrap(ds: seq<DisplayInfo>, data: bytes, tail: bytes)
    ensures Encode(Displays(ds)) == [3, |ds| % 65536 % 256, |ds| % 65536 / 256] + PutDisplays(ds, [])
    ensures PutData(data, tail) == ToLE(|data| % 4_294_967_296, 4) + (data + tail)
  {
    CountBytes(|ds|, PutDisplays(ds, []));
    hide PutDisplays, Put8, Put16, ToLE;
  }

  lemma CountBytes(count: nat, tail: bytes)
    ensures Put8(3, Put16(count % 0x1_0000, tail)) == [3, count % 65536 % 256, count % 65536 / 256] + tail
  {
    LittleEndian2(count % 65536);
    hide ToLE;
    var n := count % 65536;
    assert [3] + ([n % 256, n / 256] + tail) == [3, n % 256, n / 256] + tail;
  }

  lemma TextLayout(m: Message, t: Text)
    requires WellFormed(m)
    requires match m
             case Hello(_, name) => t == name
             case FileOffer(_, name, _) => t == name
             case FileCancel(_, reason) => t == reason
             case AuthDenied(_, reason) => t == reason
             case _ => false
    ensures Encode(m) == Concat(Fields(m))
  {
    PutTextField(t, []);
    assert TextField(t) + [] == TextField(t);
    hide ToLE, PutStr, TextField;
    var f := Fields(m);
    if m.FileOffer? {
      Four(f[0], f[1], f[2], f[3]);
    } else {
      Three(f[0], f[1], f[2]);
    }
  }

  lemma DataLayout(m: Message, data: bytes)
    requires WellFormed(m)
    requires match m
             case Video(_, _, _, d) => data == d
             case FileChunk(_, _, d) => data == d
             case Auth(d) => data == d
             case _ => false
    ensures Encode(m) == Concat(Fields(m))
  {
    PutDataField(data, []);
    assert DataField(data) + [] == DataField(data);
    hide ToLE, PutData, DataField;
    var f := Fields(m);
    if m.Video? {
      Five(f[0], f[1], f[2], f[3], f[4]);
    } else if m.FileChunk? {
      Four(f[0], f[1], f[2], f[3]);
    } else {
      Two(f[0], f[1]);
    }
  }

  lemma FixedLayout(m: Message)
    requires match m
             case HelloAck(_) | FileAccept(_) | FileAck(_, _) | FileComplete(_, _) | Ping(_) | Pong(_) | AuthConfirm(_) => true
             case _ => false
    ensures Encode(m) == Concat(Fields(m))
  {
    hide ToLE;
    var f := Fields(m);
    if m.FileAck? || m.FileComplete? {
      Three(f[0], f[1], f[2]);
    } else {
      Two(f[0], f[1]);
    }
  }
}
