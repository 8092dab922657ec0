/** Framing as sendData does it, and the law the protocol is for: a stream of frames, with noise between them and
    damage inside some of them, is received as exactly the undamaged frames. */
module SerialRoundTrip {
  import opened Streams
  import opened SerialLink

  function Header(id: byte, len: byte): (h: seq<byte>)
    ensures |h| == 4
  {
    C8.Sealed([SOF, len, id, 0])
  }

  /** A frame on the wire: header with its CRC-8, payload, CRC-16 over everything before it. */
  function Frame(id: byte, len: byte, payload: seq<byte>): (f: seq<byte>)
    requires |payload| == len as int
    ensures |f| == |payload| + 6
  {
    C16.SealedIsAccepted(Header(id, len) + payload + [0, 0]);
    C16.Sealed(Header(id, len) + payload + [0, 0])
  }

  /** Fills in and seals a frame buffer the way sendData does. */
  method SealFrame(buf: array<byte>, id: byte, len: byte, payload: seq<byte>)
    requires |payload| == len as int && buf.Length == |payload| + 6
    modifies buf
    ensures buf[..] == Frame(id, len, payload)
  {
    PutHeader(buf, id, len);
    PutPayload(buf, payload);
    assert buf[..buf.Length] == buf[..];
    C16.AppendCrc16CheckSum(buf, buf.Length);
    assert buf[..buf.Length] == buf[..];
  }

  method PutHeader(buf: array<byte>, id: byte, len: byte)
    requires buf.Length >= 4
    modifies buf
    ensures buf[..4] == Header(id, len)
  {
    buf[0], buf[1], buf[2], buf[3] := SOF, len, id, 0;
    assert buf[..4] == [SOF, len, id, 0];
    C8.AppendCrc8CheckSum(buf, 4);
  }

  method PutPayload(buf: array<byte>, payload: seq<byte>)
    requires buf.Length == |payload| + 6
    modifies buf
    ensures buf[..] == old(buf[..4]) + payload + [0, 0]
  {
    forall i | 0 <= i < |payload| {
      buf[4 + i] := payload[i];
    }
    buf[4 + |payload|], buf[5 + |payload|] := 0, 0;
  }

  /** A frame starts with an accepted header that announces its length, and is accepted itself. */
  lemma FrameShape(id: byte, len: byte, payload: seq<byte>)
    requires |payload| == len as int
    ensures var f := Frame(id, len, payload);
            |f| == |payload| + 6 && f[..4] == Header(id, len) && f[4..|f| - 2] == payload && C16.Accepts(f)
    ensures var f := Frame(id, len, payload); f[0] == 0x5A && f[1] == len && f[2] == id && C8.Accepts(f[..4])
  {
    HeaderShape(id, len);
    var h := Header(id, len);
    var raw := h + payload + [0, 0];
    C16.SealedIsAccepted(raw);
    SealedPrefix(h, payload);
  }

  lemma SealedPrefix(h: seq<byte>, payload: seq<byte>)
    requires |h| == 4
    ensures var f := C16.Sealed(h + payload + [0, 0]);
            |f| == |payload| + 6 && f[..4] == h && f[4..|f| - 2] == payload
  {
    var raw := h + payload + [0, 0];
    assert raw[..|raw| - 2] == h + payload;
  }

  lemma HeaderShape(id: byte, len: byte)
    ensures var h := Header(id, len); h[0] == SOF && h[1] == len && h[2] == id && C8.Accepts(h)
  {
    C8.SealedIsAccepted([SOF, len, id, 0]);
  }

  /** A piece of traffic: bytes that are not a start of frame, then a frame. Of a `Framed` one the payload and the CRC-16
      had the bits of `err` flipped on the way; a `Headless` one arrives with a header that its CRC-8 rejects, and the
      bytes that follow it hold no start of frame. */
  datatype Item =
    | Framed(noise: seq<byte>, id: byte, len: byte, payload: seq<byte>, err: seq<byte>)
    | Headless(noise: seq<byte>, header: seq<byte>, body: seq<byte>)

  ghost predicate Sent(item: Item) {
    && SOF !in item.noise
    && (item.Framed? ==>
          && |item.payload| == item.len as int && |item.err| == |item.payload| + 2
          && (Clean(item) || C16.Detectable(FullError(item))))
    && (item.Headless? ==>
          |item.header| == 4 && item.header[0] == SOF && !C8.Accepts(item.header) && SOF !in item.body)
  }

  predicate Clean(item: Item) {
    item.Framed? && item.err == C16.ZeroBytes(|item.err|)
  }

  /** The error pattern over the whole frame: the header arrives intact. */
  function FullError(item: Item): seq<byte>
    requires item.Framed?
  {
    C16.ZeroBytes(4) + item.err
  }

  ghost function SentFrame(item: Item): (f: seq<byte>)
    requires Sent(item) && item.Framed?
    ensures |f| == |item.payload| + 6
  {
    FrameShape(item.id, item.len, item.payload);
    Frame(item.id, item.len, item.payload)
  }

  ghost function OnWire(item: Item): seq<byte>
    requires Sent(item)
  {
    if item.Headless? then item.header + item.body else C16.Damaged(SentFrame(item), FullError(item))
  }

  ghost function Stream(items: seq<Item>): seq<byte>
    requires forall item | item in items :: Sent(item)
  {
    if items == [] then [] else items[0].noise + OnWire(items[0]) + Stream(items[1..])
  }

  /** What one item contributes: its frame if it is undamaged, unless it is a debug frame, of id 1, nobody asked for. */
  ghost function Contribution(item: Item, debug: bool): seq<seq<byte>>
    requires Sent(item)
  {
    if Clean(item) && (debug || item.id != 0x01) then [SentFrame(item)] else []
  }

  ghost function Expected(items: seq<Item>, debug: bool): seq<seq<byte>>
    requires forall item | item in items :: Sent(item)
  {
    if items == [] then [] else Contribution(items[0], debug) + Expected(items[1..], debug)
  }

  function Parser(debug: bool): seq<byte> -> seq<seq<byte>> {
    (wire: seq<byte>) => Parse(wire, debug)
  }

  lemma OneNoiseByte(b: byte, debug: bool)
    requires b != SOF
    ensures Means(Parser(debug), [b], [])
  {
    forall rest ensures Parser(debug)([b] + rest) == [] + Parser(debug)(rest) {
      assert ([b] + rest)[1..] == rest;
    }
  }

  lemma {:induction false} NoiseMeansNothing(noise: seq<byte>, debug: bool)
    requires SOF !in noise
    ensures Means(Parser(debug), noise, [])
    decreases |noise|
  {
    if noise == [] {
      MeansNothing(Parser(debug));
    } else {
      OneNoiseByte(noise[0], debug);
      NoiseMeansNothing(noise[1..], debug);
      MeansConcat(Parser(debug), [noise[0]], [], noise[1..], []);
      assert noise == [noise[0]] + noise[1..];
    }
  }

  lemma XorByteNothing(a: byte)
    ensures C16.XorByte(a, 0) == a
  {
  }

  lemma DamageBytes(f: seq<byte>, e: seq<byte>)
    requires |f| == |e| >= 4 && e[..4] == C16.ZeroBytes(4)
    ensures |C16.Damaged(f, e)| == |f| && C16.Damaged(f, e)[..4] == f[..4]
    ensures e == C16.ZeroBytes(|e|) ==> C16.Damaged(f, e) == f
  {
    var w := C16.Damaged(f, e);
    forall i | 0 <= i < |f| && e[i] == 0 ensures w[i] == f[i] {
      assert w[i] == C16.XorByte(f[i], e[i]);
      XorByteNothing(f[i]);
    }
    assert forall i | 0 <= i < 4 :: e[i] == e[..4][i] == 0;
  }

  lemma CleanError(item: Item)
    requires Clean(item)
    ensures FullError(item) == C16.ZeroBytes(|FullError(item)|)
  {
  }

  /** The header of what arrives is the header sent; the whole is the frame sent exactly when it is clean. */
  lemma ArrivedShape(item: Item)
    requires Sent(item) && item.Framed?
    ensures var f, w := SentFrame(item), OnWire(item);
            |w| == |f| && w[..4] == f[..4] == Header(item.id, item.len) &&
            (if Clean(item) then w == f && C16.Accepts(w) else !C16.Accepts(w))
  {
    var f, e := SentFrame(item), FullError(item);
    FrameShape(item.id, item.len, item.payload);
    assert e[..4] == C16.ZeroBytes(4);
    DamageBytes(f, e);
    if Clean(item) {
      CleanError(item);
    } else {
      C16.DetectableIsRejected(f, e);
    }
  }

  lemma FrameTurn(header: seq<byte>, body: seq<byte>, rest: seq<byte>, debug: bool)
    requires |header| == 4 && header[0] == SOF && C8.Accepts(header) && |body| == header[1] as int + 2
    ensures Parse(header + body + rest, debug) ==
            (if Delivered(header + body, debug) then [header + body] else []) + Parse(rest, debug)
  {
    var line := body + rest;
    var wire := header + line;
    assert header + body + rest == wire;
    assert wire[..4] == header && wire[4..] == line;
    assert line[..|body|] == body && line[|body|..] == rest;
  }

  lemma FrameMeans(header: seq<byte>, body: seq<byte>, debug: bool)
    requires |header| == 4 && header[0] == SOF && C8.Accepts(header) && |body| == header[1] as int + 2
    ensures Means(Parser(debug), header + body, if Delivered(header + body, debug) then [header + body] else [])
  {
    forall rest {
      FrameTurn(header, body, rest, debug);
    }
  }

  /** A rejected header is skipped as a whole. */
  lemma RejectedHeader(header: seq<byte>, debug: bool)
    requires |header| == 4 && header[0] == SOF && !C8.Accepts(header)
    ensures Means(Parser(debug), header, [])
  {
    forall rest ensures Parser(debug)(header + rest) == [] + Parser(debug)(rest) {
      assert (header + rest)[..4] == header && (header + rest)[4..] == rest;
    }
  }

  lemma HeadlessMeans(header: seq<byte>, body: seq<byte>, debug: bool)
    requires |header| == 4 && header[0] == SOF && !C8.Accepts(header) && SOF !in body
    ensures Means(Parser(debug), header + body, [])
  {
    RejectedHeader(header, debug);
    NoiseMeansNothing(body, debug);
    MeansConcat(Parser(debug), header, [], body, []);
  }

  lemma StartHit(f: seq<byte>, b: byte, debug: bool)
    requires f != [] && b != SOF && SOF !in f[1..]
    ensures Means(Parser(debug), f[0 := b], [])
  {
    assert f[0 := b] == [b] + f[1..];
    NoiseMeansNothing(f[0 := b], debug);
  }

  lemma HeaderHit(f: seq<byte>, i: nat, b: byte, debug: bool)
    requires 1 <= i < 4 <= |f| && f[0] == SOF && C8.Accepts(f[..4]) && b != f[i] && SOF !in f[4..]
    ensures Means(Parser(debug), f[i := b], [])
  {
    C8.OneByteIsRejected(f[..4], i, b);
    assert f[i := b] == f[..4][i := b] + f[4..];
    HeadlessMeans(f[..4][i := b], f[4..], debug);
  }

  /** A frame with any one byte of its header changed in any way is lost, and only it, if no start of frame turns up in
      what is then read as noise: the bytes after the header, or all of it when the start byte itself is hit. */
  lemma OneByteOfHeader(id: byte, len: byte, payload: seq<byte>, i: nat, b: byte, debug: bool)
    requires |payload| == len as int && i < 4
    requires b != Frame(id, len, payload)[i]
    requires SOF !in Frame(id, len, payload)[if i == 0 then 1 else 4..]
    ensures Means(Parser(debug), Frame(id, len, payload)[i := b], [])
  {
    var f := Frame(id, len, payload);
    FrameShape(id, len, payload);
    if i == 0 {
      StartHit(f, b, debug);
    } else {
      HeaderHit(f, i, b, debug);
    }
  }

  /** One arrived frame is one turn of the receiver, or a skipped header and noise. */
  lemma ArrivedMeans(item: Item, debug: bool)
    requires Sent(item)
    ensures Means(Parser(debug), OnWire(item), Contribution(item, debug))
  {
    if item.Headless? {
      HeadlessMeans(item.header, item.body, debug);
    } else {
      FramedMeans(item, debug);
    }
  }

  lemma FramedMeans(item: Item, debug: bool)
    requires Sent(item) && item.Framed?
    ensures Means(Parser(debug), OnWire(item), Contribution(item, debug))
  {
    var w := OnWire(item);
    ArrivedShape(item);
    HeaderShape(item.id, item.len);
    assert w == w[..4] + w[4..];
    assert w[2] == w[..4][2];
    FrameMeans(w[..4], w[4..], debug);
  }

  lemma ItemMeans(item: Item, debug: bool)
    requires Sent(item)
    ensures Means(Parser(debug), item.noise + OnWire(item), Contribution(item, debug))
  {
    NoiseMeansNothing(item.noise, debug);
    ArrivedMeans(item, debug);
    MeansConcat(Parser(debug), item.noise, [], OnWire(item), Contribution(item, debug));
    assert [] + Contribution(item, debug) == Contribution(item, debug);
  }

  /** Parsing what was sent gives exactly the undamaged frames, in order, and then whatever follows. */
  lemma {:induction false} StreamRoundTrip(items: seq<Item>, debug: bool)
    requires forall item | item in items :: Sent(item)
    ensures Means(Parser(debug), Stream(items), Expected(items, debug))
    decreases |items|
  {
    if items == [] {
      MeansNothing(Parser(debug));
    } else {
      ItemMeans(items[0], debug);
      StreamRoundTrip(items[1..], debug);
      MeansConcat(Parser(debug), items[0].noise + OnWire(items[0]), Contribution(items[0], debug),
                  Stream(items[1..]), Expected(items[1..], debug));
    }
  }

  lemma ParseStream(items: seq<Item>, noise: seq<byte>, debug: bool)
    requires (forall item | item in items :: Sent(item)) && SOF !in noise
    ensures Parse(Stream(items) + noise, debug) == Expected(items, debug)
  {
    StreamRoundTrip(items, debug);
    NoiseMeansNothing(noise, debug);
    MeansConcat(Parser(debug), Stream(items), Expected(items, debug), noise, []);
    assert Expected(items, debug) + [] == Expected(items, debug);
    MeansAtEnd(Parser(debug), Stream(items) + noise, Expected(items, debug));
  }

  /** The receive loop on such a stream, however its bodies are cut into reads. */
  method ReceiveStream(port: SerialPort, ghost items: seq<Item>, ghost noise: seq<byte>, debug: bool)
    returns (buffers: seq<seq<byte>>)
    requires forall item | item in items :: Sent(item)
    requires SOF !in noise && port.wire == Stream(items) + noise
    modifies port
    ensures port.headersWhole ==> Carries(buffers, Expected(items, debug))
    ensures forall b | b in buffers :: Checked(b)
  {
    ParseStream(items, noise, debug);
    ghost var cuts;
    buffers, cuts := ReceiveData(port, debug);
  }

  /** A header read that returned only the length and the id leaves a zero where the CRC-8 belongs: the header is rejected
      unless its CRC-8 is 0. */
  lemma ShortHeaderIsRejected(id: byte, len: byte)
    ensures C8.Accepts([SOF, len, id, 0]) <==> Header(id, len)[3] == 0
  {
    var h := Header(id, len);
    HeaderShape(id, len);
    if h[3] != 0 {
      C8.OneByteIsRejected(h, 3, 0);
      assert h[3 := 0] == [SOF, len, id, 0];
    } else {
      assert h == [SOF, len, id, 0];
    }
  }
}
