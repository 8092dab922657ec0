/** The serial frame protocol of standard_robot_pp_ros2: framing as sendData does it, the receive loop with its
    re-assembly of short reads, and a reference parser of the byte stream. */
module SerialLink {
  import C16 = Crc16Frame
  import C8 = Crc8

  type byte = bv8

  const SOF: byte := 0x5A
  const ID_DEBUG: byte := 0x01

  // ------------------------------------------------------- reference parser

  /** Whether a complete frame reaches the dispatch. */
  predicate Delivered(frame: seq<byte>, debug: bool)
    requires |frame| >= 4
  {
    (debug || frame[2] != ID_DEBUG) && C16.Accepts(frame)
  }

  /** What one turn of the receive loop makes of the bytes on the line: it waits for more, it moves on, or it
      hands over a frame. */
  datatype Turn = Wait | Skip(rest: seq<byte>) | Hand(frame: seq<byte>, rest: seq<byte>)

  /** What a turn makes of the line after an accepted header: the header announces the payload, which a CRC-16 follows. */
  function BodyTurn(header: seq<byte>, line: seq<byte>, debug: bool): (t: Turn)
    requires |header| == 4
    ensures t.Skip? || t.Hand? ==> |t.rest| < |line|
  {
    var n := header[1] as int + 2;
    if |line| < n then Wait
    else if Delivered(header + line[..n], debug) then Hand(header + line[..n], line[n..])
    else Skip(line[n..])
  }

  function NextTurn(wire: seq<byte>, debug: bool): (t: Turn)
    requires wire != []
    ensures t.Skip? || t.Hand? ==> |t.rest| < |wire|
  {
    if wire[0] != SOF then Skip(wire[1..])
    else if |wire| < 4 then Wait
    else if C8.Accepts(wire[..4]) then BodyTurn(wire[..4], wire[4..], debug)
    else Skip(wire[4..])
  }

  /** The frames an uninterrupted byte stream carries. */
  function Parse(wire: seq<byte>, debug: bool): seq<seq<byte>>
    decreases |wire|
  {
    if wire == [] then []
    else
      match NextTurn(wire, debug)
      case Wait => []
      case Skip(rest) => Parse(rest, debug)
      case Hand(frame, rest) => [frame] + Parse(rest, debug)
  }

  /** What a stream leaves unparsed at its end: the beginning of a frame. */
  function Unparsed(wire: seq<byte>, debug: bool): seq<byte>
    decreases |wire|
  {
    if wire == [] then []
    else
      match NextTurn(wire, debug)
      case Wait => wire
      case Skip(rest) => Unparsed(rest, debug)
      case Hand(_, rest) => Unparsed(rest, debug)
  }

  /** The turn with more bytes behind. */
  function WithMore(turn: Turn, more: seq<byte>): Turn {
    if turn.Wait? then turn else turn.(rest := turn.rest + more)
  }

  lemma BodyWithMore(header: seq<byte>, line: seq<byte>, more: seq<byte>, debug: bool)
    requires |header| == 4 && !BodyTurn(header, line, debug).Wait?
    ensures BodyTurn(header, line + more, debug) == WithMore(BodyTurn(header, line, debug), more)
  {
    SplitMore(line, more, header[1] as int + 2);
  }

  lemma SplitMore<T>(s: seq<T>, more: seq<T>, n: nat)
    requires n <= |s|
    ensures (s + more)[..n] == s[..n] && (s + more)[n..] == s[n..] + more
  {
  }

  /** More bytes behind do not change a turn that need not wait. */
  lemma TurnWithMore(wire: seq<byte>, more: seq<byte>, debug: bool)
    requires wire != [] && !NextTurn(wire, debug).Wait?
    ensures NextTurn(wire + more, debug) == WithMore(NextTurn(wire, debug), more)
  {
    SplitMore(wire, more, 1);
    if wire[0] == SOF {
      SplitMore(wire, more, 4);
      if C8.Accepts(wire[..4]) {
        BodyWithMore(wire[..4], wire[4..], more, debug);
      }
    }
  }

  /** A stream may be parsed in parts: the frames of the first part, and then those of what it leaves unparsed followed by
      the rest. So waiting neither loses nor invents a frame. */
  lemma {:induction false} ParseInParts(wire: seq<byte>, more: seq<byte>, debug: bool)
    ensures Parse(wire + more, debug) == Parse(wire, debug) + Parse(Unparsed(wire, debug) + more, debug)
    decreases |wire|
  {
    var later := Parse(Unparsed(wire, debug) + more, debug);
    if wire == [] {
      assert [] + more == more && [] + later == later;
    } else {
      var turn := NextTurn(wire, debug);
      if turn.Wait? {
        assert [] + later == later;
      } else {
        TurnWithMore(wire, more, debug);
        ParseInParts(turn.rest, more, debug);
        ParseOnce(wire, turn, Parse(turn.rest, debug), debug);
        ParseOnce(wire + more, WithMore(turn, more), Parse(turn.rest + more, debug), debug);
        Regroup(Handed(turn), Parse(turn.rest, debug), later);
      }
    }
  }

  /** A stream leaves unparsed nothing, or a start of frame with fewer bytes after it than its frame needs. */
  lemma {:induction false} UnparsedIsBegun(wire: seq<byte>, debug: bool)
    ensures var u := Unparsed(wire, debug);
            u == [] || (u[0] == SOF && (|u| < 4 || (C8.Accepts(u[..4]) && |u| < u[1] as int + 6)))
    decreases |wire|
  {
    if wire != [] {
      match NextTurn(wire, debug)
      case Wait => assert |wire| >= 4 ==> wire[..4][1] == wire[1];
      case Skip(rest) => UnparsedIsBegun(rest, debug);
      case Hand(_, rest) => UnparsedIsBegun(rest, debug);
    }
  }

  // --------------------------------------------------------- cut header reads

  /** A turn whose header read returned `cut` of the three bytes it asked for; zeros stand in the buffer for the
      others. */
  function CutTurn(wire: seq<byte>, cut: nat, debug: bool): (t: Turn)
    requires wire != [] && cut <= 3
    ensures t.Skip? || t.Hand? ==> |t.rest| < |wire|
  {
    if wire[0] != SOF then Skip(wire[1..])
    else if |wire| < 1 + cut then Wait
    else
      var header := wire[..1 + cut] + C16.ZeroBytes(3 - cut);
      if C8.Accepts(header) then BodyTurn(header, wire[1 + cut..], debug) else Skip(wire[1 + cut..])
  }

  /** A header read that is cut short acts as if zero bytes stood on the line in place of the missing ones, and the missing
      ones came after them. */
  lemma CutIsZeros(wire: seq<byte>, cut: nat, debug: bool)
    requires cut <= 3 && 1 + cut <= |wire| && wire[0] == SOF
    ensures CutTurn(wire, cut, debug) == NextTurn(wire[..1 + cut] + C16.ZeroBytes(3 - cut) + wire[1 + cut..], debug)
  {
    var header := wire[..1 + cut] + C16.ZeroBytes(3 - cut);
    SplitAt(header, wire[1 + cut..]);
  }

  lemma SplitAt<T>(s: seq<T>, t: seq<T>)
    ensures (s + t)[..|s|] == s && (s + t)[|s|..] == t
  {
  }

  /** Numbers of bytes that header reads may return. */
  predicate AreCuts(cuts: seq<nat>) {
    forall i | 0 <= i < |cuts| :: 1 <= cuts[i] <= 3
  }

  function Handed(turn: Turn): seq<seq<byte>> {
    if turn.Hand? then [turn.frame] else []
  }

  /** The frames found so far, what is still on the line, and whether the loop waits for more of it. */
  datatype Scanned = Scanned(frames: seq<seq<byte>>, rest: seq<byte>, waits: bool)

  /** The receive loop after |cuts| turns whose header reads, turn by turn, returned so many bytes. */
  function Scan(wire: seq<byte>, cuts: seq<nat>, debug: bool): Scanned
    requires AreCuts(cuts)
  {
    if cuts == [] then Scanned([], wire, false)
    else
      var n := |cuts| - 1;
      var s := Scan(wire, cuts[..n], debug);
      if s.waits || s.rest == [] then s
      else
        var turn := CutTurn(s.rest, cuts[n], debug);
        Scanned(s.frames + Handed(turn), if turn.Wait? then s.rest else turn.rest, turn.Wait?)
  }

  /** The loop can do no more. */
  predicate Done(s: Scanned) {
    s.waits || s.rest == []
  }

  lemma ScanMore(wire: seq<byte>, cuts: seq<nat>, cut: nat, debug: bool)
    requires AreCuts(cuts) && 1 <= cut <= 3
    ensures AreCuts(cuts + [cut])
    ensures var s := Scan(wire, cuts, debug);
            !Done(s) ==>
              var turn := CutTurn(s.rest, cut, debug);
              Scan(wire, cuts + [cut], debug) ==
              Scanned(s.frames + Handed(turn), if turn.Wait? then s.rest else turn.rest, turn.Wait?)
  {
    assert (cuts + [cut])[..|cuts|] == cuts;
  }

  /** With a complete header read the turn is the reference parser's. */
  lemma WholeTurn(wire: seq<byte>, debug: bool)
    requires wire != []
    ensures CutTurn(wire, 3, debug) == NextTurn(wire, debug)
  {
    if |wire| >= 4 {
      assert wire[..4] + C16.ZeroBytes(0) == wire[..4];
    }
  }

  predicate AllWhole(cuts: seq<nat>) {
    forall i | 0 <= i < |cuts| :: cuts[i] == 3
  }

  /** With complete header reads throughout the loop finds what the reference parser finds. */
  lemma {:induction false} WholeScan(wire: seq<byte>, cuts: seq<nat>, debug: bool)
    requires AllWhole(cuts)
    ensures var s := Scan(wire, cuts, debug);
            Parse(wire, debug) == s.frames + if s.waits then [] else Parse(s.rest, debug)
  {
    if cuts != [] {
      var n := |cuts| - 1;
      WholeScan(wire, cuts[..n], debug);
      var s := Scan(wire, cuts[..n], debug);
      if !Done(s) {
        WholeTurn(s.rest, debug);
        TurnOfParse(s.frames, s.rest, debug);
      }
    }
  }

  lemma TurnOfParse(frames: seq<seq<byte>>, wire: seq<byte>, debug: bool)
    requires wire != []
    ensures var turn := NextTurn(wire, debug);
            frames + Parse(wire, debug) ==
            frames + Handed(turn) + if turn.Wait? then [] else Parse(turn.rest, debug)
  {
    var turn := NextTurn(wire, debug);
    var later := if turn.Wait? then [] else Parse(turn.rest, debug);
    ParseOnce(wire, turn, later, debug);
    Regroup(frames, Handed(turn), later);
  }

  lemma ParseOnce(wire: seq<byte>, turn: Turn, later: seq<seq<byte>>, debug: bool)
    requires wire != [] && turn == NextTurn(wire, debug)
    requires later == if turn.Wait? then [] else Parse(turn.rest, debug)
    ensures Parse(wire, debug) == Handed(turn) + later
  {
    match turn
    case Wait =>
    case Skip(rest) => assert Handed(turn) + later == later;
    case Hand(frame, rest) => assert Handed(turn) == [frame];
  }

  lemma Regroup<T>(a: seq<T>, b: seq<T>, c: seq<T>)
    ensures a + (b + c) == a + b + c
  {
  }

  // ------------------------------------------------------------ the receiver

  /** The far end of the line: `wire` holds the bytes not yet read. `headersWhole` says that the driver does not cut the
      three-byte reads of headers; all other reads may be cut anywhere. `lengths` lists how many bytes each read returned. */
  class SerialPort {
    var wire: seq<byte>
    ghost var lengths: seq<nat>
    const headersWhole: bool

    constructor (bytes: seq<byte>, headersWhole: bool)
      ensures wire == bytes && lengths == [] && this.headersWhole == headersWhole
    {
      wire, lengths, this.headersWhole := bytes, [], headersWhole;
    }

    /** How many bytes must be on the line for a read not to block. */
    predicate Ready(size: nat, whole: bool)
      reads this
    {
      if whole then |wire| >= size else wire != []
    }

    /** A read returns at least one byte and at most what was asked for; how many is not the reader's choice, except that
        a `whole` read returns all. Where it would block it is not called. */
    method Receive(buf: array<byte>, whole: bool) returns (n: nat)
      requires buf.Length > 0 && Ready(buf.Length, whole)
      modifies this`wire, this`lengths, buf
      ensures 1 <= n <= buf.Length && n <= |old(wire)| && (whole ==> n == buf.Length)
      ensures buf[..] == old(wire)[..n] + old(buf[n..])
      ensures wire == old(wire)[n..] && lengths == old(lengths) + [n]
    {
      n :| 1 <= n <= buf.Length && n <= |wire| && (whole ==> n == buf.Length);
      forall i | 0 <= i < n {
        buf[i] := wire[i];
      }
      wire, lengths := wire[n..], lengths + [n];
    }
  }

  /** Reads the `n` bytes that follow a header, however they are cut into reads. The buffer starts at full size and
      each further read is INSERTED, so after a short read zero bytes are left behind the data. */
  method ReceiveBody(port: SerialPort, n: nat) returns (blocked: bool, data: seq<byte>, ghost pad: nat)
    requires n > 0
    modifies port
    ensures blocked ==> |old(port.wire)| < n
    ensures !blocked ==> n <= |old(port.wire)| && port.wire == old(port.wire)[n..]
    ensures !blocked ==> data == old(port.wire)[..n] + C16.ZeroBytes(pad)
    ensures old(port.lengths) <= port.lengths
  {
    ghost var wire := port.wire;
    data, pad := [], 0;
    if port.wire == [] {
      return true, data, pad;
    }
    var dataBuf := new byte[n](_ => 0);
    assert dataBuf[..] == C16.ZeroBytes(n);
    var receivedLen := port.Receive(dataBuf, false);
    data := dataBuf[..];
    var receivedLenSum := receivedLen;
    var remainLen := n - receivedLen;
    pad := remainLen;
    assert data == wire[..receivedLenSum] + C16.ZeroBytes(pad);
    while remainLen > 0
      invariant receivedLenSum + remainLen == n && 0 <= remainLen && 0 <= receivedLenSum <= |wire|
      invariant data == wire[..receivedLenSum] + C16.ZeroBytes(pad)
      invariant port.wire == wire[receivedLenSum..] && old(port.lengths) <= port.lengths
      decreases remainLen
    {
      if port.wire == [] {
        return true, data, pad;
      }
      var remainBuf := new byte[remainLen](_ => 0);
      assert remainBuf[..] == C16.ZeroBytes(remainLen);
      receivedLen := port.Receive(remainBuf, false);
      InsertFragment(wire, receivedLenSum, receivedLen, remainLen, pad);
      data := data[..receivedLenSum] + remainBuf[..] + data[receivedLenSum..];
      pad := remainLen - receivedLen + pad;
      assert wire[receivedLenSum..][receivedLen..] == wire[receivedLenSum + receivedLen..];
      receivedLenSum := receivedLenSum + receivedLen;
      remainLen := remainLen - receivedLen;
    }
    blocked := false;
  }

  lemma InsertFragment(wire: seq<byte>, sum: nat, len: nat, remain: nat, pad: nat)
    requires sum + len <= |wire| && len <= remain
    ensures var data := wire[..sum] + C16.ZeroBytes(pad);
            var buf := wire[sum..][..len] + C16.ZeroBytes(remain)[len..];
            data[..sum] + buf + data[sum..] == wire[..sum + len] + C16.ZeroBytes(remain - len + pad)
  {
    assert wire[..sum] + wire[sum..][..len] == wire[..sum + len];
    assert C16.ZeroBytes(remain)[len..] + C16.ZeroBytes(pad) == C16.ZeroBytes(remain - len + pad);
  }

  /** Buffers that carry the given frames, each followed by some zero bytes. */
  ghost predicate Carries(buffers: seq<seq<byte>>, frames: seq<seq<byte>>) {
    && |buffers| == |frames|
    && forall i | 0 <= i < |frames| :: exists k: nat :: buffers[i] == frames[i] + C16.ZeroBytes(k)
  }

  datatype Result = Waiting | Nothing | Buffer(data: seq<byte>)

  /** What the dispatch may rely on. */
  predicate Checked(data: seq<byte>) {
    |data| > 4 && C8.Accepts(data[..4]) && C16.Accepts(data)
  }

  /** What a turn may return when the line held `wire`: the frame itself is followed by zero bytes. */
  ghost predicate Answers(result: Result, rest: seq<byte>, turn: Turn) {
    match turn
    case Wait => result == Waiting
    case Skip(r) => result == Nothing && rest == r
    case Hand(frame, r) =>
      rest == r && result.Buffer? && exists k: nat :: result.data == frame + C16.ZeroBytes(k)
  }

  /** A padded frame is judged as the frame itself. */
  lemma JudgePadded(frame: seq<byte>, pad: nat, debug: bool)
    requires |frame| > 4
    ensures Delivered(frame, debug) <==>
            !(!debug && frame[2] == ID_DEBUG) && C16.Accepts(frame + C16.ZeroBytes(pad))
  {
    C16.PaddingIsInvisible(frame, pad);
  }

  /** Reads and checks the body of a frame whose header has been accepted. */
  method ReceiveFrame(port: SerialPort, header: seq<byte>, debug: bool) returns (result: Result)
    requires |header| == 4 && header[0] == SOF && C8.Accepts(header)
    modifies port
    ensures Answers(result, port.wire, BodyTurn(header, old(port.wire), debug))
    ensures old(port.lengths) <= port.lengths
    ensures result.Buffer? ==> Checked(result.data)
  {
    ghost var line := port.wire;
    var n := header[1] as int + 2;
    var blocked, body, pad := ReceiveBody(port, n);
    if blocked {
      return Waiting;
    }
    var data := header + body;
    ghost var frame := header + line[..n];
    assert data == frame + C16.ZeroBytes(pad) && data[..4] == header;
    JudgePadded(frame, pad, debug);
    if !debug && header[2] == ID_DEBUG {
      return Nothing;
    }
    if !C16.Accepts(data) {
      return Nothing;
    }
    return Buffer(data);
  }

  /** One turn of the receive loop: what the reference says for a header read of `cut` bytes, which is what the second read
      of the turn returned, if there was one. */
  method ReceiveTurn(port: SerialPort, debug: bool) returns (result: Result, ghost cut: nat)
    requires port.wire != []
    modifies port
    ensures 1 <= cut <= 3 && (port.headersWhole ==> cut == 3)
    ensures port.lengths == old(port.lengths) + [1] || old(port.lengths) + [1] + [cut] <= port.lengths
    ensures Answers(result, port.wire, CutTurn(old(port.wire), cut, debug))
    ensures result.Buffer? ==> Checked(result.data)
  {
    ghost var wire := port.wire;
    var sof := new byte[1](_ => 0);
    var got := port.Receive(sof, true);
    assert sof[0] == sof[..][0] == wire[0];
    if sof[0] != SOF {
      return Nothing, 3;
    }
    if !port.Ready(3, port.headersWhole) {
      return Waiting, 3;
    }
    var headerBuf := new byte[3](_ => 0);
    assert headerBuf[..] == C16.ZeroBytes(3);
    got := port.Receive(headerBuf, port.headersWhole);
    cut := got;
    var header := [sof[0]] + headerBuf[..];
    HeaderRead(wire, got);
    if !C8.Accepts(header) {
      return Nothing, cut;
    }
    result := ReceiveFrame(port, header, debug);
  }

  lemma HeaderRead(wire: seq<byte>, cut: nat)
    requires 1 + cut <= |wire| && cut <= 3
    ensures [wire[0]] + (wire[1..][..cut] + C16.ZeroBytes(3)[cut..]) == wire[..1 + cut] + C16.ZeroBytes(3 - cut)
    ensures wire[1..][cut..] == wire[1 + cut..]
  {
    assert C16.ZeroBytes(3)[cut..] == C16.ZeroBytes(3 - cut);
    assert [wire[0]] + wire[1..][..cut] == wire[..1 + cut];
  }

  lemma CarriesMore(buffers: seq<seq<byte>>, frames: seq<seq<byte>>, frame: seq<byte>, data: seq<byte>)
    requires Carries(buffers, frames) && exists k: nat :: data == frame + C16.ZeroBytes(k)
    ensures Carries(buffers + [data], frames + [frame])
  {
    var n := |frames|;
    var b, f := buffers + [data], frames + [frame];
    forall i | 0 <= i <= n ensures exists k: nat :: b[i] == f[i] + C16.ZeroBytes(k) {
      if i < n {
        assert b[i] == buffers[i] && f[i] == frames[i];
      } else {
        assert b[i] == data && f[i] == frame;
      }
    }
  }

  /** The receive loop, run until it would block. `buffers` are the byte vectors handed to the dispatch, `cuts` how many
      bytes the header reads returned, turn by turn. */
  method ReceiveData(port: SerialPort, debug: bool) returns (buffers: seq<seq<byte>>, ghost cuts: seq<nat>)
    modifies port
    ensures AreCuts(cuts) && Done(Scan(old(port.wire), cuts, debug))
    ensures Carries(buffers, Scan(old(port.wire), cuts, debug).frames)
    ensures port.headersWhole ==> Carries(buffers, Parse(old(port.wire), debug))
    ensures forall b | b in buffers :: Checked(b)
  {
    ghost var all, s := port.wire, Scanned([], port.wire, false);
    buffers, cuts := [], [];
    while port.wire != []
      invariant AreCuts(cuts) && s == Scan(all, cuts, debug) == Scanned(s.frames, port.wire, false)
      invariant Carries(buffers, s.frames)
      invariant port.headersWhole ==> AllWhole(cuts)
      invariant forall b | b in buffers :: Checked(b)
      decreases |port.wire|
    {
      ghost var line := port.wire;
      var result, cut := ReceiveTurn(port, debug);
      ghost var turn := CutTurn(line, cut, debug);
      ScanMore(all, cuts, cut, debug);
      cuts := cuts + [cut];
      if result == Waiting {
        s := Scanned(s.frames + Handed(turn), line, true);
        break;
      }
      if result.Buffer? {
        CarriesMore(buffers, s.frames, turn.frame, result.data);
        buffers := buffers + [result.data];
      }
      s := Scanned(s.frames + Handed(turn), port.wire, false);
    }
    if port.headersWhole {
      WholeScan(all, cuts, debug);
      assert s.frames + [] == s.frames;
    }
  }
}
