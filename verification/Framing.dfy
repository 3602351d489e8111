/**
Receive framing (src/net.cpp:577-660, src/net.h:207-243): a peer's bytes arrive in chunks of any
size and are cut into messages, each a 24-byte header that gives the length of its payload.
*/
module Framing {
  import opened Common

  const HEADER := 24

  /** src/serialize.h:30 */
  const MAX_SIZE := 0x0200_0000

  /** src/net.h:51 */
  const MAX_PROTOCOL_MESSAGE_LENGTH := 2 * 1024 * 1024

  const AHEAD := 256 * 1024

  /** The length field: four bytes after the message start and the command, least significant first. */
  function SizeOf(header: seq<byte>): nat
    requires |header| == HEADER
  {
    var b0: int, b1: int, b2: int, b3: int := header[16], header[17], header[18], header[19];
    b0 + 256 * b1 + 0x1_0000 * b2 + 0x100_0000 * b3
  }

  /** A number of 32 bits as the sender writes it (WriteLE32). */
  function LittleEndian(n: nat): seq<byte>
    requires n < 0x1_0000_0000
  {
    [n % 256, n / 256 % 256, n / 65536 % 256, n / 16777216]
  }

  /** The length field is read as it was written. */
  lemma SizeOfWritten(header: seq<byte>, n: nat)
    requires |header| == 24 && n < 0x1_0000_0000 && header[16..20] == LittleEndian(n)
    ensures SizeOf(header) == n
  {
    var field := header[16..20];
    assert field[0] == header[16] && field[1] == header[17] && field[2] == header[18] && field[3] == header[19];
    assert n / 256 / 256 == n / 65536 && n / 65536 / 256 == n / 16777216;
  }

  lemma Low(b: nat, rest: nat)
    requires b < 256
    ensures (b + 256 * rest) % 256 == b && (b + 256 * rest) / 256 == rest
  {
  }

  lemma Halves(n: nat)
    ensures n / 65536 == n / 256 / 256 && n / 16777216 == n / 256 / 256 / 256
  {
  }

  /** And every length field is that of the number it is read as. */
  lemma FieldOfSize(header: seq<byte>)
    requires |header| == 24
    ensures SizeOf(header) < 0x1_0000_0000 && header[16..20] == LittleEndian(SizeOf(header))
  {
    assert header[16..20] == [header[16], header[17], header[18], header[19]];
    Digits(header[16], header[17], header[18], header[19]);
  }

  lemma Digits(b0: byte, b1: byte, b2: byte, b3: byte)
    ensures var x: int, y: int, z: int, w: int := b0, b1, b2, b3;
            var n := x + 256 * y + 0x1_0000 * z + 0x100_0000 * w;
            n < 0x1_0000_0000 && LittleEndian(n) == [b0, b1, b2, b3]
  {
    var x: int, y: int, z: int, w: int := b0, b1, b2, b3;
    var n := x + 256 * y + 0x1_0000 * z + 0x100_0000 * w;
    Low(x, y + 256 * (z + 256 * w));
    Low(y, z + 256 * w);
    Low(z, w);
    Halves(n);
  }

  datatype Msg = Msg(header: seq<byte>, payload: seq<byte>)

  /** A message as it is sent. */
  predicate WellFormed(m: Msg) {
    |m.header| == HEADER && |m.payload| == SizeOf(m.header) <= MAX_PROTOCOL_MESSAGE_LENGTH
  }

  /** What the sender puts around the length: the network's mark, the command and the checksum. */
  datatype Envelope = Envelope(start: seq<byte>, command: seq<byte>, checksum: seq<byte>)

  predicate EnvelopeOk(e: Envelope) {
    |e.start| == 4 && |e.command| == 12 && |e.checksum| == 4
  }

  /** A message as BeginMessage and EndMessage make it (src/net.cpp:2166-2216). */
  function Made(e: Envelope, payload: seq<byte>): Msg
    requires |payload| < 0x1_0000_0000
  {
    Msg(e.start + e.command + LittleEndian(|payload|) + e.checksum, payload)
  }

  /** It is well formed exactly if its payload is within the limit. */
  lemma MadeIsWellFormed(e: Envelope, payload: seq<byte>)
    requires EnvelopeOk(e) && |payload| < 0x1_0000_0000
    ensures |Made(e, payload).header| == 24 && SizeOf(Made(e, payload).header) == |payload|
    ensures WellFormed(Made(e, payload)) <==> |payload| <= 2_097_152
  {
    var header := Made(e, payload).header;
    assert header[16..20] == LittleEndian(|payload|);
    SizeOfWritten(header, |payload|);
  }

  function Sent(m: Msg): seq<byte> { m.header + m.payload }

  function Stream(ms: seq<Msg>): seq<byte> {
    if ms == [] then [] else Stream(ms[..|ms| - 1]) + Sent(ms[|ms| - 1])
  }

  //
  // The specification, one byte at a time.
  //

  datatype Phase = Header(buf: seq<byte>) | Body(header: seq<byte>, got: seq<byte>) | Rejected

  datatype Frames = Frames(done: seq<Msg>, phase: Phase)

  const EMPTY: Frames := Frames([], Header([]))

  ghost predicate Ok(f: Frames) {
    && (forall i :: 0 <= i < |f.done| ==> WellFormed(f.done[i]))
    && PhaseOk(f.phase)
  }

  ghost predicate PhaseOk(p: Phase) {
    match p
    case Header(buf) => |buf| < HEADER
    case Body(header, got) => |header| == HEADER && |got| < SizeOf(header) <= MAX_PROTOCOL_MESSAGE_LENGTH
    case Rejected => true
  }

  /** A complete header: rejected, or complete at once, or waiting for its payload. */
  function HeaderDone(done: seq<Msg>, header: seq<byte>): Frames
    requires |header| == HEADER
  {
    if SizeOf(header) > MAX_PROTOCOL_MESSAGE_LENGTH then Frames(done, Rejected)
    else BodyAt(done, header, [])
  }

  function BodyAt(done: seq<Msg>, header: seq<byte>, got: seq<byte>): Frames
    requires |header| == HEADER
  {
    if |got| == SizeOf(header) then Frames(done + [Msg(header, got)], Header([])) else Frames(done, Body(header, got))
  }

  function Step(f: Frames, b: byte): Frames
    requires PhaseOk(f.phase)
  {
    match f.phase
    case Header(buf) =>
      if |buf| + 1 < HEADER then Frames(f.done, Header(buf + [b])) else HeaderDone(f.done, buf + [b])
    case Body(header, got) => BodyAt(f.done, header, got + [b])
    case Rejected => f
  }

  lemma StepOk(f: Frames, b: byte)
    requires Ok(f)
    ensures Ok(Step(f, b))
  {
  }

  ghost function Parse(f: Frames, bytes: seq<byte>): Frames
    requires Ok(f)
    decreases |bytes|
  {
    if bytes == [] then f
    else
      StepOk(f, bytes[0]);
      Parse(Step(f, bytes[0]), bytes[1..])
  }

  /** What has been taken in, as bytes: complete messages and the one under way. */
  function Pending(p: Phase): seq<byte> {
    match p
    case Header(buf) => buf
    case Body(header, got) => header + got
    case Rejected => []
  }

  function Taken(f: Frames): seq<byte> { Stream(f.done) + Pending(f.phase) }

  //
  // Properties of the specification.
  //

  lemma {:induction false} ParseOk(f: Frames, bytes: seq<byte>)
    requires Ok(f)
    ensures Ok(Parse(f, bytes))
    decreases |bytes|
  {
    if bytes != [] {
      StepOk(f, bytes[0]);
      ParseOk(Step(f, bytes[0]), bytes[1..]);
    }
  }

  /** Feeding a and then b is feeding a + b: chunks do not matter. */
  lemma {:induction false} ChunksDoNotMatter(f: Frames, a: seq<byte>, b: seq<byte>)
    requires Ok(f)
    ensures Ok(Parse(f, a)) && Parse(Parse(f, a), b) == Parse(f, a + b)
    decreases |a|
  {
    ParseOk(f, a);
    if a == [] {
      assert a + b == b;
    } else {
      StepOk(f, a[0]);
      assert (a + b)[0] == a[0] && (a + b)[1..] == a[1..] + b;
      ChunksDoNotMatter(Step(f, a[0]), a[1..], b);
    }
  }

  lemma StreamLast(ms: seq<Msg>, m: Msg)
    ensures Stream(ms + [m]) == Stream(ms) + Sent(m)
  {
    assert (ms + [m])[..|ms|] == ms;
  }

  lemma StepTakes(f: Frames, b: byte)
    requires Ok(f) && !Step(f, b).phase.Rejected?
    ensures Taken(Step(f, b)) == Taken(f) + [b]
  {
    match f.phase
    case Header(buf) =>
      if |buf| + 1 == HEADER {
        StreamLast(f.done, Msg(buf + [b], []));
      }
    case Body(header, got) =>
      StreamLast(f.done, Msg(header, got + [b]));
  }

  /** Unless rejected, every byte is in exactly one complete message or in the one under way, in order. */
  lemma {:induction false} NothingLost(f: Frames, bytes: seq<byte>)
    requires Ok(f) && !Parse(f, bytes).phase.Rejected?
    ensures Taken(Parse(f, bytes)) == Taken(f) + bytes
    decreases |bytes|
  {
    if bytes != [] {
      StepOk(f, bytes[0]);
      var g := Step(f, bytes[0]);
      if g.phase.Rejected? {
        RejectedStays(g, bytes[1..]);
      } else {
        StepTakes(f, bytes[0]);
        NothingLost(g, bytes[1..]);
        assert Taken(f) + bytes == (Taken(f) + [bytes[0]]) + bytes[1..];
      }
    } else {
      assert Taken(f) + bytes == Taken(f);
    }
  }

  lemma {:induction false} RejectedStays(f: Frames, bytes: seq<byte>)
    requires Ok(f) && f.phase.Rejected?
    ensures Parse(f, bytes) == f
    decreases |bytes|
  {
    if bytes != [] {
      RejectedStays(f, bytes[1..]);
    }
  }

  /** The bytes of one header, or the first of them. */
  lemma {:induction false} ParseHeader(done: seq<Msg>, buf: seq<byte>, bytes: seq<byte>)
    requires Ok(Frames(done, Header(buf))) && |buf| + |bytes| <= HEADER
    ensures Parse(Frames(done, Header(buf)), bytes)
            == if |buf| + |bytes| < HEADER then Frames(done, Header(buf + bytes)) else HeaderDone(done, buf + bytes)
    decreases |bytes|
  {
    if bytes == [] {
      assert buf + bytes == buf;
    } else {
      var b := bytes[0];
      assert (buf + [b]) + bytes[1..] == buf + bytes;
      StepOk(Frames(done, Header(buf)), b);
      if |buf| + 1 < HEADER {
        ParseHeader(done, buf + [b], bytes[1..]);
      } else {
        assert bytes == [b] && bytes[1..] == [];
      }
    }
  }

  /** The bytes of one payload, or the first of them. */
  lemma {:induction false} ParseBody(done: seq<Msg>, header: seq<byte>, got: seq<byte>, bytes: seq<byte>)
    requires Ok(Frames(done, Body(header, got))) && |got| + |bytes| <= SizeOf(header)
    ensures Parse(Frames(done, Body(header, got)), bytes) == BodyAt(done, header, got + bytes)
    decreases |bytes|
  {
    hide SizeOf;
    if bytes == [] {
      assert got + bytes == got;
    } else {
      var b := bytes[0];
      assert (got + [b]) + bytes[1..] == got + bytes;
      StepOk(Frames(done, Body(header, got)), b);
      if |got| + 1 < SizeOf(header) {
        ParseBody(done, header, got + [b], bytes[1..]);
      } else {
        assert bytes == [b] && bytes[1..] == [];
      }
    }
  }

  /** A stream of well-formed messages is cut into exactly those messages. */
  lemma {:induction false} MessagesRecovered(ms: seq<Msg>)
    requires forall i :: 0 <= i < |ms| ==> WellFormed(ms[i])
    ensures Parse(EMPTY, Stream(ms)) == Frames(ms, Header([]))
    decreases |ms|
  {
    if ms != [] {
      var n := |ms| - 1;
      var m := ms[n];
      MessagesRecovered(ms[..n]);
      ChunksDoNotMatter(EMPTY, Stream(ms[..n]), Sent(m));
      OneMessage(ms[..n], m);
      assert ms[..n] + [m] == ms;
    }
  }

  /** The messages that a sender makes, each of its own payload. */
  function AllMade(es: seq<Envelope>, payloads: seq<seq<byte>>): (ms: seq<Msg>)
    requires |es| == |payloads| && forall i :: 0 <= i < |payloads| ==> |payloads[i]| < 0x1_0000_0000
    ensures |ms| == |es| && forall i :: 0 <= i < |es| ==> ms[i] == Made(es[i], payloads[i])
  {
    seq(|es|, i requires 0 <= i < |es| => Made(es[i], payloads[i]))
  }

  /** What a sender sends is received: as many messages, each with its payload, and nothing left over. */
  lemma SentIsReceived(es: seq<Envelope>, payloads: seq<seq<byte>>)
    requires |es| == |payloads| && forall i :: 0 <= i < |es| ==> EnvelopeOk(es[i]) && |payloads[i]| <= 2_097_152
    ensures Parse(EMPTY, Stream(AllMade(es, payloads))) == Frames(AllMade(es, payloads), Header([]))
  {
    forall i | 0 <= i < |es| ensures WellFormed(AllMade(es, payloads)[i]) {
      MadeIsWellFormed(es[i], payloads[i]);
    }
    MessagesRecovered(AllMade(es, payloads));
  }

  /** A longer payload is rejected as soon as its header is complete. */
  lemma LongIsRejected(done: seq<Msg>, e: Envelope, payload: seq<byte>)
    requires Ok(Frames(done, Header([]))) && EnvelopeOk(e) && 2_097_152 < |payload| < 0x1_0000_0000
    ensures Parse(Frames(done, Header([])), Made(e, payload).header) == Frames(done, Rejected)
  {
    MadeIsWellFormed(e, payload);
    var header := Made(e, payload).header;
    ParseHeader(done, [], header);
    assert [] + header == header;
  }

  lemma OneMessage(done: seq<Msg>, m: Msg)
    requires Ok(Frames(done, Header([]))) && WellFormed(m)
    ensures Parse(Frames(done, Header([])), Sent(m)) == Frames(done + [m], Header([]))
  {
    var f := Frames(done, Header([]));
    ChunksDoNotMatter(f, m.header, m.payload);
    ParseHeader(done, [], m.header);
    assert [] + m.header == m.header && [] + m.payload == m.payload;
    if SizeOf(m.header) > 0 {
      ParseBody(done, m.header, [], m.payload);
    } else {
      assert m.payload == [];
    }
  }

  /** A rejection has its cause in the stream: a header, right after the messages, with too large a size. */
  lemma {:induction false} RejectionHasCause(f: Frames, bytes: seq<byte>) returns (header: seq<byte>, n: nat)
    requires Ok(f) && !f.phase.Rejected? && Parse(f, bytes).phase.Rejected?
    ensures |header| == HEADER && SizeOf(header) > MAX_PROTOCOL_MESSAGE_LENGTH
    ensures SizeOf(header) < 0x1_0000_0000 && header[16..20] == LittleEndian(SizeOf(header)) && SizeOf(header) > 2_097_152
    ensures n <= |bytes| && Taken(f) + bytes[..n] == Stream(Parse(f, bytes).done) + header
    decreases |bytes|
  {
    hide Step;
    hide SizeOf;
    hide Stream;
    hide Pending;
    var b := bytes[0];
    StepOk(f, b);
    var g := Step(f, b);
    if g.phase.Rejected? {
      RejectedStays(g, bytes[1..]);
      header := StepCause(f, b);
      FieldOfSize(header);
      n := 1;
      assert bytes[..1] == [b];
    } else {
      StepTakes(f, b);
      header, n := RejectionHasCause(g, bytes[1..]);
      n := n + 1;
      assert bytes[..n] == [b] + bytes[1..][..n - 1];
      assert Taken(f) + bytes[..n] == (Taken(f) + [b]) + bytes[1..][..n - 1];
    }
  }

  lemma StepCause(f: Frames, b: byte) returns (header: seq<byte>)
    requires Ok(f) && !f.phase.Rejected? && Step(f, b).phase.Rejected?
    ensures |header| == HEADER && SizeOf(header) > MAX_PROTOCOL_MESSAGE_LENGTH
    ensures Step(f, b).done == f.done && Taken(f) + [b] == Stream(f.done) + header
  {
    hide SizeOf;
    header := f.phase.buf + [b];
    assert Taken(f) + [b] == Stream(f.done) + header;
  }

  //
  // The objects.
  //

  class CNetMessage {
    var in_data: bool
    var hdrbuf: seq<byte>
    var hdr: seq<byte>
    var nHdrPos: nat
    var vRecv: seq<byte>
    var nDataPos: nat

    /**
    The header buffer fills up to its 24 bytes; the payload buffer holds what has arrived and at
    most 256 KiB of room ahead, never more than the message.
    */
    ghost predicate Valid()
      reads this
    {
      && nHdrPos <= HEADER
      && if in_data then
           && nHdrPos == HEADER && |hdr| == HEADER && SizeOf(hdr) <= 33_554_432
           && nDataPos <= |vRecv| <= SizeOf(hdr) && |vRecv| <= nDataPos + 262_144
         else |hdrbuf| == HEADER && nDataPos == 0 && vRecv == []
    }

    predicate Complete()
      requires in_data ==> |hdr| == HEADER
      reads this
    {
      in_data && SizeOf(hdr) == nDataPos
    }

    /** A message under way that may still be rejected or completed. */
    ghost predicate Open()
      reads this
    {
      Valid() && !Complete() && (if in_data then SizeOf(hdr) <= MAX_PROTOCOL_MESSAGE_LENGTH else nHdrPos < HEADER)
    }

    /** What the specification says of the messages before this one and of this one. */
    ghost function After(done: seq<Msg>): Frames
      requires Valid()
      reads this
    {
      if !in_data then Frames(done, if nHdrPos == HEADER then Rejected else Header(hdrbuf[..nHdrPos]))
      else if SizeOf(hdr) > MAX_PROTOCOL_MESSAGE_LENGTH then Frames(done, Rejected)
      else BodyAt(done, hdr, vRecv[..nDataPos])
    }

    constructor ()
      ensures Open() && !in_data && nHdrPos == 0
    {
      in_data, nHdrPos, nDataPos := false, 0, 0;
      hdrbuf := seq(HEADER, i => 0);
      hdr, vRecv := [], [];
    }

    /** Lines 615-644; the header is always long enough to be read. */
    method readHeader(pch: seq<byte>) returns (handled: int, ghost n: nat)
      requires Open() && !in_data && pch != []
      modifies this
      ensures Valid() && 0 < n <= |pch| && (handled == n || handled == -1)
      ensures n == if HEADER - old(nHdrPos) <= |pch| then HEADER - old(nHdrPos) else |pch|
      ensures var buf := old(hdrbuf[..nHdrPos]) + pch[..n];
              if |buf| < HEADER then handled == n && !in_data && nHdrPos == |buf| && hdrbuf[..nHdrPos] == buf
              else if SizeOf(buf) > MAX_SIZE then handled == -1 && !in_data && nHdrPos == HEADER
              else handled == n && in_data && hdr == buf && nDataPos == 0
    {
      var nRemaining := HEADER - nHdrPos;
      var nCopy := if nRemaining <= |pch| then nRemaining else |pch|;
      n := nCopy;
      hdrbuf := hdrbuf[..nHdrPos] + pch[..nCopy] + hdrbuf[nHdrPos + nCopy..];
      assert hdrbuf[..nHdrPos + nCopy] == old(hdrbuf[..nHdrPos]) + pch[..nCopy];
      nHdrPos := nHdrPos + nCopy;
      if nHdrPos < HEADER {
        return nCopy, n;
      }
      assert hdrbuf[..HEADER] == hdrbuf;
      hdr := hdrbuf;
      if SizeOf(hdr) > MAX_SIZE {
        return -1, n;
      }
      in_data := true;
      return nCopy, n;
    }

    /** Lines 646-660. */
    method readData(pch: seq<byte>) returns (handled: nat)
      requires Open() && in_data && pch != []
      modifies this
      ensures Valid() && in_data && hdr == old(hdr) && 0 < handled <= |pch|
      ensures handled == if SizeOf(hdr) - old(nDataPos) <= |pch| then SizeOf(hdr) - old(nDataPos) else |pch|
      ensures vRecv[..nDataPos] == old(vRecv[..nDataPos]) + pch[..handled]
    {
      hide SizeOf;
      ghost var was := vRecv[..nDataPos];
      var nRemaining := SizeOf(hdr) - nDataPos;
      var nCopy := if nRemaining <= |pch| then nRemaining else |pch|;
      if |vRecv| < nDataPos + nCopy {
        var size := nDataPos + nCopy + AHEAD;
        vRecv := Resize(vRecv, if SizeOf(hdr) <= size then SizeOf(hdr) else size);
      }
      assert vRecv[..nDataPos] == was;
      vRecv := vRecv[..nDataPos] + pch[..nCopy] + vRecv[nDataPos + nCopy..];
      nDataPos := nDataPos + nCopy;
      return nCopy;
    }
  }

  function Resize(v: seq<byte>, n: nat): (r: seq<byte>)
    requires n >= |v|
    ensures |r| == n && r[..|v|] == v
  {
    v + seq(n - |v|, i => 0)
  }

  /** The messages of complete objects. */
  ghost function Contents(ms: seq<CNetMessage>): seq<Msg>
    reads ms
  {
    seq(|ms|, i requires 0 <= i < |ms| reads ms => Msg(ms[i].hdr, ms[i].vRecv))
  }

  ghost predicate Finished(m: CNetMessage)
    reads m
  {
    m.Valid() && m.Complete() && SizeOf(m.hdr) <= MAX_PROTOCOL_MESSAGE_LENGTH
  }

  class CNode {
    var vRecvMsg: seq<CNetMessage>

    /** All messages but the last are complete. */
    ghost predicate Valid()
      reads this, vRecvMsg
    {
      && (forall i, j :: 0 <= i < j < |vRecvMsg| ==> vRecvMsg[i] != vRecvMsg[j])
      && (forall i :: 0 <= i < |vRecvMsg| - 1 ==> Finished(vRecvMsg[i]))
      && (vRecvMsg != [] ==> vRecvMsg[|vRecvMsg| - 1].Valid())
    }

    ghost function View(): Frames
      requires Valid()
      reads this, vRecvMsg
    {
      if vRecvMsg == [] then EMPTY
      else vRecvMsg[|vRecvMsg| - 1].After(Contents(vRecvMsg[..|vRecvMsg| - 1]))
    }

    constructor ()
      ensures Valid() && View() == EMPTY
    {
      vRecvMsg := [];
    }

    lemma ViewOk()
      requires Valid()
      ensures Ok(View())
    {
      hide SizeOf;
      if vRecvMsg != [] {
        var before := vRecvMsg[..|vRecvMsg| - 1];
        forall i | 0 <= i < |before| ensures WellFormed(Contents(before)[i]) {
          assert Finished(vRecvMsg[i]);
        }
      }
    }

    /** Lines 581-584. */
    method OpenMessage()
      requires Valid() && !View().phase.Rejected?
      modifies this
      ensures Valid() && View() == old(View())
      ensures vRecvMsg != [] && vRecvMsg[|vRecvMsg| - 1].Open()
      ensures vRecvMsg == old(vRecvMsg) || (|vRecvMsg| == |old(vRecvMsg)| + 1 && old(vRecvMsg) <= vRecvMsg && fresh(vRecvMsg[|vRecvMsg| - 1]))
    {
      hide SizeOf;
      if vRecvMsg == [] || vRecvMsg[|vRecvMsg| - 1].Complete() {
        ghost var was := vRecvMsg;
        var msg := new CNetMessage();
        vRecvMsg := vRecvMsg + [msg];
        assert vRecvMsg[..|was|] == was;
        if was != [] {
          ghost var last := was[|was| - 1];
          assert last.vRecv[..last.nDataPos] == last.vRecv;
          assert Contents(was) == Contents(was[..|was| - 1]) + [Msg(last.hdr, last.vRecv)];
        }
      }
    }

    /** One pass of the loop (lines 579-604): it takes in at least one byte. */
    method Absorb(pch: seq<byte>) returns (ok: bool, handled: int, ghost n: nat)
      requires Valid() && !View().phase.Rejected? && pch != [] && Ok(View())
      modifies this, vRecvMsg
      ensures Valid() && 0 < n <= |pch| && (ok ==> handled == n)
      ensures View() == Parse(old(View()), pch[..n]) && ok == !View().phase.Rejected?
      ensures forall i :: 0 <= i < |vRecvMsg| ==> vRecvMsg[i] in old(vRecvMsg) || fresh(vRecvMsg[i])
    {
      hide SizeOf;
      hide Parse;
      ghost var f := View();
      OpenMessage();
      var msg := vRecvMsg[|vRecvMsg| - 1];
      ghost var before := vRecvMsg[..|vRecvMsg| - 1];
      ghost var done := Contents(before);
      assert f == msg.After(done);
      if !msg.in_data {
        ghost var buf := msg.hdrbuf[..msg.nHdrPos];
        handled, n := msg.readHeader(pch);
        assert Contents(before) == done;
        ParseHeader(done, buf, pch[..n]);
        if handled < 0 {
          return false, handled, n;
        }
      } else {
        ghost var hdr, got := msg.hdr, msg.vRecv[..msg.nDataPos];
        handled := msg.readData(pch);
        n := handled;
        assert Contents(before) == done;
        ParseBody(done, hdr, got, pch[..n]);
      }
      ok := !(msg.in_data && SizeOf(msg.hdr) > MAX_PROTOCOL_MESSAGE_LENGTH);
    }

    /** ReceiveMsgBytes (lines 577-613). */
    method ReceiveMsgBytes(pch: seq<byte>) returns (ok: bool)
      requires Valid() && !View().phase.Rejected?
      modifies this, vRecvMsg
      ensures Valid() && Ok(old(View()))
      ensures View() == Parse(old(View()), pch) && ok == !View().phase.Rejected?
    {
      hide Parse;
      ViewOk();
      ghost var f := View();
      var pos := 0;
      ParseNothing(f);
      while pos < |pch|
        invariant pos <= |pch| && Valid() && View() == Parse(f, pch[..pos]) && !View().phase.Rejected?
        invariant forall i :: 0 <= i < |vRecvMsg| ==> vRecvMsg[i] in old(vRecvMsg) || fresh(vRecvMsg[i])
      {
        ViewOk();
        ghost var n;
        var handled;
        ok, handled, n := Absorb(pch[pos..]);
        ParseOn(f, pch, pos, n);
        if !ok {
          ViewOk();
          RejectedForGood(f, pch, pos + n);
          return;
        }
        pos := pos + handled;
      }
      assert pch[..|pch|] == pch;
      ok := true;
    }
  }

  lemma ParseOn(f: Frames, pch: seq<byte>, pos: nat, n: nat)
    requires Ok(f) && pos + n <= |pch|
    ensures Ok(Parse(f, pch[..pos]))
    ensures Parse(Parse(f, pch[..pos]), pch[pos..][..n]) == Parse(f, pch[..pos + n])
  {
    hide Parse;
    ChunksDoNotMatter(f, pch[..pos], pch[pos..][..n]);
    assert pch[..pos] + pch[pos..][..n] == pch[..pos + n];
  }

  lemma RejectedForGood(f: Frames, pch: seq<byte>, pos: nat)
    requires Ok(f) && pos <= |pch| && Parse(f, pch[..pos]).phase.Rejected?
    ensures Parse(f, pch) == Parse(f, pch[..pos])
  {
    hide Parse;
    ChunksDoNotMatter(f, pch[..pos], pch[pos..]);
    RejectedStays(Parse(f, pch[..pos]), pch[pos..]);
    assert pch[..pos] + pch[pos..] == pch;
  }

  lemma ParseNothing(f: Frames)
    requires Ok(f)
    ensures Parse(f, []) == f
  {
  }
}
