/**
TinyFrame: the byte-at-a-time receiver and the buffered, multipart sender.
*/
module TinyFrames {
  import opened Octets
  import opened TfFormat
  import opened TfLink
  import opened TfParser

  /** A message to be sent: an answer with a given id, or a new one. */
  datatype Outgoing = Outgoing(response: bool, frameId: int, typ: int, payload: seq<byte>)

  class TinyFrame {
    const cfg: Config
    const peer: bool
    var nextId: int

    var state: State
    var ticks: nat
    var id: int
    var len: int
    var typ: int
    var rxi: int
    var cksum: int
    var ref: int
    var discard: bool
    const data: array<byte>

    /** The messages handed to the listeners, in order. */
    var handled: seq<Msg>
    ghost var link: Link

    /** The registers as a value. */
    ghost function Now(): Regs
      reads this
    {
      Regs(state, id, len, typ, rxi, cksum, ref, discard)
    }

    ghost predicate RxOk()
      reads this, data
    {
      cfg.Ok() && Tied(cfg, Now(), data[..], link.window) && handled == link.got &&
          ticks == link.ticks <= cfg.timeoutTicks
    }

    /** TF_ResetParser */
    method ResetParser()
      modifies this`state
      ensures state == SOF
    {
      state := SOF;
    }

    /** pars_begin_frame */
    method BeginFrame()
      requires cfg.Ok()
      modifies this`state, this`cksum, this`discard, this`rxi
      ensures Now() == Begun(cfg, old(Now()))
    {
      cksum := cfg.start;
      SumEmpty(cfg);
      if cfg.useSof {
        cksum := cfg.add(cksum, cfg.sof);
        SumSnoc(cfg, [], cfg.sof);
        assert [] + [cfg.sof] == Prefix(cfg);
      }
      discard := false;
      state := ID;
      rxi := 0;
    }

    /** TF_HandleReceivedMessage: the listeners are given the message. */
    method HandleReceivedMessage()
      requires 0 <= len <= data.Length
      modifies this`handled
      ensures handled == old(handled) + [Msg(id, typ, data[..len])]
    {
      handled := handled + [Msg(id, typ, data[..len])];
    }

    method AcceptId(c: byte)
      requires RxOk() && state == ID && ticks == 0 && (link.window == [] ==> !cfg.useSof)
      modifies this`state, this`id, this`rxi, this`cksum, this`link
      ensures RxOk() && link == Take(cfg, old(link), c) && ticks == 0 && link.window != []
    {
      hide Tied, Take, Pow, Shifted, Judge, Config.Ok, Config.Sum, Stage;
      StepIdTied(cfg, Now(), data[..], link, c);
      link := Take(cfg, link, c);
      cksum := cfg.add(cksum, c);
      id := Shifted(id, c, cfg.idBytes);
      rxi := rxi + 1;
      if rxi == cfg.idBytes {
        state := LEN;
        rxi := 0;
      }
    }

    method AcceptLen(c: byte)
      requires RxOk() && state == LEN && ticks == 0
      modifies this`state, this`len, this`rxi, this`cksum, this`link
      ensures RxOk() && link == Take(cfg, old(link), c) && ticks == 0 && state != ID
    {
      hide Tied, Take, Pow, Shifted, Judge, Config.Ok, Config.Sum, Stage;
      StepLenTied(cfg, Now(), data[..], link, c);
      link := Take(cfg, link, c);
      cksum := cfg.add(cksum, c);
      len := Shifted(len, c, cfg.lenBytes);
      rxi := rxi + 1;
      if rxi == cfg.lenBytes {
        state := TYPE;
        rxi := 0;
      }
    }

    method AcceptType(c: byte)
      requires RxOk() && state == TYPE && ticks == 0
      modifies this`state, this`typ, this`rxi, this`cksum, this`ref, this`link
      ensures RxOk() && link == Take(cfg, old(link), c) && ticks == 0 && state != ID
    {
      hide Tied, Take, Pow, Shifted, Judge, Config.Ok, Config.Sum, Stage;
      StepTypeTied(cfg, Now(), data[..], link, c);
      link := Take(cfg, link, c);
      cksum := cfg.add(cksum, c);
      typ := Shifted(typ, c, cfg.typeBytes);
      rxi := rxi + 1;
      if rxi == cfg.typeBytes {
        state := HEAD_CKSUM;
        rxi := 0;
        ref := 0;
      }
    }

    method AcceptHeadCksum(c: byte)
      requires RxOk() && state == HEAD_CKSUM && ticks == 0
      modifies this`state, this`ref, this`rxi, this`cksum, this`discard, this`handled, this`link
      ensures RxOk() && link == Take(cfg, old(link), c) && ticks == 0 && state != ID
    {
      hide Tied, Take, Pow, Shifted, Judge, Config.Ok, Config.Sum, Stage;
      ghost var r, w := Now(), link.window;
      CollectingNow();
      if rxi + 1 < cfg.ckBytes { HeadMore(cfg, r, data[..], link, c); } else { HeadDone(cfg, r, data[..], link, c); }
      link := Take(cfg, link, c);
      ref := Shifted(ref, c, cfg.ckBytes);
      rxi := rxi + 1;
      if rxi == cfg.ckBytes {
        cksum := cfg.finish(cksum);
        if cksum != ref {
          Aborted(cfg, r, Now(), data[..], w);
          ResetParser();
          return;
        }
        if len == 0 {
          HandleReceivedMessage();
          Aborted(cfg, r, Now(), data[..], w);
          ResetParser();
          return;
        }
        PayloadTied(cfg, r, data[..], w, c);
        state := DATA;
        rxi := 0;
        cksum := cfg.start;
        if len > cfg.maxPayload {
          discard := true;
        }
      }
    }

    lemma CollectingNow()
      requires RxOk() && (state == HEAD_CKSUM || state == DATA_CKSUM)
      ensures 0 <= rxi < cfg.ckBytes && 0 <= len && !(state == HEAD_CKSUM && discard)
    {
      hide Pow, Val, Config.Sum, Opens, WId, WLen, WType, HeadOk, Stored;
    }

    method AcceptData(c: byte)
      requires RxOk() && state == DATA && ticks == 0
      modifies this`state, this`ref, this`rxi, this`cksum, this`link, data
      ensures RxOk() && link == Take(cfg, old(link), c) && ticks == 0 && state != ID
    {
      hide Tied, Take, Pow, Shifted, Judge, Config.Ok, Config.Sum, Stage;
      ghost var r, w := Now(), link.window;
      DataTaken(cfg, r, data[..], link, c);
      DataTied(cfg, r, data[..], w, c);
      if !discard { StoreInRange(cfg, r, data[..], w); }
      PayloadNow();
      link := Take(cfg, link, c);
      if discard {
        rxi := rxi + 1;
      } else {
        cksum := cfg.add(cksum, c);
        data[rxi] := c;
        rxi := rxi + 1;
      }
      assert data[..] == Kept(r, old(data[..]), c);
      if rxi == len {
        state := DATA_CKSUM;
        rxi := 0;
        ref := 0;
      }
    }

    lemma PayloadNow()
      requires RxOk() && state == DATA
      ensures 0 <= rxi < len
    {
      hide Pow, Val, Config.Sum, Opens, WId, WLen, WType, HeadOk, Stored;
    }

    method AcceptDataCksum(c: byte)
      requires RxOk() && state == DATA_CKSUM && ticks == 0
      modifies this`state, this`ref, this`rxi, this`cksum, this`handled, this`link
      ensures RxOk() && link == Take(cfg, old(link), c) && ticks == 0 && state != ID
    {
      hide Tied, Take, Pow, Shifted, Judge, Config.Ok, Config.Sum, Stage;
      ghost var r, w := Now(), link.window;
      CollectingNow();
      if rxi + 1 < cfg.ckBytes { CksumMore(cfg, r, data[..], link, c); } else { CksumDone(cfg, r, data[..], link, c); }
      link := Take(cfg, link, c);
      ref := Shifted(ref, c, cfg.ckBytes);
      rxi := rxi + 1;
      if rxi == cfg.ckBytes {
        cksum := cfg.finish(cksum);
        if !discard {
          if cksum == ref {
            HandleReceivedMessage();
          }
        }
        Aborted(cfg, r, Now(), data[..], w);
        ResetParser();
      }
    }

    /** TF_AcceptChar: one byte from the wire. */
    method AcceptChar(c: byte)
      requires RxOk()
      modifies this`state, this`ticks, this`id, this`len, this`typ, this`rxi, this`cksum, this`ref, this`discard
      modifies this`handled, this`link, data
      ensures RxOk() && link == Take(cfg, old(link), c) && (state == SOF <==> link.window == [])
    {
      hide Tied, Take, Pow, Shifted, Judge, Config.Ok, Config.Sum, Stage;
      ghost var k := link;
      Late(cfg, Now(), data[..], link);
      if ticks >= cfg.timeoutTicks {
        if state != SOF {
          ResetParser();
        }
      }
      ticks := 0;
      link := link.(window := Before(cfg, link), ticks := 0);
      Arms();
      if !cfg.useSof {
        if state == SOF {
          BegunTied(cfg, Now(), data[..]);
          BeginFrame();
        }
      }
      match state {
        case SOF =>
          SofTaken(cfg, link, c);
          link := Take(cfg, link, c);
          if c == cfg.sof {
            BegunTied(cfg, Now(), data[..]);
            BeginFrame();
          }
        case ID => AcceptId(c);
        case LEN => AcceptLen(c);
        case TYPE => AcceptType(c);
        case HEAD_CKSUM => AcceptHeadCksum(c);
        case DATA => AcceptData(c);
        case DATA_CKSUM => AcceptDataCksum(c);
      }
      Arms();
    }

    lemma Arms()
      requires RxOk()
      ensures state == SOF ==> link.window == []
      ensures state != SOF && (state != ID || cfg.useSof) ==> link.window != []
    {
      hide Pow, Val, Config.Sum, Opens, WId, WLen, WType, HeadOk, Stored;
    }

    /** TF_Accept: a buffer of bytes from the wire. */
    method Accept(buffer: seq<byte>)
      requires RxOk()
      modifies this`state, this`ticks, this`id, this`len, this`typ, this`rxi, this`cksum, this`ref, this`discard
      modifies this`handled, this`link, data
      ensures RxOk() && link == Run(cfg, old(link), AsEvents(buffer)) && (buffer == [] ==> state == old(state))
      ensures buffer != [] ==> (state == SOF <==> link.window == [])
    {
      hide Tied, Take, Run;
      var i := 0;
      assert AsEvents(buffer[..0]) == [];
      RunNothing(cfg, link);
      while i < |buffer|
        invariant 0 <= i <= |buffer| && RxOk() && link == Run(cfg, old(link), AsEvents(buffer[..i]))
        invariant if i == 0 then state == old(state) else (state == SOF <==> link.window == [])
      {
        AcceptChar(buffer[i]);
        RunSnoc(cfg, old(link), buffer[..i], buffer[i]);
        assert buffer[..i] + [buffer[i]] == buffer[..i + 1];
        i := i + 1;
      }
      assert buffer[..i] == buffer;
    }

    static lemma RunNothing(cfg: Config, k: Link)
      requires cfg.Ok()
      ensures Run(cfg, k, []) == k
    {
    }

    /** TF_Tick, as far as the parser goes. */
    method Tick()
      requires RxOk()
      modifies this`ticks, this`link
      ensures RxOk() && link == Next(cfg, old(link), Event.Tick) && link.window == old(link.window)
    {
      hide Tied;
      link := Next(cfg, link, Event.Tick);
      if ticks < cfg.timeoutTicks {
        ticks := ticks + 1;
      }
    }

    /**
    Any bytes and ticks, in any order: after them every message handed to the listeners, in this run or before, is a
    stretch of the bytes received that is equal to the frame the composer makes of it, and no two share a byte.
    */
    method Feed(es: seq<Event>)
      requires RxOk() && Sound(cfg, link)
      modifies this`state, this`ticks, this`id, this`len, this`typ, this`rxi, this`cksum, this`ref, this`discard
      modifies this`handled, this`link, data
      ensures RxOk() && Sound(cfg, link) && link == Run(cfg, old(link), es) && handled == link.got
      ensures link.seen == old(link.seen) + Bytes(es) && (link.window == [] && Bytes(es) != [] ==> state == SOF)
    {
      hide Tied, Take, Run, Next, Sound, Bytes, Config.Ok;
      RunSound(cfg, link, es);
      RunSeen(cfg, link, es);
      RunNothing(cfg, link);
      NoBytes(es);
      ghost var any := false;
      var i := 0;
      while i < |es|
        invariant 0 <= i <= |es| && RxOk() && link == Run(cfg, old(link), es[..i])
        invariant any == (Bytes(es[..i]) != []) && (any ==> state == SOF || link.window != [])
      {
        AnyBytes(es, i);
        RunEvent(cfg, old(link), es[..i], es[i]);
        match es[i] {
          case Byte(c) =>
            NextIsTake(cfg, link, c);
            AcceptChar(c);
            any := true;
          case Tick =>
            Tick();
        }
        i := i + 1;
      }
      assert es[..i] == es;
    }

    static lemma NoBytes(es: seq<Event>)
      ensures es[..0] == [] && Bytes(es[..0]) == []
    {
    }

    static lemma AnyBytes(es: seq<Event>, i: nat)
      requires i < |es|
      ensures es[..i] + [es[i]] == es[..i + 1]
      ensures Bytes(es[..i + 1]) != [] <==> Bytes(es[..i]) != [] || es[i].Byte?
    {
      BytesSnoc(es[..i], es[i]);
      assert es[..i] + [es[i]] == es[..i + 1];
    }

    static lemma NextIsTake(cfg: Config, k: Link, c: byte)
      requires cfg.Ok()
      ensures Next(cfg, k, Byte(c)) == Take(cfg, k, c)
    {
    }

    /**
    A frame that comes without a timeout, byte by byte among clock ticks, is handed to the listeners exactly once. The
    receiver need not be idle: if it was in the middle of something, a timeout must have gone by.
    */
    method Receive(m: Msg, es: seq<Event>)
      requires RxOk() && Sound(cfg, link) && (state == SOF || ticks >= cfg.timeoutTicks)
      requires Fits(cfg, m) && Bytes(es) == Frame(cfg, m) && Prompt(cfg, false, ticks, es)
      modifies this`state, this`ticks, this`id, this`len, this`typ, this`rxi, this`cksum, this`ref, this`discard
      modifies this`handled, this`link, data
      ensures RxOk() && Sound(cfg, link) && state == SOF
      ensures handled == old(handled) + if |m.payload| <= cfg.maxPayload then [m] else []
    {
      hide Tied, Take, Run, Next, Sound, Config.Ok, Frame, Prompt, Fits;
      Arms();
      FrameArrives(cfg, link, m, es);
      FrameNotEmpty(cfg, m);
      Feed(es);
    }

    static lemma FrameNotEmpty(cfg: Config, m: Msg)
      requires cfg.Ok() && Fits(cfg, m)
      ensures Frame(cfg, m) != []
    {
    }

    // ---------- sending

    const sendbuf: array<byte>
    var txPos: nat
    var txLen: int
    var txCksum: int
    var softLock: bool

    /** The buffers handed to TF_WriteImpl, in order. */
    var pieces: seq<seq<byte>>

    ghost predicate TxOk()
      reads this
    {
      cfg.Ok() && sendbuf.Length == cfg.sendbufLen && sendbuf != data && txPos <= sendbuf.Length &&
          0 <= nextId < Pow(cfg.idBytes)
    }

    /** TF_InitStatic: everything is zero but the peer bit. */
    constructor (cfg: Config, peer: bool)
      requires cfg.Ok()
      ensures this.cfg == cfg && this.peer == peer && RxOk() && TxOk() && fresh(data) && fresh(sendbuf)
      ensures state == SOF && link == IDLE && handled == [] && Sound(cfg, link)
      ensures pieces == [] && txPos == 0 && !softLock && nextId == 0
    {
      this.cfg, this.peer, nextId := cfg, peer, 0;
      state, ticks, id, len, typ, rxi, cksum, ref, discard := SOF, 0, 0, 0, 0, 0, 0, 0, false;
      data := new byte[cfg.maxPayload](_ => 0);
      sendbuf := new byte[cfg.sendbufLen](_ => 0);
      handled, link, pieces := [], IDLE, [];
      txPos, txLen, txCksum, softLock := 0, 0, 0, false;
    }

    /** TF_WriteImpl */
    method Write(n: nat)
      requires n <= sendbuf.Length
      modifies this`pieces
      ensures pieces == old(pieces) + [sendbuf[..n]]
    {
      pieces := pieces + [sendbuf[..n]];
    }

    /** WRITENUM: the bytes of num, the top one first. */
    method WriteNum(pos: nat, num: int, k: int) returns (end: nat)
      requires 0 <= k <= 4 && 0 <= num < Pow(k) && pos + k <= sendbuf.Length
      modifies sendbuf
      ensures end == pos + k && sendbuf[..end] == old(sendbuf[..pos]) + Num(num, k)
    {
      hide Pow, Num, ByteAt, Config.Sum;
      ghost var before, w := sendbuf[..pos], Num(num, k);
      end := pos;
      var si := k - 1;
      while si >= 0
        invariant -1 <= si < k && end == pos + (k - 1 - si)
        invariant sendbuf[..end] == before + w[..k - 1 - si]
      {
        NumAt(num, k, k - 1 - si);
        sendbuf[end] := ByteAt(num, si);
        end := end + 1;
        si := si - 1;
      }
    }

    /** WRITENUM_CKSUM: the same, each byte added to the checksum of done. */
    method WriteNumCksum(pos: nat, num: int, k: int, sum: int, ghost done: seq<byte>) returns (end: nat, sum': int)
      requires 0 <= k <= 4 && 0 <= num < Pow(k) && pos + k <= sendbuf.Length && sum == cfg.Sum(done)
      modifies sendbuf
      ensures end == pos + k && sendbuf[..end] == old(sendbuf[..pos]) + Num(num, k)
      ensures sum' == cfg.Sum(done + Num(num, k))
    {
      hide Pow, Num, ByteAt, Config.Sum;
      ghost var before, w := sendbuf[..pos], Num(num, k);
      end, sum' := pos, sum;
      var si := k - 1;
      assert done + w[..0] == done;
      while si >= 0
        invariant -1 <= si < k && end == pos + (k - 1 - si)
        invariant sendbuf[..end] == before + w[..k - 1 - si]
        invariant sum' == cfg.Sum(done + w[..k - 1 - si])
      {
        ghost var j := k - 1 - si;
        NumAt(num, k, j);
        var b := ByteAt(num, si);
        assert done + w[..j + 1] == done + w[..j] + [b];
        SumSnoc(cfg, done + w[..j], b);
        sendbuf[end] := b;
        sum' := cfg.add(sum', b);
        end := end + 1;
        si := si - 1;
      }
      assert w[..k] == w;
    }

    /** The id for a new message: the counter without its top bit, which tells the peers apart. */
    function FreshId(): (n: int)
      requires cfg.Ok() && 0 <= nextId < Pow(cfg.idBytes)
      reads this`nextId
      ensures 0 <= n < Pow(cfg.idBytes) && (n >= Pow(cfg.idBytes) / 2 <==> peer)
      ensures n % (Pow(cfg.idBytes) / 2) == nextId % (Pow(cfg.idBytes) / 2)
    {
      IdParts(nextId, Pow(cfg.idBytes) / 2);
      nextId % (Pow(cfg.idBytes) / 2) + if peer then Pow(cfg.idBytes) / 2 else 0
    }

    static lemma IdParts(n: int, span: int)
      requires span > 0
      ensures 0 <= n % span < span && n % span % span == n % span && (n % span + span) % span == n % span
    {
      var r := n % span;
      Quotient(r, span, 0);
      Quotient(r + span, span, 1);
    }

    /** The id a message goes out with: its own for a response, otherwise the next one. */
    method TakeId(isResponse: bool, frameId: int) returns (id: int)
      requires TxOk() && 0 <= frameId < Pow(cfg.idBytes)
      modifies this`nextId
      ensures TxOk() && id == (if isResponse then frameId else old(FreshId())) && 0 <= id < Pow(cfg.idBytes)
      ensures nextId == if isResponse then old(nextId) else (old(nextId) + 1) % Pow(cfg.idBytes)
    {
      if isResponse {
        id := frameId;
      } else {
        id := FreshId();
        nextId := (nextId + 1) % Pow(cfg.idBytes);
      }
    }

    /** The fields a header's checksum covers. */
    method WriteFields(id: int, len: int, typ: int) returns (pos: nat, sum: int)
      requires cfg.Ok() && sendbuf.Length >= cfg.HeadLen()
      requires 0 <= id < Pow(cfg.idBytes) && 0 <= typ < Pow(cfg.typeBytes) && 0 <= len < Pow(cfg.lenBytes)
      modifies sendbuf
      ensures pos == cfg.TypeEnd() && sendbuf[..pos] == HeadFields(cfg, id, len, typ)
      ensures sum == cfg.Sum(HeadFields(cfg, id, len, typ))
    {
      hide Pow, Num, Config.Sum, Config.Bounded;
      sum := cfg.start;
      SumEmpty(cfg);
      pos := 0;
      if cfg.useSof {
        sendbuf[pos] := cfg.sof;
        sum := cfg.add(sum, cfg.sof);
        SumSnoc(cfg, [], cfg.sof);
        assert [] + [cfg.sof] == Prefix(cfg);
        pos := 1;
      }
      assert sendbuf[..pos] == Prefix(cfg) && sum == cfg.Sum(Prefix(cfg));
      ghost var p1 := Prefix(cfg) + Num(id, cfg.idBytes);
      ghost var p2 := p1 + Num(len, cfg.lenBytes);
      hide Prefix;
      pos, sum := WriteNumCksum(pos, id, cfg.idBytes, sum, Prefix(cfg));
      pos, sum := WriteNumCksum(pos, len, cfg.lenBytes, sum, p1);
      pos, sum := WriteNumCksum(pos, typ, cfg.typeBytes, sum, p2);
    }

    /** TF_ComposeHead: the header at the start of the send buffer. */
    method ComposeHead(isResponse: bool, frameId: int, typ: int, len: int) returns (pos: nat, id: int)
      requires TxOk() && 0 <= frameId < Pow(cfg.idBytes)
      requires 0 <= typ < Pow(cfg.typeBytes) && 0 <= len < Pow(cfg.lenBytes)
      modifies this`nextId, sendbuf
      ensures TxOk() && id == if isResponse then frameId else old(FreshId())
      ensures !isResponse ==> id % (Pow(cfg.idBytes) / 2) == old(nextId) % (Pow(cfg.idBytes) / 2)
      ensures nextId == if isResponse then old(nextId) else (old(nextId) + 1) % Pow(cfg.idBytes)
      ensures pos == cfg.HeadLen() && 0 <= id < Pow(cfg.idBytes) && sendbuf[..pos] == Head(cfg, id, len, typ)
    {
      hide Pow, Num, Config.Sum, HeadFields, FreshId;
      var sum;
      id := TakeId(isResponse, frameId);
      pos, sum := WriteFields(id, len, typ);
      CheckFits(cfg, HeadFields(cfg, id, len, typ));
      sum := cfg.finish(sum);
      pos := WriteNum(pos, sum, cfg.ckBytes);
    }

    /** TF_ComposeBody: data goes behind what is in the buffer, and into the checksum of done. */
    method ComposeBody(pos: nat, body: seq<byte>, sum: int, ghost done: seq<byte>) returns (n: nat, sum': int)
      requires pos + |body| <= sendbuf.Length && sum == cfg.Sum(done)
      modifies sendbuf
      ensures n == |body| && sendbuf[..pos + n] == old(sendbuf[..pos]) + body && sum' == cfg.Sum(done + body)
    {
      hide Config.Sum;
      n, sum' := 0, sum;
      ghost var before := sendbuf[..pos];
      assert done + body[..0] == done;
      while n < |body|
        invariant 0 <= n <= |body| && sendbuf[..pos + n] == before + body[..n] && sum' == cfg.Sum(done + body[..n])
      {
        var b := body[n];
        assert done + body[..n + 1] == done + body[..n] + [b];
        SumSnoc(cfg, done + body[..n], b);
        sendbuf[pos + n] := b;
        sum' := cfg.add(sum', b);
        n := n + 1;
      }
      assert body[..n] == body;
    }

    /** All that has been written out, and what waits in the buffer. */
    ghost function Stream(): seq<byte>
      requires txPos <= sendbuf.Length
      reads this, sendbuf
    {
      Flat(pieces) + sendbuf[..txPos]
    }

    /** TF_SendFrame_Begin; a listener needs a free slot. */
    method SendBegin(isResponse: bool, frameId: int, typ: int, len: int, listener: bool, slot: bool)
      returns (ok: bool, id: int)
      requires TxOk() && 0 <= frameId < Pow(cfg.idBytes)
      requires 0 <= typ < Pow(cfg.typeBytes) && 0 <= len < Pow(cfg.lenBytes)
      modifies this`nextId, this`txPos, this`txLen, this`txCksum, this`softLock, sendbuf
      ensures TxOk() && ok == (!old(softLock) && (listener ==> slot)) && softLock == (old(softLock) || ok)
      ensures !old(softLock) ==> id == if isResponse then frameId else old(FreshId())
      ensures nextId == if old(softLock) || isResponse then old(nextId) else (old(nextId) + 1) % Pow(cfg.idBytes)
      ensures !old(softLock) && !isResponse ==> id % (Pow(cfg.idBytes) / 2) == old(nextId) % (Pow(cfg.idBytes) / 2)
      ensures old(softLock) ==> nextId == old(nextId) && txPos == old(txPos) && sendbuf[..] == old(sendbuf[..])
      ensures ok ==> txLen == len && txCksum == cfg.Sum([]) && txPos == cfg.HeadLen() && 0 <= id < Pow(cfg.idBytes)
      ensures ok ==>
        sendbuf[..txPos] == Head(cfg, id, len, typ) && Stream() == Flat(old(pieces)) + Head(cfg, id, len, typ)
    {
      hide Head, Flat, Config.Sum, Pow;
      id := 0;
      if softLock {
        return false, 0;
      }
      softLock := true;
      txPos, id := ComposeHead(isResponse, frameId, typ, len);
      txLen := len;
      if listener {
        if !slot {
          softLock := false;
          return false, id;
        }
      }
      txCksum := cfg.start;
      SumEmpty(cfg);
      ok := true;
    }

    static lemma Assoc(a: seq<byte>, b: seq<byte>, c: seq<byte>)
      ensures a + (b + c) == a + b + c
    {
    }

    /** What has been written since were full buffers. */
    static ghost predicate Grew(was: seq<seq<byte>>, now: seq<seq<byte>>, size: nat) {
      |was| <= |now| && now[..|was|] == was && forall i :: |was| <= i < |now| ==> |now[i]| == size
    }

    static lemma GrewNone(was: seq<seq<byte>>, size: nat)
      ensures Grew(was, was, size)
    {
    }

    static lemma GrewOn(a: seq<seq<byte>>, b: seq<seq<byte>>, c: seq<seq<byte>>, size: nat)
      requires Grew(a, b, size) && Grew(b, c, size)
      ensures Grew(a, c, size)
    {
      assert forall i :: 0 <= i < |b| ==> c[i] == c[..|b|][i];
    }

    /** Of what has been written since only the last is a buffer with room for a checksum. */
    static ghost predicate Packed(was: seq<seq<byte>>, now: seq<seq<byte>>, size: nat, ck: int) {
      |was| < |now| && now[..|was|] == was && forall i :: |was| <= i < |now| - 1 ==> size - |now[i]| < ck
    }

    static lemma PackedOn(a: seq<seq<byte>>, b: seq<seq<byte>>, c: seq<seq<byte>>, size: nat, ck: int)
      requires Grew(a, b, size) && Packed(b, c, size, ck) && ck > 0
      ensures Packed(a, c, size, ck)
    {
      assert forall i :: 0 <= i < |b| ==> c[i] == c[..|b|][i];
    }

    /** A part that fits: what fits goes into the buffer, and a full buffer is flushed. */
    method SendSome(part: seq<byte>, ghost done: seq<byte>)
      requires TxOk() && txPos + |part| <= sendbuf.Length && txCksum == cfg.Sum(done)
      modifies this`txPos, this`txCksum, this`pieces, sendbuf
      ensures TxOk() && Stream() == old(Stream()) + part && txCksum == cfg.Sum(done + part)
      ensures Grew(old(pieces), pieces, sendbuf.Length)
      ensures txPos == if old(txPos) + |part| == sendbuf.Length then 0 else old(txPos) + |part|
    {
      hide Flat, Config.Sum, Pow, Config.Ok;
      ghost var waiting := sendbuf[..txPos];
      var n;
      n, txCksum := ComposeBody(txPos, part, txCksum, done);
      txPos := txPos + n;
      Assoc(Flat(pieces), waiting, part);
      if txPos == sendbuf.Length {
        FlatSnoc(pieces, sendbuf[..txPos]);
        Write(txPos);
        txPos := 0;
        assert Flat(pieces) + sendbuf[..0] == Flat(pieces);
      }
    }

    lemma SomeChecksum()
      requires TxOk()
      ensures cfg.ckBytes > 0
    {
    }

    lemma SomeRoom()
      requires TxOk()
      ensures sendbuf.Length > 0
    {
    }

    /** One turn of the loop of TF_SendFrame_Chunk: what fits goes into the buffer, up to the length cast. */
    method SendTurn(buff: seq<byte>, sent: nat, remain: nat, ghost done: seq<byte>)
      returns (chunk: nat, ghost part: seq<byte>)
      requires TxOk() && txCksum == cfg.Sum(done) && remain > 0 && sent + remain == |buff|
      modifies this`txPos, this`txCksum, this`pieces, sendbuf
      ensures TxOk() && Stream() == old(Stream()) + part && txCksum == cfg.Sum(done + part)
      ensures Grew(old(pieces), pieces, sendbuf.Length)
      ensures chunk <= remain && (chunk == 0 ==> old(txPos) == sendbuf.Length && txPos < sendbuf.Length)
      ensures old(Passed(buff[sent..])) == part + Passed(buff[sent + chunk..])
    {
      hide Flat, Config.Sum, Pow, Config.Ok, Stream, Sent, Room, Cast, Grew;
      SomeRoom();
      var size, lim := sendbuf.Length, Pow(cfg.lenBytes);
      chunk := Room(remain, txPos, size);
      var n := Cast(chunk, lim);
      part := buff[sent..sent + n];
      SentStep(buff, sent, txPos, size, lim);
      SendSome(buff[sent..sent + n], done);
    }

    /** Of all, out has gone behind before, and into the checksum of done; rest is still to come. */
    ghost predicate Along(before: seq<byte>, done: seq<byte>, out: seq<byte>, all: seq<byte>, rest: seq<byte>)
      requires TxOk()
      reads this, sendbuf
    {
      Stream() == before + out && txCksum == cfg.Sum(done + out) && out + Passed(rest) == all
    }

    /** A turn further along. */
    method SendOn(buff: seq<byte>, sent: nat, remain: nat, ghost done: seq<byte>, ghost before: seq<byte>,
                  ghost out: seq<byte>, ghost all: seq<byte>) returns (chunk: nat, ghost more: seq<byte>)
      requires TxOk() && remain > 0 && sent + remain == |buff| && Along(before, done, out, all, buff[sent..])
      modifies this`txPos, this`txCksum, this`pieces, sendbuf
      ensures TxOk() && chunk <= remain && (chunk == 0 ==> old(txPos) == sendbuf.Length && txPos < sendbuf.Length)
      ensures Grew(old(pieces), pieces, sendbuf.Length)
      ensures Along(before, done, more, all, buff[sent + chunk..])
    {
      hide Flat, Config.Sum, Pow, Config.Ok, Stream, Passed, Grew;
      ghost var part;
      chunk, part := SendTurn(buff, sent, remain, done + out);
      more := Further(done, before, out, part, all, Passed(buff[sent + chunk..]));
    }

    /** TF_SendFrame_Chunk: part of a payload, flushed whenever the buffer is full. */
    method SendChunk(buff: seq<byte>, ghost done: seq<byte>)
      requires TxOk() && txCksum == cfg.Sum(done)
      modifies this`txPos, this`txCksum, this`pieces, sendbuf
      ensures TxOk() && Stream() == old(Stream()) + old(Passed(buff)) && txCksum == cfg.Sum(done + old(Passed(buff)))
      ensures old(Passed(buff)) == buff <==> Uncut(|buff|, old(txPos), sendbuf.Length, Pow(cfg.lenBytes))
      ensures Grew(old(pieces), pieces, sendbuf.Length)
      ensures buff == [] ==> txPos == old(txPos) && pieces == old(pieces) && sendbuf[..] == old(sendbuf[..])
    {
      hide Flat, Config.Sum, Pow, Config.Ok, Stream, Passed, Uncut, Along, Grew;
      GrewNone(pieces, sendbuf.Length);
      ghost var before, all := Stream(), Passed(buff);
      AtStart(buff, done);
      var remain, sent := |buff|, 0;
      ghost var out: seq<byte> := [];
      while remain > 0
        invariant TxOk() && sent + remain == |buff| && remain >= 0 && sent >= 0
        invariant Grew(old(pieces), pieces, sendbuf.Length)
        invariant Along(before, done, out, all, buff[sent..])
        invariant buff == [] ==> txPos == old(txPos) && pieces == old(pieces) && sendbuf[..] == old(sendbuf[..])
        decreases remain, if txPos == sendbuf.Length then 1 else 0
      {
        var chunk;
        ghost var was := pieces;
        chunk, out := SendOn(buff, sent, remain, done, before, out, all);
        GrewOn(old(pieces), was, pieces, sendbuf.Length);
        remain := remain - chunk;
        sent := sent + chunk;
      }
      AllAlong(buff[sent..], before, done, out, all);
    }

    lemma AtStart(buff: seq<byte>, done: seq<byte>)
      requires TxOk() && txCksum == cfg.Sum(done)
      ensures Along(Stream(), done, [], Passed(buff), buff[0..])
      ensures Passed(buff) == buff <==> Uncut(|buff|, txPos, sendbuf.Length, Pow(cfg.lenBytes))
    {
      UncutIs(buff, txPos, sendbuf.Length, Pow(cfg.lenBytes));
      hide Pow, Config.Sum, Stream, Config.Ok, Sent;
      assert buff[0..] == buff && done + [] == done && Stream() + [] == Stream() && [] + Passed(buff) == Passed(buff);
    }

    lemma AllAlong(rest: seq<byte>, before: seq<byte>, done: seq<byte>, out: seq<byte>, all: seq<byte>)
      requires TxOk() && rest == [] && Along(before, done, out, all, rest)
      ensures Stream() == before + all && txCksum == cfg.Sum(done + all)
    {
      hide Pow, Config.Sum, Stream, Config.Ok;
      assert out + [] == out;
    }

    /** What of buff goes out: the length of each turn is cast to the type of a payload's length. */
    ghost function Passed(buff: seq<byte>): seq<byte>
      requires TxOk()
      reads this
    {
      Sent(buff, txPos, sendbuf.Length, Pow(cfg.lenBytes))
    }

    /** How much of n bytes fits behind pos in a buffer. */
    static function Room(n: nat, pos: nat, size: nat): (chunk: nat)
      requires pos <= size
      ensures chunk <= n && pos + chunk <= size && (chunk == 0 ==> n == 0 || pos == size)
    {
      if size - pos < n then size - pos else n
    }

    /** The cast to the type of a payload's length. */
    static function Cast(n: nat, lim: int): (r: nat)
      requires lim > 0
      ensures r <= n && (r == n <==> n < lim)
    {
      n % lim
    }

    static ghost function Sent(buff: seq<byte>, pos: nat, size: nat, lim: int): (out: seq<byte>)
      requires pos <= size && size > 0 && lim > 0
      ensures |out| <= |buff|
      decreases |buff|, if pos == size then 1 else 0
    {
      if buff == [] then []
      else
        var chunk := Room(|buff|, pos, size);
        var n := Cast(chunk, lim);
        buff[..n] + Sent(buff[chunk..], if pos + n == size then 0 else pos + n, size, lim)
    }

    /** No turn is longer than a payload can be: not what fits into the buffer now, nor what goes into an empty one. */
    static ghost predicate Uncut(n: nat, pos: nat, size: nat, lim: int)
      requires pos <= size
    {
      Room(n, pos, size) < lim && Room(n - Room(n, pos, size), 0, size) < lim
    }

    static lemma {:induction false} UncutIs(buff: seq<byte>, pos: nat, size: nat, lim: int)
      requires pos <= size && size > 0 && lim > 0
      ensures Sent(buff, pos, size, lim) == buff <==> Uncut(|buff|, pos, size, lim)
      decreases |buff|, if pos == size then 1 else 0
    {
      if buff != [] {
        hide Cast;
        var chunk := Room(|buff|, pos, size);
        if chunk < lim {
          UncutIs(buff[chunk..], if pos + chunk == size then 0 else pos + chunk, size, lim);
          assert buff == buff[..chunk] + buff[chunk..];
        }
      }
    }

    static lemma ShortUncut(n: nat, pos: nat, size: nat, lim: int)
      requires pos <= size && (n < lim || size < lim)
      ensures Uncut(n, pos, size, lim)
    {
    }

    static lemma SentStep(buff: seq<byte>, sent: nat, pos: nat, size: nat, lim: int)
      requires pos <= size && size > 0 && lim > 0 && sent < |buff|
      ensures var chunk := Room(|buff| - sent, pos, size);
        var n := Cast(chunk, lim);
        Sent(buff[sent..], pos, size, lim) ==
          buff[sent..sent + n] + Sent(buff[sent + chunk..], if pos + n == size then 0 else pos + n, size, lim)
    {
      hide Cast, Room, Sent;
      var chunk := Room(|buff| - sent, pos, size);
      SentIs(buff[sent..], pos, size, lim);
      Slices(buff, sent, Cast(chunk, lim));
      Slices(buff, sent, chunk);
    }

    static lemma SentIs(buff: seq<byte>, pos: nat, size: nat, lim: int)
      requires pos <= size && size > 0 && lim > 0 && buff != []
      ensures var chunk := Room(|buff|, pos, size);
        var n := Cast(chunk, lim);
        Sent(buff, pos, size, lim) ==
          buff[..n] + Sent(buff[chunk..], if pos + n == size then 0 else pos + n, size, lim)
    {
      hide Cast, Room;
    }

    static lemma Slices(buff: seq<byte>, i: nat, n: nat)
      requires i + n <= |buff|
      ensures buff[i..][..n] == buff[i..i + n] && buff[i..][n..] == buff[i + n..]
    {
    }

    /** One turn more. */
    static lemma Further(done: seq<byte>, before: seq<byte>, out: seq<byte>, part: seq<byte>, all: seq<byte>,
                         rest: seq<byte>) returns (more: seq<byte>)
      requires out + (part + rest) == all
      ensures more == out + part && more + rest == all
      ensures done + out + part == done + more && before + out + part == before + more
    {
      more := out + part;
    }

    /** What the end of a frame adds to the stream. */
    ghost function Tail(done: seq<byte>): seq<byte>
      requires cfg.Ok()
      reads this`txLen
    {
      if txLen > 0 then Num(cfg.Check(done), cfg.ckBytes) else []
    }

    /** TF_SendFrame_End: the payload's checksum if one is due, the last flush, and the lock is released. */
    method SendEnd(ghost done: seq<byte>)
      requires TxOk() && txCksum == cfg.Sum(done)
      modifies this`txPos, this`txCksum, this`pieces, this`softLock, sendbuf
      ensures TxOk() && !softLock && Flat(pieces) == old(Stream()) + Tail(done)
      ensures Packed(old(pieces), pieces, sendbuf.Length, cfg.ckBytes)
      ensures txLen == 0 ==> pieces == old(pieces) + [old(sendbuf[..txPos])]
      ensures txLen == 0 ==> txPos == old(txPos) && sendbuf[..txPos] == old(sendbuf[..txPos]) && txCksum == old(txCksum)
    {
      hide Flat, Config.Sum, Pow, Num;
      CheckFits(cfg, done);
      ghost var before := Stream();
      if txLen > 0 {
        if sendbuf.Length - txPos < cfg.ckBytes {
          FlatSnoc(pieces, sendbuf[..txPos]);
          Write(txPos);
          txPos := 0;
        }
        assert Stream() == before;
        ghost var waiting := sendbuf[..txPos];
        txCksum := cfg.finish(txCksum);
        txPos := WriteNum(txPos, txCksum, cfg.ckBytes);
        assert Flat(pieces) + (waiting + Tail(done)) == Flat(pieces) + waiting + Tail(done);
      }
      assert Stream() == before + Tail(done);
      FlatSnoc(pieces, sendbuf[..txPos]);
      Write(txPos);
      softLock := false;
    }

    /** TF_SendFrame of a message with its payload at hand: one whole frame goes out, or nothing. */
    method Send(isResponse: bool, frameId: int, typ: int, payload: seq<byte>, listener: bool, slot: bool)
      returns (ok: bool, id: int)
      requires TxOk() && 0 <= frameId < Pow(cfg.idBytes)
      requires 0 <= typ < Pow(cfg.typeBytes) && |payload| < Pow(cfg.lenBytes)
      modifies this`nextId, this`txPos, this`txLen, this`txCksum, this`softLock, this`pieces, sendbuf
      ensures TxOk() && ok == (!old(softLock) && (listener ==> slot)) && softLock == old(softLock)
      ensures ok ==> id == if isResponse then frameId else old(FreshId())
      ensures nextId == if old(softLock) || isResponse then old(nextId) else (old(nextId) + 1) % Pow(cfg.idBytes)
      ensures ok && !isResponse ==> id % (Pow(cfg.idBytes) / 2) == old(nextId) % (Pow(cfg.idBytes) / 2)
      ensures ok && !isResponse ==> (id >= Pow(cfg.idBytes) / 2 <==> peer)
      ensures ok ==>
        Fits(cfg, Msg(id, typ, payload)) && Flat(pieces) == Flat(old(pieces)) + Frame(cfg, Msg(id, typ, payload))
      ensures ok ==> Packed(old(pieces), pieces, sendbuf.Length, cfg.ckBytes)
      ensures !ok ==> pieces == old(pieces)
    {
      hide Flat, Config.Sum, Pow, Num, Head, FreshId, Config.Ok, Grew, Packed;
      ok, id := SendBegin(isResponse, frameId, typ, |payload|, listener, slot);
      if ok {
        SendChunk(payload, []);
        assert [] + payload == payload;
        ghost var full := pieces;
        SendEnd(payload);
        SomeChecksum();
        PackedOn(old(pieces), full, pieces, sendbuf.Length, cfg.ckBytes);
        FrameIs(cfg, Flat(old(pieces)), id, typ, payload);
      }
    }

    /**
    Messages sent one after another, each whole. New ones get ids that follow the counter, so that among any
    Pow(cfg.idBytes) / 2 new messages in a row no two have the same id; answers go out with the ids they were given.
    */
    method SendRow(msgs: seq<Outgoing>) returns (ids: seq<int>)
      requires TxOk() && !softLock && forall i :: 0 <= i < |msgs| ==> Sendable(msgs[i])
      modifies this`nextId, this`txPos, this`txLen, this`txCksum, this`softLock, this`pieces, sendbuf
      ensures TxOk() && !softLock && |ids| == |msgs|
      ensures forall k :: 0 <= k < |msgs| && msgs[k].response ==> ids[k] == msgs[k].frameId
      ensures forall k :: 0 <= k < |msgs| && !msgs[k].response ==> (ids[k] >= Pow(cfg.idBytes) / 2 <==> peer)
      ensures forall j, k :: 0 <= j < k < |msgs| && Near(msgs, j, k, Pow(cfg.idBytes) / 2) ==> ids[j] != ids[k]
      ensures nextId == (old(nextId) + News(msgs, |msgs|)) % Pow(cfg.idBytes)
      ensures Flat(pieces) == Flat(old(pieces)) + Frames(msgs, ids)
    {
      hide Flat, Pow, Frames, News, Sendable, Config.Ok, FreshId, Packed, Frame, Fits;
      ids := [];
      RowStarts(msgs, Flat(pieces), nextId);
      var i := 0;
      while i < |msgs|
        invariant 0 <= i <= |msgs| && TxOk() && !softLock && |ids| == i
        invariant nextId == (old(nextId) + News(msgs, i)) % Pow(cfg.idBytes)
        invariant Flat(pieces) == Flat(old(pieces)) + Frames(msgs[..i], ids)
        invariant forall k :: 0 <= k < i && msgs[k].response ==> ids[k] == msgs[k].frameId
        invariant forall k :: 0 <= k < i && !msgs[k].response ==> (ids[k] >= Pow(cfg.idBytes) / 2 <==> peer)
        invariant forall k :: 0 <= k < i && !msgs[k].response ==> Follows(old(nextId), News(msgs, k), ids[k])
      {
        var m := msgs[i];
        SendableIs(m);
        ghost var from, was := nextId, Flat(pieces);
        var ok, id;
        ok, id := Send(m.response, m.frameId, m.typ, m.payload, false, false);
        RowMore(msgs, ids, i, id, Flat(old(pieces)));
        CountMore(old(nextId), News(msgs, i), from, id, m.response);
        ids := ids + [id];
        i := i + 1;
      }
      assert msgs[..i] == msgs;
      Distinct(old(nextId), msgs, ids);
    }

    ghost predicate Sendable(m: Outgoing) {
      && 0 <= m.frameId < Pow(cfg.idBytes) && 0 <= m.typ < Pow(cfg.typeBytes)
      && |m.payload| < Pow(cfg.lenBytes)
    }

    lemma SendableIs(m: Outgoing)
      requires Sendable(m)
      ensures 0 <= m.frameId < Pow(cfg.idBytes) && 0 <= m.typ < Pow(cfg.typeBytes) && |m.payload| < Pow(cfg.lenBytes)
    {
    }

    /** How many of the first k messages are new ones. */
    static ghost function News(msgs: seq<Outgoing>, k: nat): nat
      requires k <= |msgs|
    {
      if k == 0 then 0 else News(msgs, k - 1) + if msgs[k - 1].response then 0 else 1
    }

    /** Two new messages with fewer than span from the one to the other. */
    static ghost predicate Near(msgs: seq<Outgoing>, j: nat, k: nat, span: int)
      requires j < |msgs| && k < |msgs|
    {
      !msgs[j].response && !msgs[k].response && News(msgs, k) - News(msgs, j) < span
    }

    /** The frames of the messages, one after another. */
    ghost function Frames(msgs: seq<Outgoing>, ids: seq<int>): seq<byte>
      requires cfg.Ok() && |ids| == |msgs|
    {
      if msgs == [] then []
      else
        var n := |msgs| - 1;
        Frames(msgs[..n], ids[..n]) +
          var m := Msg(ids[n], msgs[n].typ, msgs[n].payload);
          if Fits(cfg, m) then Frame(cfg, m) else []
    }

    /** The id is, but for the bit of the peer, the counter that stood at first and has gone on by n. */
    ghost predicate Follows(first: int, n: nat, id: int)
      requires cfg.Ok()
    {
      id % (Pow(cfg.idBytes) / 2) == (first + n) % (Pow(cfg.idBytes) / 2)
    }

    lemma RowStarts(msgs: seq<Outgoing>, before: seq<byte>, first: int)
      requires cfg.Ok() && 0 <= first < Pow(cfg.idBytes)
      ensures msgs[..0] == [] && News(msgs, 0) == 0 && before + Frames(msgs[..0], []) == before
      ensures first % Pow(cfg.idBytes) == first
    {
      Quotient(first, Pow(cfg.idBytes), 0);
    }

    lemma RowMore(msgs: seq<Outgoing>, ids: seq<int>, i: nat, id: int, before: seq<byte>)
      requires cfg.Ok() && i < |msgs| && |ids| == i && Fits(cfg, Msg(id, msgs[i].typ, msgs[i].payload))
      ensures before + Frames(msgs[..i + 1], ids + [id]) ==
        before + Frames(msgs[..i], ids) + Frame(cfg, Msg(id, msgs[i].typ, msgs[i].payload))
      ensures News(msgs, i + 1) == News(msgs, i) + if msgs[i].response then 0 else 1
    {
      hide Frame, Fits;
      assert msgs[..i + 1][..i] == msgs[..i] && (ids + [id])[..i] == ids;
    }

    lemma CountMore(first: int, n: nat, from: int, id: int, response: bool)
      requires TxOk() && 0 <= first && from == (first + n) % Pow(cfg.idBytes)
      requires !response ==> id % (Pow(cfg.idBytes) / 2) == from % (Pow(cfg.idBytes) / 2)
      ensures !response ==> Follows(first, n, id) && (from + 1) % Pow(cfg.idBytes) == (first + n + 1) % Pow(cfg.idBytes)
    {
      PowIs();
      hide Pow, Config.Ok;
      Counting(first + n, Pow(cfg.idBytes));
    }

    lemma PowIs()
      requires cfg.Ok()
      ensures Pow(cfg.idBytes) == 0x100 || Pow(cfg.idBytes) == 0x1_0000 || Pow(cfg.idBytes) == 0x1_0000_0000
    {
    }

    static lemma Counting(a: int, p: int)
      requires a >= 0 && p > 0 && p % 2 == 0
      ensures (a % p + 1) % p == (a + 1) % p && a % p % (p / 2) == a % (p / 2)
    {
      NextRemainder(a, a / p, a % p, p);
      HalfRemainder(a, a / p, a % p, p / 2);
    }

    static lemma NextRemainder(a: int, q: int, r: int, p: int)
      requires p > 0 && 0 <= r < p && a == q * p + r
      ensures (r + 1) % p == (a + 1) % p
    {
      if r + 1 < p {
        DivMod(a + 1, p, q, r + 1);
        DivMod(r + 1, p, 0, r + 1);
      } else {
        assert (q + 1) * p == q * p + p;
        DivMod(a + 1, p, q + 1, 0);
        DivMod(p, p, 1, 0);
      }
    }

    static lemma HalfRemainder(a: int, q: int, r: int, h: int)
      requires h > 0 && 0 <= r < 2 * h && a == q * (2 * h) + r
      ensures r % h == a % h
    {
      var t := if r < h then 0 else 1;
      assert (2 * q + t) * h == q * (2 * h) + t * h;
      DivMod(a, h, 2 * q + t, r - t * h);
      DivMod(r, h, t, r - t * h);
    }

    lemma Distinct(first: int, msgs: seq<Outgoing>, ids: seq<int>)
      requires cfg.Ok() && |ids| == |msgs| && first >= 0
      requires forall k :: 0 <= k < |msgs| && !msgs[k].response ==> Follows(first, News(msgs, k), ids[k])
      ensures forall j, k :: 0 <= j < k < |msgs| && Near(msgs, j, k, Pow(cfg.idBytes) / 2) ==> ids[j] != ids[k]
    {
      hide Pow, Follows, News;
      forall j, k | 0 <= j < k < |msgs| && Near(msgs, j, k, Pow(cfg.idBytes) / 2)
        ensures ids[j] != ids[k]
      {
        NearApart(msgs, j, k, first, ids[j], ids[k]);
      }
    }

    lemma NearApart(msgs: seq<Outgoing>, j: nat, k: nat, first: int, a: int, b: int)
      requires cfg.Ok() && first >= 0 && j < k < |msgs| && Near(msgs, j, k, Pow(cfg.idBytes) / 2)
      requires Follows(first, News(msgs, j), a) && Follows(first, News(msgs, k), b)
      ensures a != b
    {
      hide Pow;
      NewsGrow(msgs, j + 1, k);
      Apart(first + News(msgs, j), first + News(msgs, k));
    }

    static lemma {:induction false} NewsGrow(msgs: seq<Outgoing>, j: nat, k: nat)
      requires j <= k <= |msgs|
      ensures News(msgs, j) <= News(msgs, k)
      decreases k
    {
      if j < k { NewsGrow(msgs, j, k - 1); }
    }

    lemma Apart(a: int, b: int)
      requires cfg.Ok() && 0 <= a < b < a + Pow(cfg.idBytes) / 2
      ensures a % (Pow(cfg.idBytes) / 2) != b % (Pow(cfg.idBytes) / 2)
    {
      PowIs();
      hide Pow, Config.Ok;
      Residues(a, b, Pow(cfg.idBytes) / 2);
    }

    static lemma Residues(a: int, b: int, span: int)
      requires 0 <= a < b < a + span && (span == 0x80 || span == 0x8000 || span == 0x8000_0000)
      ensures a % span != b % span
    {
      if span == 0x80 {
        assert a % 0x80 != b % 0x80;
      } else if span == 0x8000 {
        assert a % 0x8000 != b % 0x8000;
      } else {
        assert a % 0x8000_0000 != b % 0x8000_0000;
      }
    }

    static lemma FrameIs(cfg: Config, before: seq<byte>, id: int, typ: int, payload: seq<byte>)
      requires cfg.Ok() && Fits(cfg, Msg(id, typ, payload))
      ensures before + Frame(cfg, Msg(id, typ, payload))
           == before + Head(cfg, id, |payload|, typ) + payload
              + if |payload| > 0 then Num(cfg.Check(payload), cfg.ckBytes) else []
    {
      hide Config.Sum, Pow, Num, Head;
      var hd := Head(cfg, id, |payload|, typ);
      if payload == [] {
        assert before + (hd + []) == before + hd + [] + [];
      } else {
        var ck := Num(cfg.Check(payload), cfg.ckBytes);
        assert before + (hd + (payload + ck)) == before + hd + payload + ck;
      }
    }

    /**
    TF_Send_Multipart, then TF_Multipart_Payload for each part, then TF_Multipart_Close. A message announced with a
    length comes out as one frame however it is split. One announced empty is already finished by TF_Send_Multipart,
    so the close sends its frame a second time.
    */
    method SendMultipart(isResponse: bool, frameId: int, typ: int, len: int, parts: seq<seq<byte>>)
      returns (ok: bool, id: int)
      requires TxOk() && 0 <= frameId < Pow(cfg.idBytes) && 0 <= typ < Pow(cfg.typeBytes)
      requires 0 <= len == |Flat(parts)| < Pow(cfg.lenBytes)
      modifies this`nextId, this`txPos, this`txLen, this`txCksum, this`softLock, this`pieces, sendbuf
      ensures TxOk() && ok == !old(softLock) && softLock == old(softLock)
      ensures ok ==> id == (if isResponse then frameId else old(FreshId())) && Fits(cfg, Msg(id, typ, Flat(parts)))
      ensures nextId == if old(softLock) || isResponse then old(nextId) else (old(nextId) + 1) % Pow(cfg.idBytes)
      ensures ok && !isResponse ==> id % (Pow(cfg.idBytes) / 2) == old(nextId) % (Pow(cfg.idBytes) / 2)
      ensures ok && !isResponse ==> (id >= Pow(cfg.idBytes) / 2 <==> peer)
      ensures ok ==> var f := Frame(cfg, Msg(id, typ, Flat(parts)));
                     Flat(pieces) == Flat(old(pieces)) + f + if len == 0 then f else []
      ensures ok && len > 0 ==> Packed(old(pieces), pieces, sendbuf.Length, cfg.ckBytes)
      ensures !ok ==> pieces == old(pieces)
    {
      hide Flat, Config.Sum, Pow, Num, Head, FreshId, Config.Ok, Grew, Packed;
      ok, id := SendBegin(isResponse, frameId, typ, len, false, false);
      if ok {
        ghost var hd := Head(cfg, id, len, typ);
        ghost var done := Flat(old(pieces));
        if len == 0 {
          ghost var none: seq<byte> := [];
          SendChunk([], none);
          assert none + none == none;
          SendEnd(none);
          assert Stream() == done + hd + hd;
        }
        ghost var begun := Stream();
        SendParts(parts);
        ghost var full := pieces;
        SendEnd(Flat(parts));
        SomeChecksum();
        if len > 0 { PackedOn(old(pieces), full, pieces, sendbuf.Length, cfg.ckBytes); }
        ClosedIs(cfg, done, begun, id, typ, Flat(parts));
      }
    }

    static lemma ClosedIs(cfg: Config, done: seq<byte>, begun: seq<byte>, id: int, typ: int, payload: seq<byte>)
      requires cfg.Ok() && Fits(cfg, Msg(id, typ, payload))
      requires var hd := Head(cfg, id, |payload|, typ); begun == if payload == [] then done + hd + hd else done + hd
      ensures begun + payload + (if |payload| > 0 then Num(cfg.Check(payload), cfg.ckBytes) else [])
           == done + Frame(cfg, Msg(id, typ, payload)) + if payload == [] then Frame(cfg, Msg(id, typ, payload)) else []
    {
      hide Config.Sum, Pow, Num, Head;
      FrameIs(cfg, done, id, typ, payload);
      var hd := Head(cfg, id, |payload|, typ);
      if payload == [] {
        assert hd + [] == hd;
        assert begun + [] + [] == begun;
      }
    }

    static lemma {:induction false} FlatShort(ps: seq<seq<byte>>, i: int)
      requires 0 <= i < |ps|
      ensures |ps[i]| <= |Flat(ps)| && |Flat(ps[..i])| <= |Flat(ps)|
      decreases |ps|
    {
      var m := |ps| - 1;
      if i < m {
        FlatShort(ps[..m], i);
        assert ps[..m][..i] == ps[..i];
      }
    }

    /** TF_Multipart_Payload for each part in turn. */
    method SendParts(parts: seq<seq<byte>>)
      requires TxOk() && |Flat(parts)| < Pow(cfg.lenBytes) && txCksum == cfg.Sum([])
      modifies this`txPos, this`txCksum, this`pieces, sendbuf
      ensures Grew(old(pieces), pieces, sendbuf.Length)
      ensures TxOk() && Stream() == old(Stream()) + Flat(parts) && txCksum == cfg.Sum(Flat(parts))
    {
      ghost var before := Stream();
      assert Flat(parts[..0]) == [];
      assert before + [] == before;
      hide Flat, Config.Sum, Pow, Config.Ok, Stream, Grew;
      GrewNone(pieces, sendbuf.Length);
      var i := 0;
      while i < |parts|
        invariant 0 <= i <= |parts| && TxOk()
        invariant Grew(old(pieces), pieces, sendbuf.Length)
        invariant Stream() == before + Flat(parts[..i]) && txCksum == cfg.Sum(Flat(parts[..i]))
      {
        FlatShort(parts, i);
        ghost var was := pieces;
        SendChunk(parts[i], Flat(parts[..i]));
        GrewOn(old(pieces), was, pieces, sendbuf.Length);
        assert parts[..i + 1] == parts[..i] + [parts[i]];
        FlatSnoc(parts[..i], parts[i]);
        Assoc(before, Flat(parts[..i]), parts[i]);
        i := i + 1;
      }
      assert parts[..i] == parts;
    }

    /** The buffers written by a peer, accepted one after another. */
    method AcceptAll(buffers: seq<seq<byte>>)
      requires RxOk()
      modifies this`state, this`ticks, this`id, this`len, this`typ, this`rxi, this`cksum, this`ref, this`discard
      modifies this`handled, this`link, data
      ensures RxOk() && link == Run(cfg, old(link), AsEvents(Flat(buffers)))
      ensures link.window == [] && (old(state) == SOF || Flat(buffers) != []) ==> state == SOF
    {
      assert Flat(buffers[..0]) == [] && AsEvents([]) == [];
      hide Tied, Take, Run, Flat, Config.Ok;
      RunNothing(cfg, link);
      var i := 0;
      while i < |buffers|
        invariant 0 <= i <= |buffers| && RxOk() && link == Run(cfg, old(link), AsEvents(Flat(buffers[..i])))
        invariant link.window == [] && (old(state) == SOF || Flat(buffers[..i]) != []) ==> state == SOF
      {
        Accept(buffers[i]);
        RunJoined(cfg, old(link), Flat(buffers[..i]), buffers[i]);
        FlatSnoc(buffers[..i], buffers[i]);
        assert buffers[..i + 1] == buffers[..i] + [buffers[i]];
        i := i + 1;
      }
      assert buffers[..i] == buffers;
    }
  }

  /** Two peers with the same configuration: what one sends whole, the other delivers once and is idle again. */
  method Exchange(tx: TinyFrame, rx: TinyFrame, isResponse: bool, frameId: int, typ: int, payload: seq<byte>)
    returns (id: int)
    requires tx.TxOk() && rx.RxOk() && tx.cfg == rx.cfg && !tx.softLock && tx.pieces == []
    requires rx.state == SOF || rx.ticks >= rx.cfg.timeoutTicks
    requires tx != rx && tx.sendbuf != rx.data
    requires 0 <= frameId < Pow(tx.cfg.idBytes) && 0 <= typ < Pow(tx.cfg.typeBytes) && |payload| < Pow(tx.cfg.lenBytes)
    modifies tx, tx.sendbuf, rx, rx.data
    ensures id == if isResponse then frameId else old(tx.FreshId())
    ensures rx.RxOk() && rx.state == SOF
    ensures rx.handled == old(rx.handled) + if |payload| <= rx.cfg.maxPayload then [Msg(id, typ, payload)] else []
  {
    assert Flat(tx.pieces) == [];
    hide Tied, Take, Run, Flat, Config.Ok, Frame, Pow;
    rx.Arms();
    var ok;
    ok, id := tx.Send(isResponse, frameId, typ, payload, false, false);
    ghost var f := Frame(tx.cfg, Msg(id, typ, payload));
    assert [] + f == f;
    FrameDelivered(rx.cfg, rx.link, Msg(id, typ, payload));
    TinyFrame.FrameNotEmpty(rx.cfg, Msg(id, typ, payload));
    rx.AcceptAll(tx.pieces);
  }

  /** The same for a message sent in parts: one delivery, however it is split, but two when it was announced empty. */
  method ExchangeParts(tx: TinyFrame, rx: TinyFrame, isResponse: bool, frameId: int, typ: int, parts: seq<seq<byte>>)
    returns (id: int)
    requires tx.TxOk() && rx.RxOk() && tx.cfg == rx.cfg && !tx.softLock && tx.pieces == []
    requires rx.state == SOF || rx.ticks >= rx.cfg.timeoutTicks
    requires tx != rx && tx.sendbuf != rx.data
    requires 0 <= frameId < Pow(tx.cfg.idBytes)
    requires 0 <= typ < Pow(tx.cfg.typeBytes) && |Flat(parts)| < Pow(tx.cfg.lenBytes)
    modifies tx, tx.sendbuf, rx, rx.data
    ensures id == if isResponse then frameId else old(tx.FreshId())
    ensures rx.RxOk() && rx.state == SOF
    ensures var m := Msg(id, typ, Flat(parts));
            rx.handled == old(rx.handled) +
              if |m.payload| > rx.cfg.maxPayload then [] else if m.payload == [] then [m, m] else [m]
  {
    assert Flat(tx.pieces) == [];
    hide Tied, Take, Run, Flat, Config.Ok, Frame, Pow;
    rx.Arms();
    var ok;
    ok, id := tx.SendMultipart(isResponse, frameId, typ, |Flat(parts)|, parts);
    ghost var m := Msg(id, typ, Flat(parts));
    PartsArrive(rx.cfg, rx.link, m);
    TinyFrame.FrameNotEmpty(rx.cfg, m);
    ghost var f := Frame(tx.cfg, m);
    assert [] + f + (if m.payload == [] then f else []) == f + if m.payload == [] then f else [];
    rx.AcceptAll(tx.pieces);
  }
}
