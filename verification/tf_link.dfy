/**
What a TinyFrame receiver does with a stream of bytes and clock ticks, stated over whole windows of input.
*/
module TfLink {
  import opened Octets
  import opened TfFormat

  // ---------- windows and frames

  /** A sequence built from six parts, cut up again. */
  lemma Parts(p: seq<byte>, a: seq<byte>, b: seq<byte>, c: seq<byte>, d: seq<byte>, rest: seq<byte>)
    ensures var w := p + a + b + c + d + rest;
            var i, j, k, l, n := |p|, |p| + |a|, |p| + |a| + |b|, |p| + |a| + |b| + |c|, |p| + |a| + |b| + |c| + |d|;
            && w[i..j] == a && w[j..k] == b && w[k..l] == c && w[l..n] == d
            && w[..l] == p + a + b + c && w[n..] == rest
  {
  }

  /** A sequence cut in five and put together. */
  lemma Joined(w: seq<byte>, s: int, a: int, b: int, c: int, d: int)
    requires 0 <= s <= a <= b <= c <= d <= |w|
    ensures w[..d] == w[..s] + w[s..a] + w[a..b] + w[b..c] + w[c..d]
    ensures w[..c] == w[..s] + w[s..a] + w[a..b] + w[b..c]
  {
    Step(w, s, a);
    Step(w, a, b);
    Step(w, b, c);
    Step(w, c, d);
  }

  lemma Step(w: seq<byte>, a: int, b: int)
    requires 0 <= a <= b <= |w|
    ensures w[..b] == w[..a] + w[a..b]
  {
  }

  lemma CheckFits(cfg: Config, bs: seq<byte>)
    requires cfg.Ok()
    ensures 0 <= cfg.Check(bs) < Pow(cfg.ckBytes) && Val(Num(cfg.Check(bs), cfg.ckBytes)) == cfg.Check(bs)
  {
    hide Pow, Config.Sum, Val, Num;
    ValNum(cfg.Check(bs), cfg.ckBytes);
  }

  /** Where the fields of a header stand. */
  lemma HeadParts(cfg: Config, id: int, len: int, typ: int, rest: seq<byte>)
    requires cfg.Ok() && id >= 0 && len >= 0 && typ >= 0
    ensures var w, f := Head(cfg, id, len, typ) + rest, HeadFields(cfg, id, len, typ);
            && w[cfg.SofLen()..cfg.IdEnd()] == Num(id, cfg.idBytes) &&
                w[cfg.IdEnd()..cfg.LenEnd()] == Num(len, cfg.lenBytes)
            && w[cfg.LenEnd()..cfg.TypeEnd()] == Num(typ, cfg.typeBytes) && w[..cfg.TypeEnd()] == f
            && w[cfg.TypeEnd()..cfg.HeadLen()] == Num(cfg.Check(f), cfg.ckBytes)
  {
    var f := HeadFields(cfg, id, len, typ);
    var p, a, b, c, d := Prefix(cfg), Num(id, cfg.idBytes), Num(len, cfg.lenBytes), Num(typ, cfg.typeBytes),
        Num(cfg.Check(f), cfg.ckBytes);
    Parts(p, a, b, c, d, rest);
    hide Val, Num, Pow, Config.Check, Prefix;
    assert Head(cfg, id, len, typ) + rest == p + a + b + c + d + rest;
  }

  lemma HeadOpens(cfg: Config, id: int, len: int, typ: int, rest: seq<byte>)
    requires cfg.Ok() && id >= 0 && len >= 0 && typ >= 0
    ensures Opens(cfg, Head(cfg, id, len, typ) + rest)
  {
    hide Val, Num, Pow, Config.Check;
    assert Head(cfg, id, len, typ)[..cfg.SofLen()] == Prefix(cfg);
  }

  /** The fields read back from a header. */
  lemma HeadReads(cfg: Config, id: int, len: int, typ: int, rest: seq<byte>)
    requires cfg.Ok() && 0 <= id < Pow(cfg.idBytes) && 0 <= len < Pow(cfg.lenBytes) && 0 <= typ < Pow(cfg.typeBytes)
    ensures var w := Head(cfg, id, len, typ) + rest;
            WId(cfg, w) == id && WLen(cfg, w) == len && WType(cfg, w) == typ && HeadOk(cfg, w) && Opens(cfg, w)
  {
    hide Val, Num, Pow, Config.Check, Head, HeadFields, Opens;
    HeadParts(cfg, id, len, typ, rest);
    HeadOpens(cfg, id, len, typ, rest);
    ValNum(id, cfg.idBytes);
    ValNum(len, cfg.lenBytes);
    ValNum(typ, cfg.typeBytes);
    CheckFits(cfg, HeadFields(cfg, id, len, typ));
  }

  lemma JudgedWaiting(cfg: Config, w: seq<byte>)
    requires cfg.Ok() && |w| >= cfg.HeadLen() && HeadOk(cfg, w) && WLen(cfg, w) > 0
    requires |w| < cfg.HeadLen() + WLen(cfg, w) + cfg.ckBytes
    ensures Judge(cfg, w) == Wait
  {
  }

  /** Every shorter beginning of a frame is waited on. */
  lemma PrefixWaits(cfg: Config, m: Msg, i: int)
    requires cfg.Ok() && Fits(cfg, m) && 0 < i < |Frame(cfg, m)|
    ensures Opens(cfg, Frame(cfg, m)[..i]) && Judge(cfg, Frame(cfg, m)[..i]) == Wait
  {
    var hd, bd := Head(cfg, m.id, |m.payload|, m.typ), Body(cfg, m.payload);
    if i < |hd| {
      FrameHead(cfg, m);
      hide Val, Num, Pow, Config.Check, Head, Body, WLen, WId, WType, Config.Bounded;
    } else {
      HeadReads(cfg, m.id, |m.payload|, m.typ, bd[..i - |hd|]);
      assert |bd| > 0;
      hide Val, Num, Pow, Config.Check, Head, WId, WLen, WType, HeadOk, Opens, Config.Bounded, Judge;
      assert (hd + bd)[..i] == hd + bd[..i - |hd|];
      JudgedWaiting(cfg, hd + bd[..i - |hd|]);
    }
  }

  lemma FrameHead(cfg: Config, m: Msg)
    requires cfg.Ok() && Fits(cfg, m)
    ensures var w := Frame(cfg, m);
            WId(cfg, w) == m.id && WLen(cfg, w) == |m.payload| && WType(cfg, w) == m.typ && HeadOk(cfg, w) &&
                Opens(cfg, w)
  {
    hide Val, Num, Pow, Config.Check, Head, HeadFields, WId, WLen, WType, HeadOk, Opens, Body, Config.Bounded;
    HeadReads(cfg, m.id, |m.payload|, m.typ, Body(cfg, m.payload));
  }

  lemma Cut(a: seq<byte>, b: seq<byte>, c: seq<byte>)
    ensures var w := a + (b + c); w[|a|..|a| + |b|] == b && w[|a| + |b|..] == c
  {
  }

  lemma FrameBody(cfg: Config, m: Msg)
    requires cfg.Ok() && Fits(cfg, m) && m.payload != []
    ensures |Frame(cfg, m)| == cfg.HeadLen() + |m.payload| + cfg.ckBytes
    ensures Frame(cfg, m)[cfg.HeadLen()..cfg.HeadLen() + |m.payload|] == m.payload
    ensures Frame(cfg, m)[cfg.HeadLen() + |m.payload|..] == Num(cfg.Check(m.payload), cfg.ckBytes)
  {
    hide Val, Num, Pow, Config.Check, Head, Config.Bounded;
    CheckFits(cfg, m.payload);
    Cut(Head(cfg, m.id, |m.payload|, m.typ), m.payload, Num(cfg.Check(m.payload), cfg.ckBytes));
  }

  /** A whole frame is delivered, unless its payload is too long to store. */
  lemma FrameJudged(cfg: Config, m: Msg)
    requires cfg.Ok() && Fits(cfg, m)
    ensures Opens(cfg, Frame(cfg, m))
    ensures Judge(cfg, Frame(cfg, m)) == if |m.payload| <= cfg.maxPayload then Deliver(m) else Drop
  {
    FrameHead(cfg, m);
    assert m.payload == [] ==> |Frame(cfg, m)| == cfg.HeadLen();
    hide Frame, Val, Num, Pow, Config.Check, WId, WLen, WType, HeadOk, Opens, Judge, Config.Bounded, Fits;
    if m.payload != [] {
      FrameBody(cfg, m);
      CheckFits(cfg, m.payload);
    }
    JudgedWhole(cfg, Frame(cfg, m), m);
  }

  lemma JudgedWhole(cfg: Config, w: seq<byte>, m: Msg)
    requires cfg.Ok() && |w| >= cfg.HeadLen() && HeadOk(cfg, w)
    requires m.id == WId(cfg, w) && m.typ == WType(cfg, w) && |m.payload| == WLen(cfg, w)
    requires var h, n := cfg.HeadLen(), |m.payload|;
             if n == 0 then |w| == h
             else |w| == h + n + cfg.ckBytes && w[h..h + n] == m.payload && Val(w[h + n..]) == cfg.Check(m.payload)
    ensures Judge(cfg, w) == if |m.payload| <= cfg.maxPayload then Deliver(m) else Drop
  {
    hide Val, Pow, Config.Check, WId, WLen, WType, HeadOk;
  }

  lemma PrefixIs(cfg: Config, w: seq<byte>)
    requires cfg.Ok() && Opens(cfg, w)
    ensures w[..cfg.SofLen()] == Prefix(cfg)
  {
  }

  lemma HeadIs(cfg: Config, w: seq<byte>)
    requires cfg.Ok() && Opens(cfg, w) && |w| >= cfg.HeadLen() && HeadOk(cfg, w)
    ensures WId(cfg, w) < Pow(cfg.idBytes) && WLen(cfg, w) < Pow(cfg.lenBytes) && WType(cfg, w) < Pow(cfg.typeBytes)
    ensures w[..cfg.HeadLen()] == Head(cfg, WId(cfg, w), WLen(cfg, w), WType(cfg, w))
  {
    hide Val, Num, Pow, Config.Sum, Opens, Prefix;
    var s, a, b, c, d := cfg.SofLen(), cfg.IdEnd(), cfg.LenEnd(), cfg.TypeEnd(), cfg.HeadLen();
    PrefixIs(cfg, w);
    NumVal(w[s..a]);
    NumVal(w[a..b]);
    NumVal(w[b..c]);
    NumVal(w[c..d]);
    Joined(w, s, a, b, c, d);
  }

  /** The two ways to deliver: a header without payload, or a payload with its own checksum. */
  lemma DeliveredParts(cfg: Config, w: seq<byte>, m: Msg)
    requires cfg.Ok() && Judge(cfg, w) == Deliver(m)
    ensures |w| >= cfg.HeadLen() && HeadOk(cfg, w) && m.id == WId(cfg, w) && m.typ == WType(cfg, w)
    ensures |m.payload| == WLen(cfg, w) && |m.payload| <= cfg.maxPayload
    ensures if |w| == cfg.HeadLen() then m.payload == []
            else var h, n := cfg.HeadLen(), |m.payload|;
                 |w| == h + n + cfg.ckBytes && m.payload == w[h..h + n] && Val(w[h + n..]) == cfg.Check(m.payload)
    ensures |w| > cfg.HeadLen() ==> m.payload != []
  {
    hide Val, Pow, Config.Check;
  }

  /** What is delivered is a frame, byte for byte the one the composer makes of the message. */
  lemma DeliveredIsFrame(cfg: Config, w: seq<byte>, m: Msg)
    requires cfg.Ok() && Opens(cfg, w) && Judge(cfg, w) == Deliver(m)
    ensures Fits(cfg, m) && |m.payload| <= cfg.maxPayload && w == Frame(cfg, m)
  {
    hide Val, Num, Pow, Config.Check, Head, WId, WLen, WType, HeadOk, Opens, Judge, Body;
    DeliveredParts(cfg, w, m);
    HeadIs(cfg, w);
    BodyIs(cfg, w, cfg.HeadLen(), m.payload);
  }

  lemma BodyIs(cfg: Config, w: seq<byte>, h: int, data: seq<byte>)
    requires cfg.Ok() && 0 <= h <= |w|
    requires if |w| == h then data == []
             else && data != [] && |w| == h + |data| + cfg.ckBytes
                  && data == w[h..h + |data|] && Val(w[h + |data|..]) == cfg.Check(data)
    ensures w == w[..h] + Body(cfg, data)
  {
    hide Val, Num, Pow, Config.Check;
    if |w| > h {
      NumVal(w[h + |data|..]);
      assert w == w[..h] + (data + w[h + |data|..]);
    }
  }

  // ---------- runs

  datatype Event = Byte(c: byte) | Tick

  /** window: the bytes since the current frame began; seen: all input; ends[j]: how much was seen when got[j] came. */
  datatype Link = Link(window: seq<byte>, ticks: nat, seen: seq<byte>, got: seq<Msg>, ends: seq<nat>)

  ghost function Take(cfg: Config, k: Link, c: byte): Link
    requires cfg.Ok()
  {
    var w := if k.ticks >= cfg.timeoutTicks then [] else k.window;
    var seen := k.seen + [c];
    if w == [] && cfg.useSof && c != cfg.sof then Link([], 0, seen, k.got, k.ends)
    else match Judge(cfg, w + [c])
      case Wait => Link(w + [c], 0, seen, k.got, k.ends)
      case Deliver(m) => Link([], 0, seen, k.got + [m], k.ends + [|seen|])
      case Drop => Link([], 0, seen, k.got, k.ends)
  }

  ghost function Next(cfg: Config, k: Link, e: Event): Link
    requires cfg.Ok()
  {
    match e
    case Byte(c) => Take(cfg, k, c)
    case Tick => if k.ticks < cfg.timeoutTicks then k.(ticks := k.ticks + 1) else k
  }

  ghost function Run(cfg: Config, k: Link, es: seq<Event>): Link
    requires cfg.Ok()
    decreases |es|
  {
    if es == [] then k else Run(cfg, Next(cfg, k, es[0]), es[1..])
  }

  const IDLE := Link([], 0, [], [], [])

  /** The j-th message delivered is a stretch of the input, after the one before it. */
  ghost predicate Segment(cfg: Config, k: Link, j: int)
    requires cfg.Ok() && |k.got| == |k.ends| && 0 <= j < |k.got|
  {
    && Fits(cfg, k.got[j]) && |k.got[j].payload| <= cfg.maxPayload
    && var f := Frame(cfg, k.got[j]);
       && (if j == 0 then 0 else k.ends[j - 1]) + |f| <= k.ends[j] <= |k.seen|
       && k.seen[k.ends[j] - |f|..k.ends[j]] == f
  }

  ghost predicate Sound(cfg: Config, k: Link)
    requires cfg.Ok()
  {
    && |k.got| == |k.ends| && |k.window| <= |k.seen| && k.seen[|k.seen| - |k.window|..] == k.window
    && (k.window != [] ==> Opens(cfg, k.window))
    && (forall j {:trigger Segment(cfg, k, j)} :: 0 <= j < |k.got| ==> Segment(cfg, k, j))
    && (k.got != [] ==> k.ends[|k.ends| - 1] <= |k.seen| - |k.window|)
  }

  lemma SegmentKept(cfg: Config, k: Link, c: byte, j: int)
    requires cfg.Ok() && Sound(cfg, k) && 0 <= j < |k.got|
    ensures var k' := Take(cfg, k, c);
            |k'.got| == |k'.ends| && |k'.got| >= |k.got| && k'.got[j] == k.got[j] && Segment(cfg, k', j)
  {
    hide Judge, Frame, Fits, Config.Ok, Opens;
    assert Segment(cfg, k, j);
    var f := Frame(cfg, k.got[j]);
    assert (k.seen + [c])[k.ends[j] - |f|..k.ends[j]] == k.seen[k.ends[j] - |f|..k.ends[j]];
  }

  /** The window a byte is judged in. */
  ghost function Before(cfg: Config, k: Link): seq<byte> {
    if k.ticks >= cfg.timeoutTicks then [] else k.window
  }

  lemma WindowEnds(cfg: Config, k: Link, c: byte)
    requires cfg.Ok() && Sound(cfg, k)
    ensures var w, seen := Before(cfg, k) + [c], k.seen + [c];
            |w| <= |seen| && seen[|seen| - |w|..] == w && seen[|seen| - |w|..|seen|] == w
    ensures !(Before(cfg, k) == [] && cfg.useSof && c != cfg.sof) ==> Opens(cfg, Before(cfg, k) + [c])
  {
    hide Segment;
  }

  lemma NewSegment(cfg: Config, k: Link, c: byte)
    requires cfg.Ok() && Sound(cfg, k) && !(Before(cfg, k) == [] && cfg.useSof && c != cfg.sof)
    requires Judge(cfg, Before(cfg, k) + [c]).Deliver?
    ensures var k' := Take(cfg, k, c); |k'.got| == |k'.ends| == |k.got| + 1 && Segment(cfg, k', |k.got|)
  {
    hide Judge, Frame, Opens, Fits, Segment, Config.Ok;
    var w := Before(cfg, k) + [c];
    var m := Judge(cfg, w).msg;
    WindowEnds(cfg, k, c);
    DeliveredIsFrame(cfg, w, m);
    SegmentIs(cfg, Take(cfg, k, c), w, m);
  }

  lemma SegmentIs(cfg: Config, k: Link, w: seq<byte>, m: Msg)
    requires cfg.Ok() && Fits(cfg, m) && w == Frame(cfg, m) && |m.payload| <= cfg.maxPayload
    requires |k.got| == |k.ends| > 0 && k.got[|k.got| - 1] == m && k.ends[|k.got| - 1] == |k.seen| >= |w|
    requires k.seen[|k.seen| - |w|..|k.seen|] == w && (|k.got| > 1 ==> k.ends[|k.got| - 2] + |w| <= |k.seen|)
    ensures Segment(cfg, k, |k.got| - 1)
  {
    hide Frame, Fits, Config.Ok;
  }

  lemma TakeSound(cfg: Config, k: Link, c: byte)
    requires cfg.Ok() && Sound(cfg, k)
    ensures Sound(cfg, Take(cfg, k, c))
  {
    hide Judge, Frame, Opens, Fits, Segment;
    var k' := Take(cfg, k, c);
    var w := Before(cfg, k);
    WindowEnds(cfg, k, c);
    if !(w == [] && cfg.useSof && c != cfg.sof) && Judge(cfg, w + [c]).Deliver? { NewSegment(cfg, k, c); }
    forall j | 0 <= j < |k'.got|
      ensures Segment(cfg, k', j)
    {
      if j < |k.got| { SegmentKept(cfg, k, c, j); }
    }
  }

  /** Over every byte stream and tick pattern, each message delivered is a stretch of the input equal to its frame. */
  lemma {:induction false} RunSound(cfg: Config, k: Link, es: seq<Event>)
    requires cfg.Ok() && Sound(cfg, k)
    ensures Sound(cfg, Run(cfg, k, es))
    decreases |es|
  {
    if es != [] {
      match es[0] {
        case Byte(c) => TakeSound(cfg, k, c);
        case Tick =>
          forall j | 0 <= j < |k.got|
            ensures Segment(cfg, Next(cfg, k, Tick), j)
          {
            assert Segment(cfg, k, j);
          }
      }
      hide Sound, Next;
      RunSound(cfg, Next(cfg, k, es[0]), es[1..]);
    }
  }

  /** The bytes among the events. */
  function Bytes(es: seq<Event>): seq<byte> {
    if es == [] then [] else (if es[0].Byte? then [es[0].c] else []) + Bytes(es[1..])
  }

  lemma {:induction false} BytesSnoc(es: seq<Event>, e: Event)
    ensures Bytes(es + [e]) == Bytes(es) + if e.Byte? then [e.c] else []
    decreases |es|
  {
    var d := if e.Byte? then [e.c] else [];
    if es == [] {
      assert es + [e] == [e] && [e][1..] == [];
      assert Bytes([e]) == d + [];
    } else {
      assert (es + [e])[1..] == es[1..] + [e];
      BytesSnoc(es[1..], e);
      var b := if es[0].Byte? then [es[0].c] else [];
      assert b + (Bytes(es[1..]) + d) == b + Bytes(es[1..]) + d;
    }
  }

  /** Once a frame has begun no byte of it comes late; t ticks have passed since the last one. */
  ghost predicate Prompt(cfg: Config, begun: bool, t: nat, es: seq<Event>)
    decreases |es|
  {
    if es == [] then true
    else match es[0]
      case Byte(_) => (begun ==> t < cfg.timeoutTicks) && Prompt(cfg, true, 0, es[1..])
      case Tick => Prompt(cfg, begun, if t < cfg.timeoutTicks then t + 1 else t, es[1..])
  }

  /** The next byte of a frame. */
  lemma FrameByte(cfg: Config, k: Link, m: Msg, i: int)
    requires cfg.Ok() && Fits(cfg, m) && 0 <= i < |Frame(cfg, m)| && Before(cfg, k) == Frame(cfg, m)[..i]
    ensures var f, r := Frame(cfg, m), Take(cfg, k, Frame(cfg, m)[i]);
            && r.ticks == 0 && r.seen == k.seen + [f[i]] && r.window == (if i + 1 < |f| then f[..i + 1] else [])
            && r.got == k.got + if i + 1 == |f| && |m.payload| <= cfg.maxPayload then [m] else []
  {
    hide Judge, Frame, Fits, Config.Ok;
    var f := Frame(cfg, m);
    var w := Before(cfg, k);
    assert w == f[..i] && w + [f[i]] == f[..i + 1];
    if i + 1 < |f| {
      PrefixWaits(cfg, m, i + 1);
    } else {
      assert f[..i + 1] == f;
      FrameJudged(cfg, m);
    }
    assert !(w == [] && cfg.useSof && f[i] != cfg.sof);
  }

  lemma BytesStep(es: seq<Event>, f: seq<byte>, i: int)
    requires 0 <= i < |f| && Bytes(es) == f[i..]
    ensures es != [] && (es[0].Tick? ==> Bytes(es[1..]) == f[i..])
    ensures es[0].Byte? ==> es[0].c == f[i] && Bytes(es[1..]) == f[i + 1..]
  {
    if es[0].Byte? { assert Bytes(es[1..]) == Bytes(es)[1..]; }
  }

  /** The rest of a frame, the first i bytes of which are already in the window. */
  lemma {:induction false} RestOfFrame(cfg: Config, k: Link, m: Msg, i: int, es: seq<Event>)
    requires cfg.Ok() && Fits(cfg, m) && 0 <= i < |Frame(cfg, m)|
    requires if i == 0 then Before(cfg, k) == [] else k.window == Frame(cfg, m)[..i]
    requires Bytes(es) == Frame(cfg, m)[i..] && Prompt(cfg, i > 0, k.ticks, es)
    ensures var r := Run(cfg, k, es);
            r.window == [] && r.got == k.got + if |m.payload| <= cfg.maxPayload then [m] else []
    decreases |es|
  {
    hide Frame, Take, Judge, Fits, Bytes, Config.Ok;
    var f := Frame(cfg, m);
    BytesStep(es, f, i);
    match es[0] {
      case Tick => RestOfFrame(cfg, Next(cfg, k, Tick), m, i, es[1..]);
      case Byte(c) =>
        FrameByte(cfg, k, m, i);
        if i + 1 < |f| {
          RestOfFrame(cfg, Take(cfg, k, c), m, i + 1, es[1..]);
        } else {
          Silence(cfg, Take(cfg, k, c), es[1..]);
        }
    }
  }

  /** Ticks alone deliver nothing and keep an idle receiver idle. */
  lemma {:induction false} Silence(cfg: Config, k: Link, es: seq<Event>)
    requires cfg.Ok() && Bytes(es) == [] && k.window == []
    ensures var r := Run(cfg, k, es); r.window == [] && r.seen == k.seen && r.got == k.got
    decreases |es|
  {
    if es != [] { Silence(cfg, Next(cfg, k, es[0]), es[1..]); }
  }

  /**
  A frame that begins when the receiver is idle, or after a timeout whatever it was left in, and then comes without one,
  is delivered exactly once, with its id, type and payload; one too long to store is taken in to exactly its last byte
  and not delivered. Either way the receiver is idle again.
  */
  lemma FrameArrives(cfg: Config, k: Link, m: Msg, es: seq<Event>)
    requires cfg.Ok() && Fits(cfg, m) && Before(cfg, k) == []
    requires Bytes(es) == Frame(cfg, m) && Prompt(cfg, false, k.ticks, es)
    ensures var r := Run(cfg, k, es);
            r.window == [] && r.got == k.got + if |m.payload| <= cfg.maxPayload then [m] else []
  {
    assert Frame(cfg, m)[..0] == [] && Frame(cfg, m)[0..] == Frame(cfg, m);
    RestOfFrame(cfg, k, m, 0, es);
  }

  /** Ticks enough end whatever the receiver was in the middle of. */
  lemma {:induction false} Quiet(cfg: Config, k: Link, es: seq<Event>)
    requires cfg.Ok() && k.ticks <= cfg.timeoutTicks && Bytes(es) == []
    ensures var r := Run(cfg, k, es);
            r == k.(ticks := r.ticks) && r.ticks == if k.ticks + |es| < cfg.timeoutTicks then k.ticks + |es|
                                                    else cfg.timeoutTicks
    decreases |es|
  {
    if es != [] { Quiet(cfg, Next(cfg, k, es[0]), es[1..]); }
  }

  /** After any input, and then silence for the timeout, a frame arrives as if nothing had come before it. */
  lemma Resync(cfg: Config, k: Link, noise: seq<Event>, quiet: seq<Event>, m: Msg, es: seq<Event>)
    requires cfg.Ok() && k.ticks <= cfg.timeoutTicks && Fits(cfg, m)
    requires Bytes(quiet) == [] && |quiet| >= cfg.timeoutTicks
    requires Bytes(es) == Frame(cfg, m) && Prompt(cfg, false, cfg.timeoutTicks, es)
    ensures var r := Run(cfg, k, noise + quiet + es);
            && r.window == []
            && r.got == Run(cfg, k, noise).got + if |m.payload| <= cfg.maxPayload then [m] else []
  {
    hide Run, Frame, Fits, Bytes, Config.Ok, Prompt;
    var r := Run(cfg, k, noise);
    RunTicks(cfg, k, noise);
    Quiet(cfg, r, quiet);
    RunOn(cfg, k, noise, quiet);
    RunOn(cfg, k, noise + quiet, es);
    FrameArrives(cfg, Run(cfg, r, quiet), m, es);
  }

  lemma {:induction false} RunTicks(cfg: Config, k: Link, es: seq<Event>)
    requires cfg.Ok() && k.ticks <= cfg.timeoutTicks
    ensures Run(cfg, k, es).ticks <= cfg.timeoutTicks
    decreases |es|
  {
    hide Judge, Config.Ok;
    if es != [] { RunTicks(cfg, Next(cfg, k, es[0]), es[1..]); }
  }

  /** A run goes on where the one before it has ended. */
  lemma {:induction false} RunOn(cfg: Config, k: Link, a: seq<Event>, b: seq<Event>)
    requires cfg.Ok()
    ensures Run(cfg, k, a + b) == Run(cfg, Run(cfg, k, a), b)
    decreases |a|
  {
    hide Next, Config.Ok;
    if a == [] {
      assert a + b == b;
    } else {
      assert (a + b)[1..] == a[1..] + b;
      RunOn(cfg, Next(cfg, k, a[0]), a[1..], b);
    }
  }

  // ---------- bytes handed over in pieces

  function AsEvents(bs: seq<byte>): (es: seq<Event>)
    ensures |es| == |bs|
  {
    seq(|bs|, i requires 0 <= i < |bs| => Byte(bs[i]))
  }

  lemma {:induction false} BytesOf(bs: seq<byte>)
    ensures Bytes(AsEvents(bs)) == bs
  {
    if bs != [] {
      BytesOf(bs[1..]);
      assert AsEvents(bs)[1..] == AsEvents(bs[1..]);
    }
  }

  /** Bytes with no ticks between them are never late. */
  lemma {:induction false} PromptBytes(cfg: Config, begun: bool, t: nat, bs: seq<byte>)
    requires cfg.Ok() && (begun ==> t < cfg.timeoutTicks)
    ensures Prompt(cfg, begun, t, AsEvents(bs))
    decreases |bs|
  {
    if bs != [] {
      PromptBytes(cfg, true, 0, bs[1..]);
      assert AsEvents(bs)[1..] == AsEvents(bs[1..]);
    }
  }

  /** One more event at the end. */
  lemma {:induction false} RunEvent(cfg: Config, k: Link, es: seq<Event>, e: Event)
    requires cfg.Ok()
    ensures Run(cfg, k, es + [e]) == Next(cfg, Run(cfg, k, es), e)
    decreases |es|
  {
    hide Next, Config.Ok;
    if es == [] {
      assert es + [e] == [e] && [e][1..] == [];
    } else {
      assert (es + [e])[1..] == es[1..] + [e];
      RunEvent(cfg, Next(cfg, k, es[0]), es[1..], e);
    }
  }

  /** One more byte at the end. */
  lemma RunSnoc(cfg: Config, k: Link, bs: seq<byte>, c: byte)
    requires cfg.Ok()
    ensures Run(cfg, k, AsEvents(bs + [c])) == Take(cfg, Run(cfg, k, AsEvents(bs)), c)
  {
    hide Take, Run, Config.Ok;
    assert AsEvents(bs + [c]) == AsEvents(bs) + [Byte(c)];
    RunEvent(cfg, k, AsEvents(bs), Byte(c));
  }

  /** What a run has seen is the bytes among its events. */
  lemma {:induction false} RunSeen(cfg: Config, k: Link, es: seq<Event>)
    requires cfg.Ok()
    ensures Run(cfg, k, es).seen == k.seen + Bytes(es)
    decreases |es|
  {
    hide Judge, Config.Ok;
    if es != [] { RunSeen(cfg, Next(cfg, k, es[0]), es[1..]); }
  }

  /** A frame's bytes with no ticks between them. */
  lemma FrameDelivered(cfg: Config, k: Link, m: Msg)
    requires cfg.Ok() && Fits(cfg, m) && Before(cfg, k) == []
    ensures var r := Run(cfg, k, AsEvents(Frame(cfg, m)));
            r.window == [] && r.got == k.got + if |m.payload| <= cfg.maxPayload then [m] else []
  {
    BytesOf(Frame(cfg, m));
    PromptBytes(cfg, false, k.ticks, Frame(cfg, m));
    FrameArrives(cfg, k, m, AsEvents(Frame(cfg, m)));
  }

  lemma RunJoined(cfg: Config, k: Link, a: seq<byte>, b: seq<byte>)
    requires cfg.Ok()
    ensures Run(cfg, k, AsEvents(a + b)) == Run(cfg, Run(cfg, k, AsEvents(a)), AsEvents(b))
  {
    hide Run, Config.Ok;
    assert AsEvents(a + b) == AsEvents(a) + AsEvents(b);
    RunOn(cfg, k, AsEvents(a), AsEvents(b));
  }

  /** The bytes of a frame, or of two if the message is empty. */
  lemma PartsArrive(cfg: Config, k: Link, m: Msg)
    requires cfg.Ok() && Fits(cfg, m) && Before(cfg, k) == []
    ensures var f := Frame(cfg, m);
            var r := Run(cfg, k, AsEvents(f + if m.payload == [] then f else []));
            && r.window == [] && r.got == k.got + if |m.payload| > cfg.maxPayload then []
                                                  else if m.payload == [] then [m, m] else [m]
  {
    hide Run, Frame, Fits, Config.Ok;
    var f := Frame(cfg, m);
    FrameDelivered(cfg, k, m);
    if m.payload == [] {
      RunJoined(cfg, k, f, f);
      FrameDelivered(cfg, Run(cfg, k, AsEvents(f)), m);
      assert k.got + [m] + [m] == k.got + [m, m];
    } else {
      assert f + [] == f;
    }
  }

  // ---------- what is not a frame

  /** Bytes none of which starts a frame leave an idle receiver idle, with ticks among them or not. */
  lemma {:induction false} Noise(cfg: Config, k: Link, es: seq<Event>)
    requires cfg.Ok() && cfg.useSof && k.window == [] && forall i :: 0 <= i < |es| && es[i].Byte? ==> es[i].c != cfg.sof
    ensures var r := Run(cfg, k, es); r.window == [] && r.got == k.got
    decreases |es|
  {
    hide Judge, Config.Ok;
    if es != [] { Noise(cfg, Next(cfg, k, es[0]), es[1..]); }
  }

  /** Bytes that are waited on up to the last one, and judged with it. */
  lemma {:induction false} Windowed(cfg: Config, k: Link, w: seq<byte>)
    requires cfg.Ok() && Before(cfg, k) == [] && Opens(cfg, w)
    requires forall i :: 0 < i < |w| ==> Judge(cfg, w[..i]) == Wait
    ensures var r := Run(cfg, k, AsEvents(w));
            && r.ticks == 0 && r.window == (if Judge(cfg, w) == Wait then w else [])
            && r.got == k.got + if Judge(cfg, w).Deliver? then [Judge(cfg, w).msg] else []
    decreases |w|
  {
    hide Judge, Run, Config.Ok;
    var m := |w| - 1;
    assert w == w[..m] + [w[m]];
    RunSnoc(cfg, k, w[..m], w[m]);
    if m > 0 {
      assert forall i :: 0 < i < m ==> w[..m][..i] == w[..i];
      Windowed(cfg, k, w[..m]);
      Waited(cfg);
    } else {
      assert AsEvents(w[..0]) == [];
      RunEmpty(cfg, k);
    }
  }

  lemma RunEmpty(cfg: Config, k: Link)
    requires cfg.Ok()
    ensures Run(cfg, k, []) == k
  {
  }

  lemma Waited(cfg: Config)
    requires cfg.Ok()
    ensures cfg.timeoutTicks > 0
  {
  }

  /** A header with a wrong checksum is given up with its last byte; the receiver is idle and hands nothing over. */
  lemma BadHead(cfg: Config, k: Link, w: seq<byte>)
    requires cfg.Ok() && Before(cfg, k) == [] && Opens(cfg, w) && |w| == cfg.HeadLen() && !HeadOk(cfg, w)
    ensures var r := Run(cfg, k, AsEvents(w)); r.window == [] && r.got == k.got
  {
    hide Run, HeadOk, Opens;
    Windowed(cfg, k, w);
  }

  /** So is a payload with a wrong checksum, however long it is. */
  lemma BadBody(cfg: Config, k: Link, w: seq<byte>)
    requires cfg.Ok() && Before(cfg, k) == [] && Opens(cfg, w) && |w| >= cfg.HeadLen() && HeadOk(cfg, w)
    requires var h, n := cfg.HeadLen(), WLen(cfg, w);
             n > 0 && |w| == h + n + cfg.ckBytes && Val(w[h + n..]) != cfg.Check(w[h..h + n])
    ensures var r := Run(cfg, k, AsEvents(w)); r.window == [] && r.got == k.got
  {
    forall i | 0 < i < |w|
      ensures Judge(cfg, w[..i]) == Wait
    {
      BodyWaits(cfg, w, i);
    }
    hide Run, Opens, HeadOk, WLen, Val, Pow, Config.Check;
    Windowed(cfg, k, w);
  }

  lemma BodyWaits(cfg: Config, w: seq<byte>, i: int)
    requires cfg.Ok() && |w| >= cfg.HeadLen() && HeadOk(cfg, w) && WLen(cfg, w) > 0
    requires 0 < i < |w| == cfg.HeadLen() + WLen(cfg, w) + cfg.ckBytes
    ensures Judge(cfg, w[..i]) == Wait
  {
    hide Val, Pow, Config.Check;
    if i >= cfg.HeadLen() {
      assert w[..i][cfg.IdEnd()..cfg.LenEnd()] == w[cfg.IdEnd()..cfg.LenEnd()];
      assert w[..i][cfg.TypeEnd()..cfg.HeadLen()] == w[cfg.TypeEnd()..cfg.HeadLen()];
      assert w[..i][..cfg.TypeEnd()] == w[..cfg.TypeEnd()];
      JudgedWaiting(cfg, w[..i]);
    }
  }
}
