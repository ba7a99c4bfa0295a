/**
The parser's registers and what they hold of the window: each arm of the byte-at-a-time state machine does to the
registers what taking the byte into the window asks for.
*/
module TfParser {
  import opened Octets
  import opened TfFormat
  import opened TfLink

  datatype State = SOF | ID | LEN | TYPE | HEAD_CKSUM | DATA | DATA_CKSUM

  datatype Regs = Regs(state: State, id: int, len: int, typ: int, rxi: int, cksum: int, ref: int, discard: bool)

  function Stage(s: State): int {
    match s
    case SOF => 0 case ID => 1 case LEN => 2 case TYPE => 3 case HEAD_CKSUM => 4 case DATA => 5 case DATA_CKSUM => 6
  }

  predicate InRange(cfg: Config, r: Regs) {
    && 0 <= r.id < Pow(cfg.idBytes) && 0 <= r.len < Pow(cfg.lenBytes) && 0 <= r.typ < Pow(cfg.typeBytes)
    && 0 <= r.ref < Pow(cfg.ckBytes)
  }

  /** The fields already complete are the ones in the window. */
  ghost predicate Fields(cfg: Config, r: Regs, w: seq<byte>)
    requires cfg.Ok()
  {
    && (Stage(r.state) >= 2 ==> |w| >= cfg.IdEnd() && r.id == WId(cfg, w))
    && (Stage(r.state) >= 3 ==> |w| >= cfg.LenEnd() && r.len == WLen(cfg, w))
    && (Stage(r.state) >= 4 ==> |w| >= cfg.TypeEnd() && r.typ == WType(cfg, w))
    && (Stage(r.state) >= 5 ==>
        |w| >= cfg.HeadLen() && HeadOk(cfg, w) && r.len > 0 && r.discard == (r.len > cfg.maxPayload))
  }

  /** A field of k bytes that starts at from: rxi bytes of it have been collected into dest. */
  ghost predicate Collecting(w: seq<byte>, from: int, rxi: int, k: int, dest: int) {
    0 <= from && 0 <= rxi < k && |w| == from + rxi && dest % Pow(rxi) == Val(w[from..])
  }

  /** The rest of the registers: the field being collected, the running checksum, the stored payload. */
  ghost predicate Progress(cfg: Config, r: Regs, buf: seq<byte>, w: seq<byte>)
    requires cfg.Ok()
  {
    var h := cfg.HeadLen();
    match r.state
    case SOF => w == []
    case ID => Collecting(w, cfg.SofLen(), r.rxi, cfg.idBytes, r.id) && r.cksum == cfg.Sum(w)
    case LEN => Collecting(w, cfg.IdEnd(), r.rxi, cfg.lenBytes, r.len) && r.cksum == cfg.Sum(w)
    case TYPE => Collecting(w, cfg.LenEnd(), r.rxi, cfg.typeBytes, r.typ) && r.cksum == cfg.Sum(w)
    case HEAD_CKSUM =>
      Collecting(w, cfg.TypeEnd(), r.rxi, cfg.ckBytes, r.ref) && r.cksum == cfg.Sum(w[..cfg.TypeEnd()])
    case DATA => 0 <= r.rxi < r.len && |w| == h + r.rxi && (!r.discard ==> Stored(cfg, r, buf, w[h..]))
    case DATA_CKSUM =>
      && r.len >= 0 && Collecting(w, h + r.len, r.rxi, cfg.ckBytes, r.ref)
      && (!r.discard ==> Stored(cfg, r, buf, w[h..h + r.len]))
  }

  ghost predicate Stored(cfg: Config, r: Regs, buf: seq<byte>, d: seq<byte>) {
    |d| <= |buf| && buf[..|d|] == d && r.cksum == cfg.Sum(d)
  }

  ghost predicate Tied(cfg: Config, r: Regs, buf: seq<byte>, w: seq<byte>)
    requires cfg.Ok()
  {
    && |buf| == cfg.maxPayload && InRange(cfg, r) && Fields(cfg, r, w) && Progress(cfg, r, buf, w)
    && (w != [] ==> Opens(cfg, w)) && (1 <= Stage(r.state) <= 4 ==> !r.discard)
  }

  /** COLLECT_NUMBER: the value of dest after one more byte. */
  function Shifted(dest: int, c: byte, k: int): (n: int)
    ensures 0 <= n < Pow(k)
  {
    (dest * 256 + c) % Pow(k)
  }

  lemma Collected(w: seq<byte>, from: int, rxi: int, k: int, dest: int, c: byte)
    requires Collecting(w, from, rxi, k, dest) && k <= 4 && dest >= 0
    ensures Shifted(dest, c, k) % Pow(rxi + 1) == Val((w + [c])[from..])
    ensures rxi + 1 == k ==> Shifted(dest, c, k) == Val((w + [c])[from..])
    ensures rxi + 1 < k ==> Collecting(w + [c], from, rxi + 1, k, Shifted(dest, c, k))
  {
    hide Pow, Val;
    Collect(dest, w[from..], c, k);
    assert (w + [c])[from..] == w[from..] + [c];
    Whole(dest * 256 + c, k);
  }

  lemma Whole(x: int, k: int)
    ensures x % Pow(k) % Pow(k) == x % Pow(k)
  {
    ModTwice(x, Pow(k));
  }

  /** Before the header is complete a byte is only added to the window. */
  lemma HeadWaits(cfg: Config, k: Link, c: byte)
    requires cfg.Ok() && k.ticks == 0 && |k.window| + 1 < cfg.HeadLen() && (k.window == [] ==> !cfg.useSof)
    requires k.window != [] ==> Opens(cfg, k.window)
    ensures Take(cfg, k, c) == Link(k.window + [c], 0, k.seen + [c], k.got, k.ends) && Opens(cfg, k.window + [c])
  {
    hide Val, Pow, Config.Sum;
  }

  /** Fields that are complete stay what they are as the window grows. */
  lemma Grown(cfg: Config, r: Regs, w: seq<byte>, c: byte)
    requires cfg.Ok() && Fields(cfg, r, w)
    ensures Fields(cfg, r, w + [c])
  {
    hide Val, Pow, Config.Sum;
    if Stage(r.state) >= 2 { assert (w + [c])[cfg.SofLen()..cfg.IdEnd()] == w[cfg.SofLen()..cfg.IdEnd()]; }
    if Stage(r.state) >= 3 { assert (w + [c])[cfg.IdEnd()..cfg.LenEnd()] == w[cfg.IdEnd()..cfg.LenEnd()]; }
    if Stage(r.state) >= 4 { assert (w + [c])[cfg.LenEnd()..cfg.TypeEnd()] == w[cfg.LenEnd()..cfg.TypeEnd()]; }
    if Stage(r.state) >= 5 {
      assert (w + [c])[cfg.TypeEnd()..cfg.HeadLen()] == w[cfg.TypeEnd()..cfg.HeadLen()];
      assert (w + [c])[..cfg.TypeEnd()] == w[..cfg.TypeEnd()];
    }
  }

  /** From one field to the next. */
  function Advance(r: Regs, k: int, next: State): Regs {
    if r.rxi + 1 == k then r.(rxi := 0, state := next) else r.(rxi := r.rxi + 1)
  }

  function StepId(cfg: Config, r: Regs, c: byte): Regs {
    Advance(r.(cksum := cfg.add(r.cksum, c), id := Shifted(r.id, c, cfg.idBytes)), cfg.idBytes, LEN)
  }

  function StepLen(cfg: Config, r: Regs, c: byte): Regs {
    Advance(r.(cksum := cfg.add(r.cksum, c), len := Shifted(r.len, c, cfg.lenBytes)), cfg.lenBytes, TYPE)
  }

  function StepType(cfg: Config, r: Regs, c: byte): Regs {
    var s := Advance(r.(cksum := cfg.add(r.cksum, c), typ := Shifted(r.typ, c, cfg.typeBytes)), cfg.typeBytes,
                     HEAD_CKSUM);
    if s.state == HEAD_CKSUM then s.(ref := 0) else s
  }

  lemma Fresh(w: seq<byte>, dest: int, k: int)
    requires k > 0
    ensures Collecting(w, |w|, 0, k, dest)
  {
  }

  lemma RangeZero(cfg: Config)
    requires cfg.Ok()
    ensures 0 < Pow(cfg.ckBytes)
  {
  }

  lemma Early(cfg: Config, r: Regs, buf: seq<byte>, w: seq<byte>)
    requires cfg.Ok() && Tied(cfg, r, buf, w) && 1 <= Stage(r.state) <= 3
    ensures |w| + 1 < cfg.HeadLen() && (r.state != ID ==> w != [])
  {
    hide Pow, Val, Config.Sum, Opens, Fields;
  }

  lemma StepIdFields(cfg: Config, r: Regs, buf: seq<byte>, w: seq<byte>, c: byte)
    requires cfg.Ok() && Tied(cfg, r, buf, w) && r.state == ID
    ensures Fields(cfg, StepId(cfg, r, c), w + [c]) && InRange(cfg, StepId(cfg, r, c))
  {
    hide Pow, Val, Config.Sum, Shifted, Opens, Config.Bounded;
    Collected(w, cfg.SofLen(), r.rxi, cfg.idBytes, r.id, c);
    Grown(cfg, r, w, c);
    if r.rxi + 1 == cfg.idBytes { assert (w + [c])[cfg.SofLen()..] == (w + [c])[cfg.SofLen()..cfg.IdEnd()]; }
    RangeZero(cfg);
  }

  lemma StepIdProgress(cfg: Config, r: Regs, buf: seq<byte>, w: seq<byte>, c: byte)
    requires cfg.Ok() && Tied(cfg, r, buf, w) && r.state == ID
    ensures Progress(cfg, StepId(cfg, r, c), buf, w + [c])
  {
    hide Pow, Val, Config.Sum, Shifted, Opens, Config.Bounded, Fields;
    Collected(w, cfg.SofLen(), r.rxi, cfg.idBytes, r.id, c);
    SumSnoc(cfg, w, c);
    Fresh(w + [c], StepId(cfg, r, c).len, cfg.lenBytes);
    hide Collecting;
    assert (w + [c])[..|w| + 1] == w + [c];
  }

  lemma StepIdTied(cfg: Config, r: Regs, buf: seq<byte>, k: Link, c: byte)
    requires cfg.Ok() && Tied(cfg, r, buf, k.window)
    requires r.state == ID && k.ticks == 0 && (k.window == [] ==> !cfg.useSof)
    ensures Take(cfg, k, c) == Link(k.window + [c], 0, k.seen + [c], k.got, k.ends)
    ensures Tied(cfg, StepId(cfg, r, c), buf, k.window + [c])
  {
    StepIdFields(cfg, r, buf, k.window, c);
    StepIdProgress(cfg, r, buf, k.window, c);
    Early(cfg, r, buf, k.window);
    hide Fields, Progress, Take, Opens, InRange;
    HeadWaits(cfg, k, c);
  }

  lemma StepLenFields(cfg: Config, r: Regs, buf: seq<byte>, w: seq<byte>, c: byte)
    requires cfg.Ok() && Tied(cfg, r, buf, w) && r.state == LEN
    ensures Fields(cfg, StepLen(cfg, r, c), w + [c]) && InRange(cfg, StepLen(cfg, r, c))
  {
    hide Pow, Val, Config.Sum, Shifted, Opens, Config.Bounded;
    Collected(w, cfg.IdEnd(), r.rxi, cfg.lenBytes, r.len, c);
    Grown(cfg, r, w, c);
    if r.rxi + 1 == cfg.lenBytes { assert (w + [c])[cfg.IdEnd()..] == (w + [c])[cfg.IdEnd()..cfg.LenEnd()]; }
    RangeZero(cfg);
  }

  lemma StepLenProgress(cfg: Config, r: Regs, buf: seq<byte>, w: seq<byte>, c: byte)
    requires cfg.Ok() && Tied(cfg, r, buf, w) && r.state == LEN
    ensures Progress(cfg, StepLen(cfg, r, c), buf, w + [c])
  {
    hide Pow, Val, Config.Sum, Shifted, Opens, Config.Bounded, Fields;
    Collected(w, cfg.IdEnd(), r.rxi, cfg.lenBytes, r.len, c);
    SumSnoc(cfg, w, c);
    Fresh(w + [c], StepLen(cfg, r, c).typ, cfg.typeBytes);
    hide Collecting;
    assert (w + [c])[..|w| + 1] == w + [c];
  }

  lemma StepLenTied(cfg: Config, r: Regs, buf: seq<byte>, k: Link, c: byte)
    requires cfg.Ok() && Tied(cfg, r, buf, k.window) && r.state == LEN && k.ticks == 0
    ensures Take(cfg, k, c) == Link(k.window + [c], 0, k.seen + [c], k.got, k.ends)
    ensures Tied(cfg, StepLen(cfg, r, c), buf, k.window + [c])
  {
    StepLenFields(cfg, r, buf, k.window, c);
    StepLenProgress(cfg, r, buf, k.window, c);
    Early(cfg, r, buf, k.window);
    hide Fields, Progress, Take, Opens, InRange;
    HeadWaits(cfg, k, c);
  }

  lemma StepTypeFields(cfg: Config, r: Regs, buf: seq<byte>, w: seq<byte>, c: byte)
    requires cfg.Ok() && Tied(cfg, r, buf, w) && r.state == TYPE
    ensures Fields(cfg, StepType(cfg, r, c), w + [c]) && InRange(cfg, StepType(cfg, r, c))
  {
    hide Pow, Val, Config.Sum, Shifted, Opens, Config.Bounded;
    Collected(w, cfg.LenEnd(), r.rxi, cfg.typeBytes, r.typ, c);
    Grown(cfg, r, w, c);
    if r.rxi + 1 == cfg.typeBytes { assert (w + [c])[cfg.LenEnd()..] == (w + [c])[cfg.LenEnd()..cfg.TypeEnd()]; }
    RangeZero(cfg);
  }

  lemma StepTypeProgress(cfg: Config, r: Regs, buf: seq<byte>, w: seq<byte>, c: byte)
    requires cfg.Ok() && Tied(cfg, r, buf, w) && r.state == TYPE
    ensures Progress(cfg, StepType(cfg, r, c), buf, w + [c])
  {
    hide Pow, Val, Config.Sum, Shifted, Opens, Config.Bounded, Fields;
    Collected(w, cfg.LenEnd(), r.rxi, cfg.typeBytes, r.typ, c);
    SumSnoc(cfg, w, c);
    Fresh(w + [c], StepType(cfg, r, c).ref, cfg.ckBytes);
    hide Collecting;
    assert (w + [c])[..|w| + 1] == w + [c];
  }

  lemma StepTypeTied(cfg: Config, r: Regs, buf: seq<byte>, k: Link, c: byte)
    requires cfg.Ok() && Tied(cfg, r, buf, k.window) && r.state == TYPE && k.ticks == 0
    ensures Take(cfg, k, c) == Link(k.window + [c], 0, k.seen + [c], k.got, k.ends)
    ensures Tied(cfg, StepType(cfg, r, c), buf, k.window + [c])
  {
    StepTypeFields(cfg, r, buf, k.window, c);
    StepTypeProgress(cfg, r, buf, k.window, c);
    Early(cfg, r, buf, k.window);
    hide Fields, Progress, Take, Opens, InRange;
    HeadWaits(cfg, k, c);
  }
  // ---------- between frames

  /** pars_begin_frame, w holding the start-of-frame byte if there is one. */
  function Begun(cfg: Config, r: Regs): Regs {
    r.(cksum := cfg.Sum(Prefix(cfg)), discard := false, state := ID, rxi := 0)
  }

  lemma BegunTied(cfg: Config, r: Regs, buf: seq<byte>)
    requires cfg.Ok() && Tied(cfg, r, buf, [])
    ensures Tied(cfg, Begun(cfg, r), buf, Prefix(cfg))
  {
    Fresh(Prefix(cfg), r.id, cfg.idBytes);
    hide Pow, Val, Config.Sum, Collecting;
  }

  lemma SofTaken(cfg: Config, k: Link, c: byte)
    requires cfg.Ok() && cfg.useSof && k.window == [] && k.ticks == 0
    ensures Take(cfg, k, c) == Link(if c == cfg.sof then Prefix(cfg) else [], 0, k.seen + [c], k.got, k.ends)
  {
    hide Pow, Val, Config.Sum;
    assert [] + [c] == [c];
  }

  lemma IdleTied(cfg: Config, r: Regs, buf: seq<byte>, w: seq<byte>)
    requires cfg.Ok() && Tied(cfg, r, buf, w)
    ensures Tied(cfg, r.(state := SOF), buf, [])
  {
    hide Pow, Val, Config.Sum;
  }

  /** A parser that has given up on a frame is idle, whatever is left in the other registers. */
  lemma Aborted(cfg: Config, r: Regs, r': Regs, buf: seq<byte>, w: seq<byte>)
    requires cfg.Ok() && Tied(cfg, r, buf, w)
    requires r'.id == r.id && r'.len == r.len && r'.typ == r.typ && 0 <= r'.ref < Pow(cfg.ckBytes)
    ensures Tied(cfg, r'.(state := SOF), buf, [])
  {
    hide Pow, Val, Config.Sum;
  }

  /** A late byte finds the parser reset; then it is taken like any other. */
  lemma Late(cfg: Config, r: Regs, buf: seq<byte>, k: Link)
    requires cfg.Ok() && Tied(cfg, r, buf, k.window)
    ensures var timedOut := k.ticks >= cfg.timeoutTicks && r.state != SOF;
      Tied(cfg, if timedOut then r.(state := SOF) else r, buf, Before(cfg, k))
    ensures forall c :: Take(cfg, k.(window := Before(cfg, k), ticks := 0), c) == Take(cfg, k, c)
  {
    IdleTied(cfg, r, buf, k.window);
    hide Pow, Val, Config.Sum, Judge, Fields, Opens;
  }

  // ---------- the header's checksum

  lemma HeadMore(cfg: Config, r: Regs, buf: seq<byte>, k: Link, c: byte)
    requires cfg.Ok() && Tied(cfg, r, buf, k.window) && r.state == HEAD_CKSUM && k.ticks == 0 && r.rxi + 1 < cfg.ckBytes
    ensures Take(cfg, k, c) == Link(k.window + [c], 0, k.seen + [c], k.got, k.ends)
    ensures Tied(cfg, r.(ref := Shifted(r.ref, c, cfg.ckBytes), rxi := r.rxi + 1), buf, k.window + [c])
  {
    var w := k.window;
    Grown(cfg, r, w, c);
    hide Pow, Val, Config.Sum, Shifted, Opens, Config.Bounded, Take, WId, WLen, WType, HeadOk;
    Collected(w, cfg.TypeEnd(), r.rxi, cfg.ckBytes, r.ref, c);
    assert w != [] && |w| + 1 < cfg.HeadLen();
    HeadWaits(cfg, k, c);
    assert (w + [c])[..cfg.TypeEnd()] == w[..cfg.TypeEnd()];
  }

  /** The header is complete, and its checksum is right or wrong. */
  lemma HeadComplete(cfg: Config, r: Regs, buf: seq<byte>, w: seq<byte>, c: byte)
    requires cfg.Ok() && Tied(cfg, r, buf, w) && r.state == HEAD_CKSUM && r.rxi + 1 == cfg.ckBytes
    ensures |w| + 1 == cfg.HeadLen() && r.id == WId(cfg, w + [c])
    ensures r.len == WLen(cfg, w + [c]) && r.typ == WType(cfg, w + [c])
    ensures HeadOk(cfg, w + [c]) <==> cfg.finish(r.cksum) == Shifted(r.ref, c, cfg.ckBytes)
    ensures w != [] && Opens(cfg, w + [c])
  {
    Grown(cfg, r, w, c);
    hide Pow, Val, Config.Sum, Shifted, Config.Bounded, WId, WLen, WType, HeadOk, Opens;
    HeadVerdict(cfg, r, buf, w, c);
    OpensMore(cfg, w, c);
  }

  lemma HeadVerdict(cfg: Config, r: Regs, buf: seq<byte>, w: seq<byte>, c: byte)
    requires cfg.Ok() && Progress(cfg, r, buf, w) && r.state == HEAD_CKSUM && r.rxi + 1 == cfg.ckBytes && r.ref >= 0
    ensures |w| + 1 == cfg.HeadLen()
    ensures HeadOk(cfg, w + [c]) <==> cfg.finish(r.cksum) == Shifted(r.ref, c, cfg.ckBytes)
  {
    hide Pow, Val, Config.Sum, Shifted, Config.Bounded;
    Collected(w, cfg.TypeEnd(), r.rxi, cfg.ckBytes, r.ref, c);
    assert (w + [c])[..cfg.TypeEnd()] == w[..cfg.TypeEnd()];
    assert (w + [c])[cfg.TypeEnd()..cfg.HeadLen()] == (w + [c])[cfg.TypeEnd()..];
  }

  lemma OpensMore(cfg: Config, w: seq<byte>, c: byte)
    requires w != [] && Opens(cfg, w)
    ensures Opens(cfg, w + [c])
  {
  }

  lemma HeadDone(cfg: Config, r: Regs, buf: seq<byte>, k: Link, c: byte)
    requires cfg.Ok() && Tied(cfg, r, buf, k.window)
    requires r.state == HEAD_CKSUM && k.ticks == 0 && r.rxi + 1 == cfg.ckBytes
    ensures var ok := cfg.finish(r.cksum) == Shifted(r.ref, c, cfg.ckBytes);
            Take(cfg, k, c) ==
            if !ok then Link([], 0, k.seen + [c], k.got, k.ends)
            else if r.len == 0 then Link([], 0, k.seen + [c], k.got + [Msg(r.id, r.typ, [])], k.ends + [|k.seen| + 1])
            else Link(k.window + [c], 0, k.seen + [c], k.got, k.ends)
  {
    HeadComplete(cfg, r, buf, k.window, c);
    hide Pow, Val, Config.Sum, Shifted, Opens, Config.Bounded, WId, WLen, WType, HeadOk, Tied;
    assert k.window != [];
  }

  /** The registers at the start of a payload. */
  function PayloadBegun(cfg: Config, r: Regs, c: byte): Regs {
    r.(ref := Shifted(r.ref, c, cfg.ckBytes), state := DATA, rxi := 0, cksum := cfg.start,
       discard := r.len > cfg.maxPayload)
  }

  lemma PayloadTied(cfg: Config, r: Regs, buf: seq<byte>, w: seq<byte>, c: byte)
    requires cfg.Ok() && Tied(cfg, r, buf, w) && r.state == HEAD_CKSUM && r.rxi + 1 == cfg.ckBytes && r.len > 0
    requires cfg.finish(r.cksum) == Shifted(r.ref, c, cfg.ckBytes)
    ensures Tied(cfg, PayloadBegun(cfg, r, c), buf, w + [c])
  {
    HeadComplete(cfg, r, buf, w, c);
    hide Pow, Val, Shifted, Opens, Config.Bounded, WId, WLen, WType, HeadOk, Config.Sum;
    assert (w + [c])[cfg.HeadLen()..] == [];
    SumEmpty(cfg);
  }

  lemma SumEmpty(cfg: Config)
    ensures cfg.Sum([]) == cfg.start
  {
  }

  // ---------- the payload and its checksum

  function Kept(r: Regs, buf: seq<byte>, c: byte): (b: seq<byte>)
    ensures |b| == |buf|
  {
    if r.discard || !(0 <= r.rxi < |buf|) then buf else buf[r.rxi := c]
  }

  function StepData(cfg: Config, r: Regs, c: byte): Regs {
    var r1 := if r.discard then r else r.(cksum := cfg.add(r.cksum, c));
    if r.rxi + 1 == r.len then r1.(rxi := 0, state := DATA_CKSUM, ref := 0) else r1.(rxi := r.rxi + 1)
  }

  /** Every byte stored goes inside the buffer. */
  lemma StoreInRange(cfg: Config, r: Regs, buf: seq<byte>, w: seq<byte>)
    requires cfg.Ok() && Tied(cfg, r, buf, w) && r.state == DATA && !r.discard
    ensures 0 <= r.rxi < r.len <= |buf| == cfg.maxPayload
  {
    hide Pow, Val, Config.Sum, Opens, WId, WLen, WType, HeadOk;
  }

  lemma DataTaken(cfg: Config, r: Regs, buf: seq<byte>, k: Link, c: byte)
    requires cfg.Ok() && Tied(cfg, r, buf, k.window) && r.state == DATA && k.ticks == 0
    ensures Take(cfg, k, c) == Link(k.window + [c], 0, k.seen + [c], k.got, k.ends) && Opens(cfg, k.window + [c])
  {
    var w := k.window;
    Grown(cfg, r, w, c);
    OpensMore(cfg, w, c);
    hide Pow, Val, Config.Sum, Config.Bounded, WId, WLen, WType, HeadOk, Opens;
    assert |w| + 1 <= cfg.HeadLen() + r.len;
    JudgedWaiting(cfg, w + [c]);
  }

  lemma DataProgress(cfg: Config, r: Regs, buf: seq<byte>, w: seq<byte>, c: byte)
    requires cfg.Ok() && Progress(cfg, r, buf, w) && r.state == DATA && (!r.discard ==> r.rxi < |buf|)
    ensures Progress(cfg, StepData(cfg, r, c), Kept(r, buf, c), w + [c])
  {
    var h := cfg.HeadLen();
    hide Pow, Val, Config.Sum, Config.Bounded, Stored, Collecting, Kept;
    assert (w + [c])[h..] == w[h..] + [c];
    if !r.discard { StoredMore(cfg, r, buf, w[h..], c); }
    Fresh(w + [c], 0, cfg.ckBytes);
    if r.rxi + 1 == r.len { assert (w + [c])[h..h + r.len] == (w + [c])[h..]; }
  }

  lemma DataTied(cfg: Config, r: Regs, buf: seq<byte>, w: seq<byte>, c: byte)
    requires cfg.Ok() && Tied(cfg, r, buf, w) && r.state == DATA
    ensures Tied(cfg, StepData(cfg, r, c), Kept(r, buf, c), w + [c])
  {
    if !r.discard { StoreInRange(cfg, r, buf, w); }
    RangeZero(cfg);
    hide Pow, Val, Config.Sum, Config.Bounded, WId, WLen, WType, HeadOk, Opens, Stored, Progress, Kept;
    assert |w| >= cfg.HeadLen() > 0;
    Grown(cfg, r, w, c);
    hide Fields;
    FieldsSame(cfg, r, StepData(cfg, r, c), w + [c]);
    OpensMore(cfg, w, c);
    DataProgress(cfg, r, buf, w, c);
  }

  lemma StoredMore(cfg: Config, r: Regs, buf: seq<byte>, d: seq<byte>, c: byte)
    requires Stored(cfg, r, buf, d) && !r.discard && r.rxi == |d| < |buf|
    ensures Stored(cfg, StepData(cfg, r, c), Kept(r, buf, c), d + [c])
  {
    SumSnoc(cfg, d, c);
  }

  lemma StoredSame(cfg: Config, r: Regs, r': Regs, buf: seq<byte>, d: seq<byte>)
    requires r.cksum == r'.cksum
    ensures Stored(cfg, r, buf, d) == Stored(cfg, r', buf, d)
  {
  }

  lemma FieldsSame(cfg: Config, r: Regs, r': Regs, w: seq<byte>)
    requires cfg.Ok() && Fields(cfg, r, w) && Stage(r.state) >= 5 && Stage(r'.state) >= 5
    requires r.id == r'.id && r.len == r'.len && r.typ == r'.typ && r.discard == r'.discard
    ensures Fields(cfg, r', w)
  {
    hide Val, Pow, Config.Check, WId, WLen, WType, HeadOk;
  }

  lemma CksumProgress(cfg: Config, r: Regs, buf: seq<byte>, w: seq<byte>, c: byte)
    requires cfg.Ok() && Progress(cfg, r, buf, w) && r.state == DATA_CKSUM && r.rxi + 1 < cfg.ckBytes && r.ref >= 0
    ensures Progress(cfg, r.(ref := Shifted(r.ref, c, cfg.ckBytes), rxi := r.rxi + 1), buf, w + [c])
  {
    var h, r' := cfg.HeadLen(), r.(ref := Shifted(r.ref, c, cfg.ckBytes), rxi := r.rxi + 1);
    hide Pow, Val, Config.Sum, Shifted, Config.Bounded, Stored, Collecting;
    Collected(w, h + r.len, r.rxi, cfg.ckBytes, r.ref, c);
    Inside(w, c, h, h + r.len, r.rxi, cfg.ckBytes, r.ref);
    if !r.discard { StoredSame(cfg, r, r', buf, w[h..h + r.len]); }
  }

  lemma CksumTied(cfg: Config, r: Regs, buf: seq<byte>, w: seq<byte>, c: byte)
    requires cfg.Ok() && Tied(cfg, r, buf, w) && r.state == DATA_CKSUM && r.rxi + 1 < cfg.ckBytes
    ensures Tied(cfg, r.(ref := Shifted(r.ref, c, cfg.ckBytes), rxi := r.rxi + 1), buf, w + [c])
  {
    TiedLate(cfg, r, buf, w);
    hide Pow, Val, Config.Sum, Shifted, Opens, Config.Bounded, WId, WLen, WType, HeadOk, Stored, Fields, Collecting,
         Progress;
    Grown(cfg, r, w, c);
    FieldsSame(cfg, r, r.(ref := Shifted(r.ref, c, cfg.ckBytes), rxi := r.rxi + 1), w + [c]);
    OpensMore(cfg, w, c);
    CksumProgress(cfg, r, buf, w, c);
  }

  lemma Inside(w: seq<byte>, c: byte, h: int, e: int, rxi: int, k: int, dest: int)
    requires 0 <= h <= e && Collecting(w, e, rxi, k, dest)
    ensures e <= |w| && (w + [c])[h..e] == w[h..e]
  {
    hide Val, Pow;
  }

  lemma CksumMore(cfg: Config, r: Regs, buf: seq<byte>, k: Link, c: byte)
    requires cfg.Ok() && Tied(cfg, r, buf, k.window) && r.state == DATA_CKSUM && k.ticks == 0 && r.rxi + 1 < cfg.ckBytes
    ensures Take(cfg, k, c) == Link(k.window + [c], 0, k.seen + [c], k.got, k.ends)
    ensures Tied(cfg, r.(ref := Shifted(r.ref, c, cfg.ckBytes), rxi := r.rxi + 1), buf, k.window + [c])
  {
    CksumTied(cfg, r, buf, k.window, c);
    Grown(cfg, r, k.window, c);
    hide Pow, Val, Config.Sum, Shifted, Opens, Config.Bounded, WId, WLen, WType, HeadOk, Stored, Tied, Judge;
    TiedLate(cfg, r, buf, k.window);
    JudgedWaiting(cfg, k.window + [c]);
  }

  /** Lengths known once the payload is in. */
  lemma TiedLate(cfg: Config, r: Regs, buf: seq<byte>, w: seq<byte>)
    requires cfg.Ok() && Tied(cfg, r, buf, w) && r.state == DATA_CKSUM
    ensures w != [] && |w| == cfg.HeadLen() + r.len + r.rxi && r.len > 0 && Fields(cfg, r, w)
    ensures 0 <= r.rxi < cfg.ckBytes && r.discard == (r.len > cfg.maxPayload) && r.ref >= 0 && |buf| == cfg.maxPayload
    ensures !r.discard ==> var h := cfg.HeadLen(); Stored(cfg, r, buf, w[h..h + r.len])
    ensures Collecting(w, cfg.HeadLen() + r.len, r.rxi, cfg.ckBytes, r.ref)
  {
    hide Pow, Val, Config.Sum, Opens, Stored;
  }

  lemma JudgedFull(cfg: Config, w: seq<byte>)
    requires cfg.Ok() && |w| >= cfg.HeadLen() && HeadOk(cfg, w) && WLen(cfg, w) > 0
    requires |w| == cfg.HeadLen() + WLen(cfg, w) + cfg.ckBytes
    ensures var h, n := cfg.HeadLen(), WLen(cfg, w); var d := w[h..h + n];
            Judge(cfg, w) == if n > cfg.maxPayload || Val(w[h + n..]) != cfg.Check(d) then Drop
                             else Deliver(Msg(WId(cfg, w), WType(cfg, w), d))
  {
    hide Val, Pow, Config.Check, WId, WLen, WType, HeadOk;
  }

  lemma CksumDone(cfg: Config, r: Regs, buf: seq<byte>, k: Link, c: byte)
    requires cfg.Ok() && Tied(cfg, r, buf, k.window)
    requires r.state == DATA_CKSUM && k.ticks == 0 && r.rxi + 1 == cfg.ckBytes
    ensures 0 <= r.len && (!r.discard ==> r.len <= |buf|)
    ensures Take(cfg, k, c) ==
            if !r.discard && cfg.finish(r.cksum) == Shifted(r.ref, c, cfg.ckBytes)
            then Link([], 0, k.seen + [c], k.got + [Msg(r.id, r.typ, buf[..r.len])], k.ends + [|k.seen| + 1])
            else Link([], 0, k.seen + [c], k.got, k.ends)
  {
    var w, h := k.window, cfg.HeadLen();
    hide Pow, Val, Config.Sum, Shifted, Opens, Config.Bounded, WId, WLen, WType, HeadOk, Tied, Judge, Collecting;
    TiedLate(cfg, r, buf, w);
    Grown(cfg, r, w, c);
    Collected(w, h + r.len, r.rxi, cfg.ckBytes, r.ref, c);
    Inside(w, c, h, h + r.len, r.rxi, cfg.ckBytes, r.ref);
    JudgedFull(cfg, w + [c]);
  }
}
