/**
The TinyFrame wire format: [SOF] ID LEN TYPE HEAD_CKSUM [DATA DATA_CKSUM], every number big-endian.
*/
module TfFormat {
  import opened Octets

  /** 256 to the power k, for the field sizes in use. */
  function Pow(k: int): (p: int)
    ensures p > 0
  {
    if k <= 0 then 1
    else if k == 1 then 0x100
    else if k == 2 then 0x1_0000
    else if k == 3 then 0x100_0000
    else 0x1_0000_0000
  }

  predicate Width(k: int) {
    k == 1 || k == 2 || k == 4
  }

  /** The build-time configuration. The checksum step is a parameter; its values fit ckBytes bytes. */
  datatype Config = Config(useSof: bool, sof: byte, idBytes: int, lenBytes: int, typeBytes: int, ckBytes: int,
                           maxPayload: nat, sendbufLen: nat, timeoutTicks: nat,
                           start: int, add: (int, byte) -> int, finish: int -> int)
  {
    ghost predicate Ok() {
      && Width(idBytes) && Width(lenBytes) && Width(typeBytes) && Width(ckBytes)
      && sendbufLen >= HeadLen() && timeoutTicks > 0
      && Bounded()
    }

    ghost predicate Bounded() {
      forall c :: 0 <= finish(c) < Pow(ckBytes)
    }

    function SofLen(): (n: int)
      ensures 0 <= n <= 1
    {
      if useSof then 1 else 0
    }

    function IdEnd(): int { SofLen() + idBytes }
    function LenEnd(): int { IdEnd() + lenBytes }
    function TypeEnd(): int { LenEnd() + typeBytes }
    function HeadLen(): int { TypeEnd() + ckBytes }

    /** The running checksum after bs. */
    function Sum(bs: seq<byte>): int {
      if bs == [] then start else add(Sum(bs[..|bs| - 1]), bs[|bs| - 1])
    }

    function Check(bs: seq<byte>): int {
      finish(Sum(bs))
    }
  }

  datatype Msg = Msg(id: int, typ: int, payload: seq<byte>)

  // ---------- numbers

  function Num(n: int, k: int): (r: seq<byte>)
    requires n >= 0
    ensures |r| == if k <= 0 then 0 else k
  {
    if k <= 0 then [] else Num(n / 256, k - 1) + [n % 256]
  }

  function Val(bs: seq<byte>): (n: int)
    ensures n >= 0
  {
    if bs == [] then 0 else Val(bs[..|bs| - 1]) * 256 + bs[|bs| - 1]
  }

  lemma ValSnoc(bs: seq<byte>, c: byte)
    ensures Val(bs + [c]) == Val(bs) * 256 + c
  {
    assert (bs + [c])[..|bs|] == bs;
  }

  lemma SumSnoc(cfg: Config, bs: seq<byte>, c: byte)
    ensures cfg.Sum(bs + [c]) == cfg.add(cfg.Sum(bs), c)
  {
    assert (bs + [c])[..|bs|] == bs;
  }

  lemma {:induction false} ValNum(n: int, k: int)
    requires 0 <= k <= 4 && 0 <= n < Pow(k)
    ensures Val(Num(n, k)) == n
  {
    if k > 0 {
      ValNum(n / 256, k - 1);
      ValSnoc(Num(n / 256, k - 1), n % 256);
    }
  }

  lemma {:induction false} NumVal(bs: seq<byte>)
    requires |bs| <= 4
    ensures Num(Val(bs), |bs|) == bs && Val(bs) < Pow(|bs|)
  {
    if bs != [] {
      var m := |bs| - 1;
      NumVal(bs[..m]);
      assert Val(bs) / 256 == Val(bs[..m]) && Val(bs) % 256 == bs[m];
      assert bs == bs[..m] + [bs[m]];
    }
  }

  /** (num >> (si * 8)) & 0xFF */
  function ByteAt(n: int, si: int): byte {
    n / Pow(si) % 256
  }

  /** The j-th byte of a number, from the top. */
  lemma NumAt(n: int, k: int, j: int)
    requires 0 <= j < k <= 4 && 0 <= n
    ensures Num(n, k)[j] == ByteAt(n, k - 1 - j)
    decreases k
  {
    if j < k - 1 {
      NumAt(n / 256, k - 1, j);
      DivDiv(n, k - 1 - j);
    }
  }

  lemma DivDiv(n: int, e: int)
    requires 0 < e <= 3 && n >= 0
    ensures n / 256 / Pow(e - 1) == n / Pow(e)
  {
  }

  /** Shifting one more byte into a number of k bytes, of which the low j are already right. */
  lemma Collect(dest: int, bs: seq<byte>, c: byte, k: int)
    requires |bs| < k <= 4 && dest >= 0 && dest % Pow(|bs|) == Val(bs)
    ensures (dest * 256 + c) % Pow(k) % Pow(|bs| + 1) == Val(bs + [c])
  {
    hide Pow, Val;
    ValSnoc(bs, c);
    ModShift(dest, c, |bs|);
    ModDown(dest * 256 + c, |bs| + 1, k);
  }

  lemma ModShift(d: int, c: byte, j: int)
    requires 0 <= j < 4 && d >= 0
    ensures (d * 256 + c) % Pow(j + 1) == d % Pow(j) * 256 + c
  {
    var q, r := d / Pow(j), d % Pow(j);
    assert d == q * Pow(j) + r;
    assert Pow(j + 1) == 256 * Pow(j);
    hide Pow;
    Scale(q, Pow(j), r, c);
    DivMod(d * 256 + c, Pow(j + 1), q, r * 256 + c);
  }

  lemma Scale(q: int, p: int, r: int, c: int)
    ensures (q * p + r) * 256 + c == q * (256 * p) + (r * 256 + c)
  {
  }

  lemma ModStep(x: int, k: int)
    requires 0 <= k < 4 && x >= 0
    ensures x % Pow(k + 1) % Pow(k) == x % Pow(k)
  {
    var y := x / Pow(k + 1);
    var r := x % Pow(k + 1);
    if k == 0 { }
    else if k == 1 { assert x == 0x100 * (0x100 * y) + r; }
    else if k == 2 { assert x == 0x1_0000 * (0x100 * y) + r; }
    else { assert x == 0x100_0000 * (0x100 * y) + r; }
  }

  lemma ModDown(x: int, j: int, k: int)
    requires 0 <= j <= k <= 4 && x >= 0
    ensures x % Pow(k) % Pow(j) == x % Pow(j)
    decreases k
  {
    if k > j {
      hide Pow;
      ModStep(x, k - 1);
      ModDown(x, j, k - 1);
      ModDown(x % Pow(k), j, k - 1);
    } else {
      ModTwice(x, Pow(k));
    }
  }

  lemma ModTwice(x: int, p: int)
    requires p > 0
    ensures x % p % p == x % p
  {
  }

  // ---------- frames

  function Prefix(cfg: Config): (r: seq<byte>)
    ensures |r| == cfg.SofLen()
  {
    if cfg.useSof then [cfg.sof] else []
  }

  function HeadFields(cfg: Config, id: int, len: int, typ: int): (r: seq<byte>)
    requires id >= 0 && len >= 0 && typ >= 0
  {
    Prefix(cfg) + Num(id, cfg.idBytes) + Num(len, cfg.lenBytes) + Num(typ, cfg.typeBytes)
  }

  ghost function Head(cfg: Config, id: int, len: int, typ: int): (r: seq<byte>)
    requires cfg.Ok() && id >= 0 && len >= 0 && typ >= 0
    ensures |r| == cfg.HeadLen()
  {
    HeadFields(cfg, id, len, typ) + Num(cfg.Check(HeadFields(cfg, id, len, typ)), cfg.ckBytes)
  }

  ghost function Body(cfg: Config, data: seq<byte>): (r: seq<byte>)
    requires cfg.Ok()
    ensures |r| == if data == [] then 0 else |data| + cfg.ckBytes
  {
    if data == [] then [] else data + Num(cfg.Check(data), cfg.ckBytes)
  }

  /** A message that the configured fields can carry. */
  predicate Fits(cfg: Config, m: Msg) {
    0 <= m.id < Pow(cfg.idBytes) && 0 <= m.typ < Pow(cfg.typeBytes) && |m.payload| < Pow(cfg.lenBytes)
  }

  ghost function Frame(cfg: Config, m: Msg): (r: seq<byte>)
    requires cfg.Ok() && Fits(cfg, m)
    ensures |r| >= cfg.HeadLen()
  {
    Head(cfg, m.id, |m.payload|, m.typ) + Body(cfg, m.payload)
  }

  // ---------- what a window of input means

  datatype Verdict = Wait | Deliver(msg: Msg) | Drop

  ghost predicate Opens(cfg: Config, w: seq<byte>) {
    w != [] && (cfg.useSof ==> w[0] == cfg.sof)
  }

  function WId(cfg: Config, w: seq<byte>): (n: int)
    requires 0 <= cfg.SofLen() <= cfg.IdEnd() <= |w|
    ensures n >= 0
  {
    Val(w[cfg.SofLen()..cfg.IdEnd()])
  }

  function WLen(cfg: Config, w: seq<byte>): (n: int)
    requires 0 <= cfg.IdEnd() <= cfg.LenEnd() <= |w|
    ensures n >= 0
  {
    Val(w[cfg.IdEnd()..cfg.LenEnd()])
  }

  function WType(cfg: Config, w: seq<byte>): (n: int)
    requires 0 <= cfg.LenEnd() <= cfg.TypeEnd() <= |w|
    ensures n >= 0
  {
    Val(w[cfg.LenEnd()..cfg.TypeEnd()])
  }

  /** The header's checksum is the one over the bytes before it. */
  predicate HeadOk(cfg: Config, w: seq<byte>)
    requires 0 <= cfg.TypeEnd() <= cfg.HeadLen() <= |w|
  {
    Val(w[cfg.TypeEnd()..cfg.HeadLen()]) == cfg.Check(w[..cfg.TypeEnd()])
  }

  /** What the receiver owes the bytes w since the start of a frame, read from all of them at once. */
  ghost function Judge(cfg: Config, w: seq<byte>): (v: Verdict)
    requires cfg.Ok()
  {
    var h := cfg.HeadLen();
    if |w| < h then Wait
    else if !HeadOk(cfg, w) then Drop
    else
      var len := WLen(cfg, w);
      if len == 0 then (if |w| == h then Deliver(Msg(WId(cfg, w), WType(cfg, w), [])) else Drop)
      else if |w| != h + len + cfg.ckBytes then Wait
      else
        var data := w[h..h + len];
        if len > cfg.maxPayload || Val(w[h + len..]) != cfg.Check(data) then Drop
        else Deliver(Msg(WId(cfg, w), WType(cfg, w), data))
  }

  /** Pieces of output, one after another. */
  function Flat(ps: seq<seq<byte>>): seq<byte> {
    if ps == [] then [] else Flat(ps[..|ps| - 1]) + ps[|ps| - 1]
  }

  lemma FlatSnoc(ps: seq<seq<byte>>, p: seq<byte>)
    ensures Flat(ps + [p]) == Flat(ps) + p
  {
    assert (ps + [p])[..|ps|] == ps;
  }
}
