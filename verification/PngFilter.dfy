/**
 PNG scanline filters: the standard's filtering and reconstruction as functions,
 and the loops that reconstruct one row inside a buffer of two rows.
 */
module PngFilter {
  import opened Bits

  // ----- clause 9 of the PNG specification

  function Abs(n: int): nat { if n < 0 then -n else n }

  function PaethPredictor(a: int, b: int, c: int): int {
    var p := a + b - c;
    var pa, pb, pc := Abs(p - a), Abs(p - b), Abs(p - c);
    if pa <= pb && pa <= pc then a else if pb <= pc then b else c
  }

  /** What a filter type predicts from the bytes to the left, above, and above left. */
  function Predict(f: nat, a: byte, b: byte, c: byte): nat
    requires f <= 4
  {
    if f == 0 then 0
    else if f == 1 then a
    else if f == 2 then b
    else if f == 3 then (a + b) / 2
    else PaethPredictor(a, b, c)
  }

  /** The byte `bpp` places before position k, zero in front of the row. */
  function Before(row: seq<byte>, k: nat, bpp: nat): byte
    requires k <= |row| && bpp > 0
  {
    if k >= bpp then row[k - bpp] else 0
  }

  function Zeros(n: nat): (r: seq<byte>)
    ensures |r| == n
  {
    seq(n, i => 0)
  }

  /** Filtering: every byte minus its prediction from the original row and the row above. */
  function FilterRow(f: nat, prior: seq<byte>, row: seq<byte>, bpp: nat): (r: seq<byte>)
    requires f <= 4 && |prior| == |row| && bpp > 0
    ensures |r| == |row|
  {
    seq(|row|, k requires 0 <= k < |row| => (row[k] - Predict(f, Before(row, k, bpp), prior[k],
      Before(prior, k, bpp))) % 256)
  }

  /** Reconstruction, the predictions coming from the bytes reconstructed before. */
  function ReconRow(f: nat, prior: seq<byte>, filt: seq<byte>, bpp: nat): (r: seq<byte>)
    requires f <= 4 && |prior| >= |filt| && bpp > 0
    ensures |r| == |filt|
    decreases |filt|
  {
    if filt == [] then []
    else
      var k := |filt| - 1;
      var front := ReconRow(f, prior, filt[..k], bpp);
      front + [(filt[k] + Predict(f, Before(front, k, bpp), prior[k], Before(prior, k, bpp))) % 256]
  }

  /** Every reconstructed byte in terms of the whole reconstructed row. */
  lemma {:induction false} ReconAt(f: nat, prior: seq<byte>, filt: seq<byte>, bpp: nat, k: nat)
    requires f <= 4 && |prior| >= |filt| && bpp > 0 && k < |filt|
    ensures var r := ReconRow(f, prior, filt, bpp);
            r[k] == (filt[k] + Predict(f, Before(r, k, bpp), prior[k], Before(prior, k, bpp))) % 256
    decreases |filt|
  {
    hide Predict;
    var n := |filt| - 1;
    if k < n {
      ReconAt(f, prior, filt[..n], bpp, k);
      assert ReconRow(f, prior, filt, bpp)[..n] == ReconRow(f, prior, filt[..n], bpp);
    }
  }

  lemma AddBack(x: byte, p: int)
    ensures ((x - p) % 256 + p) % 256 == x
  {
  }

  /** Reconstruction undoes filtering. */
  lemma {:induction false} ReconFiltered(f: nat, prior: seq<byte>, row: seq<byte>, bpp: nat)
    requires f <= 4 && |prior| == |row| && bpp > 0
    ensures ReconRow(f, prior, FilterRow(f, prior, row, bpp), bpp) == row
  {
    hide Predict, ReconRow;
    var filt := FilterRow(f, prior, row, bpp);
    var r := ReconRow(f, prior, filt, bpp);
    var k := 0;
    while k < |row|
      invariant k <= |row| && r[..k] == row[..k]
    {
      ReconAt(f, prior, filt, bpp, k);
      if k >= bpp { assert r[..k][k - bpp] == row[..k][k - bpp]; }
      AddBack(row[k], Predict(f, Before(row, k, bpp), prior[k], Before(prior, k, bpp)));
      k := k + 1;
    }
    assert r[..|row|] == r && row[..|row|] == row;
  }

  // ----- the decoder's loops

  /** stbi__paeth: the standard's predictor by comparisons alone. */
  function Paeth(a: int, b: int, c: int): (r: int)
    ensures r == PaethPredictor(a, b, c)
  {
    var thresh := c * 3 - (a + b);
    var lo := if a < b then a else b;
    var hi := if a < b then b else a;
    var t0 := if hi <= thresh then lo else c;
    if thresh <= lo then hi else t0
  }

  /** Half of the buffer holds the row. */
  ghost predicate Half(buf: array<nat>, at: nat, row: seq<byte>)
    reads buf
  {
    at + |row| <= buf.Length && forall k :: 0 <= k < |row| ==> buf[at + k] == row[k]
  }

  /** The two halves for the current and the previous row do not overlap. */
  ghost predicate Halves(buf: array<nat>, cur: nat, prior: nat, n: nat) {
    && cur + n <= buf.Length && prior + n <= buf.Length
    && (cur + n <= prior || prior + n <= cur)
  }

  /** The first k bytes of the current half are reconstructed. */
  ghost predicate Done(buf: array<nat>, cur: nat, row: seq<byte>, k: nat)
    reads buf
  {
    k <= |row| && cur + |row| <= buf.Length && forall q :: 0 <= q < k ==> buf[cur + q] == row[q]
  }

  /** memcpy of `n` bytes of the data into the buffer. */
  method CopyBytes(buf: array<nat>, cur: nat, raw: seq<byte>, n: nat)
    requires n <= |raw| && cur + n <= buf.Length
    modifies buf
    ensures forall k :: 0 <= k < n ==> buf[cur + k] == raw[k]
    ensures forall k :: 0 <= k < buf.Length && !(cur <= k < cur + n) ==> buf[k] == old(buf[k])
  {
    for k := 0 to n
      invariant forall q :: 0 <= q < k ==> buf[cur + q] == raw[q]
      invariant forall q :: 0 <= q < buf.Length && !(cur <= q < cur + n) ==> buf[q] == old(buf[q])
    {
      buf[cur + k] := raw[k];
    }
  }

  /** No filter; also the first row's up filter, where the row above is zero. */
  method NoneRow(buf: array<nat>, cur: nat, raw: seq<byte>, ghost f: nat, ghost above: seq<byte>, ghost bpp: nat)
    requires cur + |raw| <= buf.Length && |above| == |raw| && bpp > 0
    requires f == 0 || (f == 2 && above == Zeros(|raw|))
    modifies buf
    ensures Half(buf, cur, ReconRow(f, above, raw, bpp))
  {
    CopyBytes(buf, cur, raw, |raw|);
    forall k | 0 <= k < |raw|
      ensures buf[cur + k] == ReconRow(f, above, raw, bpp)[k]
    {
      ReconAt(f, above, raw, bpp, k);
    }
  }

  /** Left neighbour; also the first row's Paeth filter. */
  method SubRow(buf: array<nat>, cur: nat, raw: seq<byte>, ghost f: nat, ghost above: seq<byte>, bpp: nat)
    requires cur + |raw| <= buf.Length && |above| == |raw| && 0 < bpp <= |raw|
    requires f == 1 || (f == 4 && above == Zeros(|raw|))
    modifies buf
    ensures Half(buf, cur, ReconRow(f, above, raw, bpp))
  {
    ghost var row := ReconRow(f, above, raw, bpp);
    CopyBytes(buf, cur, raw, bpp);
    forall k | 0 <= k < bpp
      ensures row[k] == raw[k]
    {
      ReconAt(f, above, raw, bpp, k);
    }
    for k := bpp to |raw|
      invariant Done(buf, cur, row, k)
    {
      ReconAt(f, above, raw, bpp, k);
      buf[cur + k] := (raw[k] + buf[cur + k - bpp]) % 256;
    }
  }

  method UpRow(buf: array<nat>, cur: nat, prior: nat, raw: seq<byte>, ghost above: seq<byte>, ghost bpp: nat)
    requires Halves(buf, cur, prior, |raw|) && |above| == |raw| && bpp > 0 && Half(buf, prior, above)
    modifies buf
    ensures Half(buf, cur, ReconRow(2, above, raw, bpp))
  {
    ghost var row := ReconRow(2, above, raw, bpp);
    for k := 0 to |raw|
      invariant Done(buf, cur, row, k) && Half(buf, prior, above)
    {
      ReconAt(2, above, raw, bpp, k);
      buf[cur + k] := (raw[k] + buf[prior + k]) % 256;
    }
  }

  method AvgRow(buf: array<nat>, cur: nat, prior: nat, raw: seq<byte>, ghost above: seq<byte>, bpp: nat)
    requires Halves(buf, cur, prior, |raw|) && |above| == |raw| && 0 < bpp <= |raw| && Half(buf, prior, above)
    modifies buf
    ensures Half(buf, cur, ReconRow(3, above, raw, bpp))
  {
    ghost var row := ReconRow(3, above, raw, bpp);
    for k := 0 to bpp
      invariant Done(buf, cur, row, k) && Half(buf, prior, above)
    {
      ReconAt(3, above, raw, bpp, k);
      buf[cur + k] := (raw[k] + buf[prior + k] / 2) % 256;
    }
    for k := bpp to |raw|
      invariant Done(buf, cur, row, k) && Half(buf, prior, above)
    {
      ReconAt(3, above, raw, bpp, k);
      buf[cur + k] := (raw[k] + (buf[prior + k] + buf[cur + k - bpp]) / 2) % 256;
    }
  }

  method PaethRow(buf: array<nat>, cur: nat, prior: nat, raw: seq<byte>, ghost above: seq<byte>, bpp: nat)
    requires Halves(buf, cur, prior, |raw|) && |above| == |raw| && 0 < bpp <= |raw| && Half(buf, prior, above)
    modifies buf
    ensures Half(buf, cur, ReconRow(4, above, raw, bpp))
  {
    ghost var row := ReconRow(4, above, raw, bpp);
    for k := 0 to bpp
      invariant Done(buf, cur, row, k) && Half(buf, prior, above)
    {
      ReconAt(4, above, raw, bpp, k);
      buf[cur + k] := (raw[k] + buf[prior + k]) % 256;
    }
    for k := bpp to |raw|
      invariant Done(buf, cur, row, k) && Half(buf, prior, above)
    {
      ReconAt(4, above, raw, bpp, k);
      buf[cur + k] := (raw[k] + Paeth(buf[cur + k - bpp], buf[prior + k], buf[prior + k - bpp])) % 256;
    }
  }

  /** The first row's average filter. */
  method AvgFirstRow(buf: array<nat>, cur: nat, raw: seq<byte>, bpp: nat)
    requires cur + |raw| <= buf.Length && 0 < bpp <= |raw|
    modifies buf
    ensures Half(buf, cur, ReconRow(3, Zeros(|raw|), raw, bpp))
  {
    ghost var row := ReconRow(3, Zeros(|raw|), raw, bpp);
    CopyBytes(buf, cur, raw, bpp);
    forall k | 0 <= k < bpp
      ensures row[k] == raw[k]
    {
      ReconAt(3, Zeros(|raw|), raw, bpp, k);
    }
    for k := bpp to |raw|
      invariant Done(buf, cur, row, k)
    {
      ReconAt(3, Zeros(|raw|), raw, bpp, k);
      buf[cur + k] := (raw[k] + buf[cur + k - bpp] / 2) % 256;
    }
  }

  /** One row: the filter type is looked up among substitutes on the first row, whose previous half is never read. */
  method UnfilterRow(buf: array<nat>, cur: nat, prior: nat, filter: nat, first: bool, raw: seq<byte>,
                     ghost above: seq<byte>, bpp: nat)
    requires Halves(buf, cur, prior, |raw|) && |above| == |raw| && 0 < bpp <= |raw| && filter <= 4
    requires if first then above == Zeros(|raw|) else Half(buf, prior, above)
    modifies buf
    ensures Half(buf, cur, ReconRow(filter, above, raw, bpp))
  {
    var f := filter;
    if first { f := if filter == 0 || filter == 2 then 0 else if filter == 3 then 5 else 1; }
    match f {
      case 0 => NoneRow(buf, cur, raw, filter, above, bpp);
      case 1 => SubRow(buf, cur, raw, filter, above, bpp);
      case 2 => UpRow(buf, cur, prior, raw, above, bpp);
      case 3 => AvgRow(buf, cur, prior, raw, above, bpp);
      case 4 => PaethRow(buf, cur, prior, raw, above, bpp);
      case _ => AvgFirstRow(buf, cur, raw, bpp);
    }
  }
}
