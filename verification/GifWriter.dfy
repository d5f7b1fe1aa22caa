/**
 Frames as an LZW encoder writes them (Appendix F of the GIF89a specification):
 the indices are cut into pieces, and each piece is a single index or repeats an
 earlier piece and the index behind it.  Decoding gives the indices back.
 */
module GifWriter {
  import opened BitStream
  import opened BitWriter
  import opened Bits
  import opened Common
  import opened GifLzw
  import opened GifLzwSpec
  import opened GifRaster

  // ----- pieces and their codes

  type piece = w: text | |w| > 0 witness [0]

  /** The pieces between two clear codes, and a code for each. */
  datatype Part = Part(pieces: seq<piece>, codes: seq<nat>)

  /** A code below the clear code is an index.  Code number j behind the clear code and the end code stands for piece
      j and the index behind it, also where that is the first one of the piece being written. */
  predicate CodeFor(cs: nat, s: Part, k: nat)
    requires k < |s.pieces| == |s.codes|
  {
    var code, j := s.codes[k], s.codes[k] - Pow2(cs) - 2;
    if code < Pow2(cs) then s.pieces[k] == [code % 256]
    else 0 <= j < k && code < 4096 && s.pieces[k] == s.pieces[j] + [s.pieces[j + 1][0]]
  }

  /** A clear code comes before the decoder's table is full. */
  predicate IsPart(cs: nat, s: Part) {
    |s.pieces| == |s.codes| < 8192 - Pow2(cs) && forall k :: 0 <= k < |s.codes| ==> CodeFor(cs, s, k)
  }

  /** The greatest code that can follow k others, if codes could be of any size. */
  function Greatest(cs: nat, k: nat): nat { Pow2(cs) + 2 + if k == 0 then 0 else k - 1 }

  /** A code is as wide as the greatest one that can stand there, at most 12 bits. */
  function CodeWidth(cs: nat, k: nat): (w: nat)
    ensures w > 0
  {
    if Greatest(cs, k) >= 4096 then 12 else Log2(Greatest(cs, k)) + 1
  }

  function Joined(pieces: seq<piece>): text {
    if pieces == [] then [] else pieces[0] + Joined(pieces[1..])
  }

  // ----- writing them

  function PieceBits(cs: nat, codes: seq<nat>, k: nat): seq<bit>
    requires k <= |codes|
    decreases |codes| - k
  {
    if k == |codes| then [] else LowFirst(codes[k], CodeWidth(cs, k)) + PieceBits(cs, codes, k + 1)
  }

  /** Each part behind a clear code, and the end code; n codes since the last clear code come before. */
  function FrameBits(cs: nat, parts: seq<Part>, n: nat): seq<bit> {
    if parts == [] then LowFirst(Pow2(cs) + 1, CodeWidth(cs, n))
    else
      LowFirst(Pow2(cs), CodeWidth(cs, n)) +
      (PieceBits(cs, parts[0].codes, 0) + FrameBits(cs, parts[1..], |parts[0].codes|))
  }

  function Indices(parts: seq<Part>): text {
    if parts == [] then [] else Joined(parts[0].pieces) + Indices(parts[1..])
  }

  predicate AreParts(cs: nat, parts: seq<Part>) {
    forall i :: 0 <= i < |parts| ==> IsPart(cs, parts[i])
  }

  // ----- the width

  lemma WidthFacts(cs: nat, k: nat)
    requires 2 <= cs <= 8
    ensures var w, n := CodeWidth(cs, k), Greatest(cs, k);
            cs + 1 <= w <= 12 && (n < 4096 ==> Pow2(w - 1) <= n < Pow2(w)) && (n >= 4096 ==> w == 12)
    ensures Pow2(cs) + 1 < Pow2(CodeWidth(cs, k)) && Pow2(12) == 4096 && Pow2(11) == 2048
  {
    Pow2Of12();
    Pow2Mono(cs, 8);
    Pow2Mono(2, cs);
    assert Pow2(8) == 256 && Pow2(2) == 4;
    var w, n := CodeWidth(cs, k), Greatest(cs, k);
    if n < 4096 {
      Pow2Below(w - 1, 12);
      Pow2Below(cs, w);
    }
    Pow2Mono(cs + 1, w);
  }

  /** n has w bits, or takes one more than m with w bits; then the decoder's width grows to v. */
  lemma GrownTo(w: nat, v: nat, m: nat, n: nat)
    requires 0 < w <= 12 && 0 < v <= 12 && m <= n <= m + 1 && n < 4096 == Pow2(12)
    requires Pow2(w - 1) <= m < Pow2(w) && Pow2(v - 1) <= n < Pow2(v)
    ensures Grown(w, n) == v
  {
    assert Pow2(w + 1) == 2 * Pow2(w);
    hide Pow2, Grown;
    GrownIsStandard(w, n);
    if n < Pow2(w) {
      Pow2Below(v - 1, w);
      Pow2Below(w - 1, v);
    } else {
      Pow2Below(w, v);
      Pow2Below(v - 1, w + 1);
      Pow2Below(w, 12);
    }
  }

  /** One more piece, one more bit if the greatest code needs it. */
  lemma WidthGrows(cs: nat, k: nat)
    requires 2 <= cs <= 8
    ensures Grown(CodeWidth(cs, k), Greatest(cs, k + 1)) == CodeWidth(cs, k + 1)
  {
    hide Pow2, CodeWidth, Grown;
    var w, n := CodeWidth(cs, k), Greatest(cs, k + 1);
    WidthFacts(cs, k);
    WidthFacts(cs, k + 1);
    if n >= 4096 {
      NoGrowth(n);
      Pow2Below(11, w);
    } else {
      GrownTo(w, CodeWidth(cs, k + 1), Greatest(cs, k), n);
    }
  }

  lemma FirstWidth(cs: nat)
    requires 2 <= cs <= 8
    ensures CodeWidth(cs, 0) == cs + 1
  {
    Pow2Mono(2, cs);
    Pow2Mono(cs, 8);
    assert Pow2(2) == 4 && Pow2(8) == 256 && Pow2(cs + 1) == 2 * Pow2(cs);
    hide Pow2, Log2;
    LogIs(Pow2(cs) + 2, cs, cs + 1);
  }

  // ----- reading the codes

  /** The decoder's state after k codes of a part. */
  ghost predicate Reached(cs: nat, s: Part, k: nat, st: State)
    requires k <= |s.pieces|
  {
    && WellFormed(st) && st.cleared && st.width == CodeWidth(cs, k)
    && |st.entries| == (if k == 0 then 0 else k - 1)
    && (forall j :: 0 <= j < |st.entries| ==> st.entries[j] == s.pieces[j] + [s.pieces[j + 1][0]])
    && st.prev == if k == 0 then None else Some(s.pieces[k - 1])
  }

  /** What the code stands for in the decoder's table. */
  lemma CodeStandsFor(cs: nat, s: Part, k: nat, st: State)
    requires IsPart(cs, s) && k < |s.codes| && Reached(cs, s, k, st)
    ensures var code, avail := s.codes[k], Avail(cs, st.entries);
            && code <= avail && code != Clear(cs) && code != Clear(cs) + 1
            && (st.prev.None? ==> code < Clear(cs))
            && (code < avail ==> Str(cs, st.entries, code) == s.pieces[k])
            && (code >= Clear(cs) ==> code < 4096)
            && (code == avail ==> st.prev.Some? && s.pieces[k] == st.prev.value + [st.prev.value[0]])
  {
    hide CodeWidth, Pow2;
    assert CodeFor(cs, s, k);
    var j := s.codes[k] - Pow2(cs) - 2;
    if s.codes[k] >= Pow2(cs) && j == k - 1 {
      assert s.pieces[k][0] == s.pieces[k - 1][0];
    }
  }

  lemma CodeNarrow(cs: nat, s: Part, k: nat, st: State)
    requires 2 <= cs <= 8 && IsPart(cs, s) && k < |s.codes| && Reached(cs, s, k, st)
    ensures s.codes[k] < Pow2(st.width)
  {
    hide Pow2, CodeWidth, WellFormed;
    WidthFacts(cs, k);
    CodeStandsFor(cs, s, k, st);
  }

  /** The next code gives the next piece. */
  lemma PieceRead(cs: nat, s: Part, k: nat, st: State)
    requires 2 <= cs <= 8 && IsPart(cs, s) && k < |s.codes| && Reached(cs, s, k, st)
    ensures s.codes[k] != Clear(cs) && s.codes[k] != Clear(cs) + 1
    ensures WellFormed(st) && st.width == CodeWidth(cs, k)
    ensures var r := React(cs, st, s.codes[k]);
            r.Emits? && r.str == s.pieces[k] && Reached(cs, s, k + 1, r.st)
  {
    CodeStandsFor(cs, s, k, st);
    assert st.prev.Some? ==> Avail(cs, st.entries) < 8192;
    hide Grown, CodeWidth, Str, IsPart, Pow2, Known, React;
    Reacts(cs, st, s.codes[k], s.pieces[k]);
    NextReached(cs, s, k, st, React(cs, st, s.codes[k]).st);
  }

  lemma NextReached(cs: nat, s: Part, k: nat, st: State, next: State)
    requires 2 <= cs <= 8 && k < |s.pieces| && Reached(cs, s, k, st)
    requires WellFormed(next) && next.cleared && next.prev == Some(s.pieces[k])
    requires k == 0 ==> next.entries == st.entries && next.width == Grown(st.width, Avail(cs, st.entries))
    requires k > 0 ==> next.entries == st.entries + [s.pieces[k - 1] + [s.pieces[k][0]]] &&
                       next.width == Grown(st.width, Avail(cs, st.entries) + 1)
    ensures Reached(cs, s, k + 1, next)
  {
    hide Grown, CodeWidth, WellFormed, Pow2;
    WidthGrows(cs, k);
    assert Greatest(cs, k + 1) == Avail(cs, st.entries) + if k == 0 then 0 else 1;
  }

  /** One code, once it is known what it stands for. */
  lemma Reacts(cs: nat, st: State, code: nat, w: piece)
    requires WellFormed(st) && st.cleared && (st.prev.Some? ==> Avail(cs, st.entries) < 8192)
    requires code <= Avail(cs, st.entries) && code != Clear(cs) && code != Clear(cs) + 1
    requires st.prev.None? ==> code < Clear(cs)
    requires code < Avail(cs, st.entries) ==> Str(cs, st.entries, code) == w
    requires code == Avail(cs, st.entries) ==> st.prev.Some? && w == st.prev.value + [st.prev.value[0]]
    ensures var r := React(cs, st, code);
            && r.Emits? && r.str == w && r.st.cleared && r.st.prev == Some(w) && WellFormed(r.st)
            && (st.prev.None? ==> r.st.entries == st.entries && r.st.width == Grown(st.width, Avail(cs, st.entries)))
            && (st.prev.Some? ==> r.st.entries == st.entries + [st.prev.value + [w[0]]] &&
                                  r.st.width == Grown(st.width, Avail(cs, st.entries) + 1))
  {
    hide Grown, Pow2;
  }

  // ----- whole frames

  lemma RunData(data: seq<byte>, p: nat, cs: nat, st: State, out: text)
    requires WellFormed(st) && p + st.width <= 8 * |data|
    ensures var code := Take(data, p, st.width);
            var r := React(cs, st, code);
            code != Clear(cs) && code != Clear(cs) + 1 && r.Emits? ==>
              Run(data, p, cs, st, out) == Run(data, p + st.width, cs, r.st, out + r.str)
  {
    hide React, Take, Clear;
  }

  /** The rest of a part is read as its pieces. */
  lemma {:induction false} PiecesRead(data: seq<byte>, p: nat, cs: nat, s: Part, k: nat, st: State, out: text)
    requires 2 <= cs <= 8 && IsPart(cs, s) && k <= |s.codes| && Reached(cs, s, k, st)
    requires Written(data, p, PieceBits(cs, s.codes, k)) && p + |PieceBits(cs, s.codes, k)| <= 8 * |data|
    ensures exists end: State ::
              Reached(cs, s, |s.codes|, end) &&
              Run(data, p, cs, st, out) ==
              Run(data, p + |PieceBits(cs, s.codes, k)|, cs, end, out + Joined(s.pieces[k..]))
    decreases |s.codes| - k
  {
    hide Written, React, Reached, CodeWidth, CodeFor, Run, Take, LowFirst, WellFormed;
    if k == |s.codes| {
      assert out + Joined(s.pieces[k..]) == out;
    } else {
      var here := LowFirst(s.codes[k], CodeWidth(cs, k));
      WrittenJoin(data, p, here, PieceBits(cs, s.codes, k + 1));
      CodeNarrow(cs, s, k, st);
      PieceRead(cs, s, k, st);
      TakeWritten(data, p, s.codes[k], CodeWidth(cs, k));
      RunData(data, p, cs, st, out);
      var st1 := React(cs, st, s.codes[k]).st;
      PiecesRead(data, p + |here|, cs, s, k + 1, st1, out + s.pieces[k]);
      assert s.pieces[k..][1..] == s.pieces[k + 1..];
      assert out + s.pieces[k] + Joined(s.pieces[k + 1..]) == out + Joined(s.pieces[k..]);
    }
  }

  /** One code of the width that is due. */
  lemma ControlRead(data: seq<byte>, p: nat, cs: nat, n: nat, st: State, code: nat)
    requires 2 <= cs <= 8 && st.width == CodeWidth(cs, n) && code <= Pow2(cs) + 1
    requires Written(data, p, LowFirst(code, CodeWidth(cs, n)))
    ensures Take(data, p, st.width) == code
  {
    WidthFacts(cs, n);
    hide Written, Pow2, CodeWidth;
    TakeWritten(data, p, code, st.width);
  }

  lemma RunControls(data: seq<byte>, p: nat, cs: nat, st: State, out: text)
    requires WellFormed(st) && p + st.width <= 8 * |data|
    ensures Take(data, p, st.width) == Clear(cs) ==>
              Run(data, p, cs, st, out) == Run(data, p + st.width, cs, Start(cs, true), out)
    ensures Take(data, p, st.width) == Clear(cs) + 1 ==> Run(data, p, cs, st, out) == Done(out)
  {
    hide React, Take, Clear;
  }

  /** A frame's codes are read as its indices. */
  lemma {:induction false} FrameRead(data: seq<byte>, p: nat, cs: nat, parts: seq<Part>, n: nat, st: State, out: text)
    requires 2 <= cs <= 8 && AreParts(cs, parts) && WellFormed(st) && st.width == CodeWidth(cs, n)
    requires Written(data, p, FrameBits(cs, parts, n)) && p + |FrameBits(cs, parts, n)| <= 8 * |data|
    ensures Run(data, p, cs, st, out) == Done(out + Indices(parts))
    decreases |parts|
  {
    hide Written, Run, CodeWidth, IsPart, Reached, Take, Joined, LowFirst, Start, WellFormed, Pow2;
    RunControls(data, p, cs, st, out);
    if parts == [] {
      ControlRead(data, p, cs, n, st, Pow2(cs) + 1);
      assert out + Indices(parts) == out;
    } else {
      var s, w := parts[0], CodeWidth(cs, n);
      var a, b, c := LowFirst(Pow2(cs), w), PieceBits(cs, s.codes, 0), FrameBits(cs, parts[1..], |s.codes|);
      assert IsPart(cs, s);
      WrittenJoin(data, p, a, b + c);
      WrittenJoin(data, p + w, b, c);
      ControlRead(data, p, cs, n, st, Pow2(cs));
      var end := PartRead(data, p + w, cs, s, out);
      FrameRead(data, p + w + |b|, cs, parts[1..], |s.codes|, end, out + Joined(s.pieces));
      assert out + Joined(s.pieces) + Indices(parts[1..]) == out + Indices(parts);
    }
  }

  /** A whole part is read as its pieces. */
  lemma PartRead(data: seq<byte>, p: nat, cs: nat, s: Part, out: text) returns (end: State)
    requires 2 <= cs <= 8 && IsPart(cs, s)
    requires Written(data, p, PieceBits(cs, s.codes, 0)) && p + |PieceBits(cs, s.codes, 0)| <= 8 * |data|
    ensures WellFormed(end) && end.width == CodeWidth(cs, |s.codes|)
    ensures Run(data, p, cs, Start(cs, true), out) ==
            Run(data, p + |PieceBits(cs, s.codes, 0)|, cs, end, out + Joined(s.pieces))
  {
    hide Written, Run, CodeWidth;
    FirstWidth(cs);
    assert s.pieces[0..] == s.pieces;
    PiecesRead(data, p, cs, s, 0, Start(cs, true), out);
    end :| Reached(cs, s, |s.codes|, end) && Run(data, p, cs, Start(cs, true), out) ==
             Run(data, p + |PieceBits(cs, s.codes, 0)|, cs, end, out + Joined(s.pieces));
  }

  /** The data of a frame. */
  function FrameData(cs: nat, parts: seq<Part>): seq<byte> { Packed(FrameBits(cs, parts, 0)) }

  lemma FrameIsRead(cs: nat, parts: seq<Part>)
    requires 2 <= cs <= 8 && AreParts(cs, parts)
    ensures Run(FrameData(cs, parts), 0, cs, Start(cs, false), []) == Done(Indices(parts))
  {
    hide Run, CodeWidth, FrameBits, IsPart, Packed, Indices, Written;
    var bs := FrameBits(cs, parts, 0);
    FirstWidth(cs);
    PackedWritten([], bs, []);
    assert [] + Packed(bs) + [] == Packed(bs) && [] + Indices(parts) == Indices(parts);
    FrameRead(Packed(bs), 0, cs, parts, 0, Start(cs, false), []);
  }

  /** The decoder accepts the frame and draws its indices. */
  method DecodeWritten(data: seq<byte>, cs: byte, raster: Raster, ghost parts: seq<Part>)
    returns (d: Decoder, ok: bool)
    requires raster.Valid() && 2 <= cs <= 8 && AreParts(cs, parts) && data == FrameData(cs, parts)
    modifies raster, raster.out, raster.history
    ensures ok && d.input == [cs] + SubBlocks(data) && d.raster == raster
    ensures raster.Valid() && raster.emitted == old(raster.emitted) + Indices(parts)
  {
    hide Raster.Valid, Run, Standard, SubBlocks, Codes, InARow, Payload, FrameData, Indices, AreParts;
    var frame := [cs] + SubBlocks(data);
    assert frame[1..] == SubBlocks(data);
    BlocksJoined(frame, 1, data);
    FrameIsRead(cs, parts);
    StartAlike(cs, false);
    SmallClear(cs);
    RunIsStandard(data, 0, cs, Start(cs, false), Start(cs, false), []);
    d := new Decoder(frame, 0, raster);
    ok := d.DecodeFrame();
  }
}
