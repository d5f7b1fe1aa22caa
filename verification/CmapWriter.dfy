/**
 Character maps as a font tool writes them (the cmap table of the OpenType
 specification), and what looking up a code point in them gives.
 */
module CmapWriter {
  import opened Bits
  import opened Cmap

  // ----- numbers, the high byte first

  type word = n: nat | n < 0x1_0000

  function WordBytes(n: word): seq<byte> { [n / 256, n % 256] }

  function Bytes(words: seq<word>): (r: seq<byte>)
    ensures |r| == 2 * |words|
  {
    if words == [] then [] else Bytes(words[..|words| - 1]) + WordBytes(words[|words| - 1])
  }

  lemma {:induction false} WordAt(words: seq<word>, k: nat)
    requires k < |words|
    ensures U16(Bytes(words), 2 * k) == words[k]
    decreases |words|
  {
    var n := |words| - 1;
    if k < n {
      WordAt(words[..n], k);
      assert Bytes(words)[2 * k] == Bytes(words[..n])[2 * k] && Bytes(words)[2 * k + 1] == Bytes(words[..n])[2 * k + 1];
    }
  }

  /** The table stands in the data at base. */
  ghost predicate TableAt(data: seq<byte>, base: nat, words: seq<word>) {
    base + 2 * |words| <= |data| && data[base..base + 2 * |words|] == Bytes(words)
  }

  lemma WordRead(data: seq<byte>, base: nat, words: seq<word>, k: nat)
    requires TableAt(data, base, words) && k < |words|
    ensures base + 2 * k + 2 <= |data| && U16(data, base + 2 * k) == words[k]
  {
    var table := data[base..base + 2 * |words|];
    WordAt(words, k);
    assert table[2 * k] == data[base + 2 * k] && table[2 * k + 1] == data[base + 2 * k + 1];
  }

  // ----- format 4

  /** Code points that are mapped one after the other, by a difference modulo 65536, or by a list of glyphs. */
  datatype Segment = Shift(start: word, end: word, delta: word) | List(start: word, glyphs: seq<word>)

  predicate IsSegment(s: Segment) {
    if s.Shift? then s.start <= s.end else s.glyphs != [] && s.start + |s.glyphs| <= 0x1_0000
  }

  function Last(s: Segment): word
    requires IsSegment(s)
  {
    if s.Shift? then s.end else s.start + |s.glyphs| - 1
  }

  /** What the segment maps c to. */
  function Mapped(s: Segment, c: nat): nat
    requires IsSegment(s) && s.start <= c <= Last(s)
  {
    if s.Shift? then (c + s.delta) % 0x1_0000 else s.glyphs[c - s.start]
  }

  type segments = ss: seq<Segment> | forall i :: 0 <= i < |ss| ==> IsSegment(ss[i])

  /** The glyph lists of the first n segments. */
  function Glyphs(ss: segments, n: nat): seq<word>
    requires n <= |ss|
  {
    if n == 0 then [] else Glyphs(ss, n - 1) + if ss[n - 1].List? then ss[n - 1].glyphs else []
  }

  /** From the offset's own place to the segment's first glyph. */
  function Offset(ss: segments, s: nat): nat
    requires s < |ss|
  {
    if ss[s].List? then 2 * (|ss| - s) + 2 * |Glyphs(ss, s)| else 0
  }

  /** In order, the last one up to 0xFFFF; and all offsets can be written. */
  ghost predicate InOrder(ss: segments) {
    && ss != [] && 2 * |ss| < 0x1_0000 && Last(ss[|ss| - 1]) == 0xFFFF
    && (forall s :: 0 < s < |ss| ==> Last(ss[s - 1]) < ss[s].start)
    && (forall s :: 0 <= s < |ss| ==> Offset(ss, s) < 0x1_0000)
  }

  function Ends(ss: segments): (r: seq<word>)
    ensures |r| == |ss| && forall i :: 0 <= i < |ss| ==> r[i] == Last(ss[i])
  {
    seq(|ss|, i requires 0 <= i < |ss| => Last(ss[i]))
  }

  function Starts(ss: segments): (r: seq<word>)
    ensures |r| == |ss| && forall i :: 0 <= i < |ss| ==> r[i] == ss[i].start
  {
    seq(|ss|, i requires 0 <= i < |ss| => ss[i].start)
  }

  function Deltas(ss: segments): (r: seq<word>)
    ensures |r| == |ss| && forall i :: 0 <= i < |ss| ==> r[i] == if ss[i].Shift? then ss[i].delta else 0
  {
    seq(|ss|, i requires 0 <= i < |ss| => if ss[i].Shift? then ss[i].delta else 0)
  }

  ghost function Offsets(ss: segments): (r: seq<word>)
    requires InOrder(ss)
    ensures |r| == |ss| && forall i :: 0 <= i < |ss| ==> r[i] == Offset(ss, i)
  {
    seq(|ss|, i requires 0 <= i < |ss| => Offset(ss, i))
  }

  /** The greatest power of two that is at most n, as an exponent. */
  predicate IsSelector(n: nat, selector: nat) { Pow2(selector) <= n < 2 * Pow2(selector) && selector < 0x1_0000 }

  /** The subtable. */
  ghost function Table4(ss: segments, selector: nat, length: word, language: word): seq<word>
    requires InOrder(ss) && IsSelector(|ss|, selector)
  {
    var n := |ss|;
    [4, length, language, 2 * n, 2 * Pow2(selector), selector, 2 * (n - Pow2(selector))] +
    Ends(ss) + [0] + Starts(ss) + Deltas(ss) + Offsets(ss) + Glyphs(ss, n)
  }

  lemma TableWords(ss: segments, selector: nat, length: word, language: word, s: nat)
    requires InOrder(ss) && IsSelector(|ss|, selector) && s < |ss|
    ensures var t, n := Table4(ss, selector, length, language), |ss|;
            && |t| == 8 + 4 * n + |Glyphs(ss, n)|
            && t[3] == 2 * n && t[4] == 2 * Pow2(selector) && t[5] == selector && t[6] == 2 * (n - Pow2(selector))
            && t[7 + s] == Last(ss[s]) && t[8 + n + s] == ss[s].start
            && t[8 + 2 * n + s] == (if ss[s].Shift? then ss[s].delta else 0) && t[8 + 3 * n + s] == Offset(ss, s)
            && forall k :: 0 <= k < |Glyphs(ss, n)| ==> t[8 + 4 * n + k] == Glyphs(ss, n)[k]
  {
    hide Glyphs, Offset, Last, InOrder, Pow2;
  }

  /** The list of segment s begins behind those of the segments before it. */
  lemma {:induction false} GlyphPlace(ss: segments, n: nat, s: nat, k: nat)
    requires s < n <= |ss| && ss[s].List? && k < |ss[s].glyphs|
    ensures |Glyphs(ss, s)| + k < |Glyphs(ss, n)| && Glyphs(ss, n)[|Glyphs(ss, s)| + k] == ss[s].glyphs[k]
    decreases n
  {
    if s < n - 1 { GlyphPlace(ss, n - 1, s, k); }
  }

  // ----- reading the table

  /** A table that has been written for these segments. */
  ghost predicate IsTable4(data: seq<byte>, base: nat, ss: segments, selector: nat, length: word, language: word) {
    InOrder(ss) && IsSelector(|ss|, selector) && TableAt(data, base, Table4(ss, selector, length, language))
  }

  lemma SegmentWords(data: seq<byte>, base: nat, ss: segments, selector: nat, length: word, language: word, s: nat)
    requires IsTable4(data, base, ss, selector, length, language) && s < |ss|
    ensures var n := |ss|;
            && base + 16 + 8 * n <= |data| && EndCode(data, base, s) == Last(ss[s])
            && U16(data, StartAt(base, n, s)) == ss[s].start && U16(data, RangeAt(base, n, s)) == Offset(ss, s)
            && U16(data, DeltaAt(base, n, s)) == if ss[s].Shift? then ss[s].delta else 0
  {
    hide U16, Glyphs, Table4, InOrder, IsSelector, TableAt, Offset, Last;
    var n, t := |ss|, Table4(ss, selector, length, language);
    TableWords(ss, selector, length, language, s);
    WordRead(data, base, t, 7 + s);
    WordRead(data, base, t, 8 + n + s);
    WordRead(data, base, t, 8 + 2 * n + s);
    WordRead(data, base, t, 8 + 3 * n + s);
    assert base + 2 * |t| <= |data| by { TableEnd(data, base, t); }
  }

  lemma TableEnd(data: seq<byte>, base: nat, words: seq<word>)
    requires TableAt(data, base, words)
    ensures base + 2 * |words| <= |data|
  {
  }

  lemma HeaderWords(data: seq<byte>, base: nat, ss: segments, selector: nat, length: word, language: word)
    requires IsTable4(data, base, ss, selector, length, language)
    ensures base + 16 + 8 * |ss| <= |data| && U16(data, base + 6) == 2 * |ss|
    ensures U16(data, base + 8) == 2 * Pow2(selector) && U16(data, base + 10) == selector
    ensures U16(data, base + 12) == 2 * (|ss| - Pow2(selector))
  {
    hide U16, Glyphs, Table4, TableAt, Offset, Last, Pow2;
    var t := Table4(ss, selector, length, language);
    TableWords(ss, selector, length, language, 0);
    TableEnd(data, base, t);
    WordRead(data, base, t, 3);
    WordRead(data, base, t, 4);
    WordRead(data, base, t, 5);
    WordRead(data, base, t, 6);
  }

  lemma IsFormat4(data: seq<byte>, base: nat, ss: segments, selector: nat, length: word, language: word)
    requires IsTable4(data, base, ss, selector, length, language)
    ensures Format4(data, base, |ss|, selector)
  {
    hide U16, TableAt, Table4, Offset;
    HeaderWords(data, base, ss, selector, length, language);
    forall s | 0 <= s < |ss|
      ensures EndCode(data, base, s) == Last(ss[s])
    {
      SegmentWords(data, base, ss, selector, length, language, s);
    }
    forall s | 0 < s < |ss|
      ensures EndCode(data, base, s - 1) < EndCode(data, base, s)
    {
      assert Last(ss[s - 1]) < ss[s].start;
    }
  }

  /** A segment's glyph offset leads to its own glyphs. */
  lemma GlyphRead(data: seq<byte>, base: nat, ss: segments, selector: nat, length: word, language: word, s: nat, c: nat)
    requires IsTable4(data, base, ss, selector, length, language)
    requires s < |ss| && ss[s].List? && ss[s].start <= c <= Last(ss[s])
    ensures base + 16 + 8 * |ss| <= |data| && GlyphAt(data, base, |ss|, s, c) + 2 <= |data|
    ensures var at := GlyphAt(data, base, |ss|, s, c); at >= 0 && U16(data, at) == ss[s].glyphs[c - ss[s].start]
  {
    hide U16, Glyphs, Table4, InOrder, IsSelector, TableAt;
    var n, t, k := |ss|, Table4(ss, selector, length, language), |Glyphs(ss, s)| + (c - ss[s].start);
    SegmentWords(data, base, ss, selector, length, language, s);
    GlyphPlace(ss, n, s, c - ss[s].start);
    TableWords(ss, selector, length, language, s);
    TableEnd(data, base, t);
    WordRead(data, base, t, 8 + 4 * n + k);
    assert GlyphAt(data, base, n, s, c) == base + 2 * (8 + 4 * n + k);
  }

  lemma AllGlyphsInside(data: seq<byte>, base: nat, ss: segments, selector: nat, length: word, language: word)
    requires IsTable4(data, base, ss, selector, length, language)
    ensures base + 16 + 8 * |ss| <= |data| && GlyphsInside(data, base, |ss|)
  {
    hide U16, Table4, TableAt, IsSelector, GlyphAt, InOrder;
    HeaderWords(data, base, ss, selector, length, language);
    forall s, c: nat | 0 <= s < |ss| && U16(data, RangeAt(base, |ss|, s)) != 0 &&
                       U16(data, StartAt(base, |ss|, s)) <= c <= EndCode(data, base, s)
      ensures GlyphAt(data, base, |ss|, s, c) + 2 <= |data|
    {
      SegmentWords(data, base, ss, selector, length, language, s);
      GlyphRead(data, base, ss, selector, length, language, s, c);
    }
  }

  /** The scan finds the segment of a code point, and what it maps it to. */
  lemma SegmentFound(data: seq<byte>, base: nat, ss: segments, selector: nat, length: word, language: word, s: nat,
                     c: nat)
    requires IsTable4(data, base, ss, selector, length, language) && base + 16 + 8 * |ss| <= |data|
    requires GlyphsInside(data, base, |ss|) && s < |ss| && ss[s].start <= c <= Last(ss[s])
    ensures ScannedGlyph4(data, base, |ss|, c) == Mapped(ss[s], c)
  {
    hide U16, TableAt, Table4, GlyphAt, GlyphsInside, EndCode;
    var first := FirstSegment(data, base, |ss|, c, 0);
    SegmentWords(data, base, ss, selector, length, language, s);
    if first < s {
      SegmentWords(data, base, ss, selector, length, language, first);
      LastsIncrease(ss, first, s);
    }
    assert first == s;
    if ss[s].List? {
      GlyphRead(data, base, ss, selector, length, language, s, c);
    } else {
      AddWord(c, ss[s].delta);
    }
  }

  lemma {:induction false} LastsIncrease(ss: segments, i: nat, j: nat)
    requires InOrder(ss) && i < j < |ss|
    ensures Last(ss[i]) < ss[j].start
    decreases j
  {
    hide Offset;
    if i < j - 1 { LastsIncrease(ss, i, j - 1); }
  }

  /** A difference of 16 bits may as well be taken as signed. */
  lemma AddWord(c: nat, delta: word)
    ensures (c + delta) % 0x1_0000 == (c + if delta < 0x8000 then delta else delta - 0x1_0000) % 0x1_0000
  {
  }

  /** Code points of no segment have no glyph. */
  lemma NoneFound(data: seq<byte>, base: nat, ss: segments, selector: nat, length: word, language: word, c: nat)
    requires IsTable4(data, base, ss, selector, length, language) && base + 16 + 8 * |ss| <= |data|
    requires GlyphsInside(data, base, |ss|) && forall s :: 0 <= s < |ss| ==> !(ss[s].start <= c <= Last(ss[s]))
    ensures ScannedGlyph4(data, base, |ss|, c) == 0
  {
    hide U16, TableAt, Table4, GlyphAt, GlyphsInside, EndCode;
    var first := FirstSegment(data, base, |ss|, c, 0);
    if first < |ss| { SegmentWords(data, base, ss, selector, length, language, first); }
  }

  /** Looking up a code point in the table that was written gives what its segment maps it to. */
  method FindWritten4(data: seq<byte>, base: nat, c: nat, ghost ss: segments, ghost selector: nat, ghost length: word,
                      ghost language: word) returns (glyph: nat)
    requires IsTable4(data, base, ss, selector, length, language)
    ensures forall s :: 0 <= s < |ss| && ss[s].start <= c <= Last(ss[s]) ==> glyph == Mapped(ss[s], c)
    ensures (forall s :: 0 <= s < |ss| ==> !(ss[s].start <= c <= Last(ss[s]))) ==> glyph == 0
  {
    hide Format4, GlyphsInside, ScannedGlyph4, Mapped, Last, IsTable4;
    IsFormat4(data, base, ss, selector, length, language);
    AllGlyphsInside(data, base, ss, selector, length, language);
    forall s | 0 <= s < |ss| && ss[s].start <= c <= Last(ss[s])
      ensures ScannedGlyph4(data, base, |ss|, c) == Mapped(ss[s], c)
    {
      SegmentFound(data, base, ss, selector, length, language, s, c);
    }
    if forall s :: 0 <= s < |ss| ==> !(ss[s].start <= c <= Last(ss[s])) {
      NoneFound(data, base, ss, selector, length, language, c);
    }
    glyph := FindGlyph4(data, base, c, |ss|, selector);
  }

  // ----- format 12

  /** A number of 32 bits, as two words. */
  type long = n: nat | n < 0x1_0000_0000

  function Long(n: long): (r: seq<word>)
    ensures |r| == 2
  {
    [n / 0x1_0000, n % 0x1_0000]
  }

  /** Code points that are mapped one after the other; in format 13, all to one glyph. */
  datatype Group = Group(start: long, end: long, glyph: long)

  ghost predicate GroupsInOrder(gs: seq<Group>) {
    && |gs| < 0x8000_0000 && (forall g :: 0 <= g < |gs| ==> gs[g].start <= gs[g].end)
    && forall g :: 0 < g < |gs| ==> gs[g - 1].end < gs[g].start
  }

  function GroupWords(gs: seq<Group>): (r: seq<word>)
    ensures |r| == 6 * |gs|
  {
    if gs == [] then []
    else
      var g := gs[|gs| - 1];
      GroupWords(gs[..|gs| - 1]) + (Long(g.start) + Long(g.end) + Long(g.glyph))
  }

  /** The subtable. */
  function Table12(format: word, gs: seq<Group>, length: long, language: long): seq<word>
    requires |gs| < 0x8000_0000
  {
    [format, 0] + Long(length) + Long(language) + Long(|gs|) + GroupWords(gs)
  }

  lemma {:induction false} GroupWordsAt(gs: seq<Group>, g: nat)
    requires g < |gs|
    ensures GroupWords(gs)[6 * g..6 * g + 6] == Long(gs[g].start) + Long(gs[g].end) + Long(gs[g].glyph)
    decreases |gs|
  {
    hide Long;
    var n := |gs| - 1;
    if g < n {
      GroupWordsAt(gs[..n], g);
      assert GroupWords(gs)[6 * g..6 * g + 6] == GroupWords(gs[..n])[6 * g..6 * g + 6];
    }
  }

  lemma LongRead(data: seq<byte>, base: nat, words: seq<word>, k: nat, n: long)
    requires TableAt(data, base, words) && k + 2 <= |words| && words[k..k + 2] == Long(n)
    ensures base + 2 * k + 4 <= |data| && U32(data, base + 2 * k) == n
  {
    assert words[k..k + 2][0] == words[k] && words[k..k + 2][1] == words[k + 1];
    WordRead(data, base, words, k);
    WordRead(data, base, words, k + 1);
  }

  ghost predicate IsTable12(data: seq<byte>, base: nat, format: word, gs: seq<Group>, length: long, language: long) {
    GroupsInOrder(gs) && TableAt(data, base, Table12(format, gs, length, language))
  }

  lemma GroupRead(data: seq<byte>, base: nat, format: word, gs: seq<Group>, length: long, language: long, g: nat)
    requires IsTable12(data, base, format, gs, length, language) && g < |gs|
    ensures base + 16 + 12 * |gs| <= |data|
    ensures StartChar(data, base, g) == gs[g].start && EndChar(data, base, g) == gs[g].end
    ensures U32(data, base + 16 + g * 12 + 8) == gs[g].glyph
  {
    hide U32, Long, GroupWords;
    var t, k := Table12(format, gs, length, language), 8 + 6 * g;
    GroupWordsAt(gs, g);
    var six := Long(gs[g].start) + Long(gs[g].end) + Long(gs[g].glyph);
    assert t[8..] == GroupWords(gs);
    assert t[k..k + 6] == t[8..][6 * g..6 * g + 6] == six;
    assert t[k..k + 2] == t[k..k + 6][..2] == six[..2];
    assert t[k + 2..k + 4] == t[k..k + 6][2..4] == six[2..4];
    assert t[k + 4..k + 6] == t[k..k + 6][4..] == six[4..];
    LongRead(data, base, t, k, gs[g].start);
    LongRead(data, base, t, k + 2, gs[g].end);
    LongRead(data, base, t, k + 4, gs[g].glyph);
  }

  lemma AreGroups(data: seq<byte>, base: nat, format: word, gs: seq<Group>, length: long, language: long)
    requires IsTable12(data, base, format, gs, length, language)
    ensures Groups(data, base, |gs|)
  {
    hide U32, Long, StartChar, EndChar;
    var t := Table12(format, gs, length, language);
    assert t[6..8] == Long(|gs|);
    LongRead(data, base, t, 6, |gs|);
    forall g | 0 <= g < |gs|
      ensures StartChar(data, base, g) == gs[g].start && EndChar(data, base, g) == gs[g].end
    {
      GroupRead(data, base, format, gs, length, language, g);
    }
  }

  /** Looking up a code point gives the group's glyph and, in format 12, one more for each code point. */
  method FindWritten12(data: seq<byte>, base: nat, c: nat, format: word, ghost gs: seq<Group>, ghost length: long,
                       ghost language: long) returns (glyph: nat)
    requires IsTable12(data, base, format, gs, length, language)
    ensures forall g :: 0 <= g < |gs| && gs[g].start <= c <= gs[g].end ==>
              glyph == if format == 12 then (gs[g].glyph + (c - gs[g].start)) % 0x1_0000_0000 else gs[g].glyph
    ensures (forall g :: 0 <= g < |gs| ==> !(gs[g].start <= c <= gs[g].end)) ==> glyph == 0
  {
    hide U32, StartChar, EndChar, IsTable12, Groups;
    AreGroups(data, base, format, gs, length, language);
    forall g | 0 <= g < |gs|
      ensures base + 16 + 12 * |gs| <= |data| && (InGroup(data, base, g, c) <==> gs[g].start <= c <= gs[g].end)
      ensures U32(data, base + 16 + g * 12 + 8) == gs[g].glyph && StartChar(data, base, g) == gs[g].start
      ensures InGroup(data, base, g, c) ==> FirstGroup(data, base, |gs|, c, 0) == g
    {
      GroupRead(data, base, format, gs, length, language, g);
      GroupSide(data, base, |gs|, c, g);
    }
    glyph := FindGlyph12(data, base, c, format, |gs|);
  }
}
