/**
 stbtt_FindGlyphIndex: the searches through the character map of a font, on the
 table's bytes, against scans for the first matching segment or group.
 */
module Cmap {
  import opened Bits

  function U16(data: seq<byte>, at: nat): (r: nat)
    requires at + 2 <= |data|
    ensures r < 0x1_0000
  {
    data[at] as nat * 256 + data[at + 1]
  }

  function I16(data: seq<byte>, at: nat): int
    requires at + 2 <= |data|
  {
    if U16(data, at) < 0x8000 then U16(data, at) else U16(data, at) - 0x1_0000
  }

  function U32(data: seq<byte>, at: nat): (r: nat)
    requires at + 4 <= |data|
    ensures r < 0x1_0000_0000
  {
    U16(data, at) * 0x1_0000 + U16(data, at + 2)
  }

  // ----- format 4: segments

  function EndCode(data: seq<byte>, base: nat, s: nat): nat
    requires base + 14 + 2 * s + 2 <= |data|
  {
    U16(data, base + 14 + 2 * s)
  }

  /** The first segment from s on that ends at c or later, or n. */
  ghost function FirstSegment(data: seq<byte>, base: nat, n: nat, c: int, s: nat): (r: nat)
    requires s <= n && base + 14 + 2 * n <= |data|
    ensures s <= r <= n && (r < n ==> c <= EndCode(data, base, r))
    ensures forall k :: s <= k < r ==> EndCode(data, base, k) < c
    decreases n - s
  {
    if s == n || c <= EndCode(data, base, s) then s else FirstSegment(data, base, n, c, s + 1)
  }

  /** A format 4 table of n segments whose header is as the OpenType specification defines it. */
  ghost predicate Format4(data: seq<byte>, base: nat, n: nat, selector: nat) {
    && n > 0 && base + 16 + 8 * n <= |data|
    && U16(data, base + 6) == 2 * n
    && U16(data, base + 8) == 2 * Pow2(selector) && Pow2(selector) <= n < 2 * Pow2(selector)
    && U16(data, base + 10) == selector
    && U16(data, base + 12) == 2 * (n - Pow2(selector))
    && (forall s :: 0 < s < n ==> EndCode(data, base, s - 1) < EndCode(data, base, s))
    && EndCode(data, base, n - 1) == 0xFFFF
  }

  function StartAt(base: nat, n: nat, s: nat): nat { base + 16 + 2 * n + 2 * s }

  function DeltaAt(base: nat, n: nat, s: nat): nat { base + 16 + 4 * n + 2 * s }

  function RangeAt(base: nat, n: nat, s: nat): nat { base + 16 + 6 * n + 2 * s }

  /** Segments that point into the glyph array point to places inside the data. */
  ghost predicate GlyphsInside(data: seq<byte>, base: nat, n: nat)
    requires base + 16 + 8 * n <= |data|
  {
    forall s :: 0 <= s < n && U16(data, RangeAt(base, n, s)) != 0 ==>
      forall c: nat :: U16(data, StartAt(base, n, s)) <= c <= EndCode(data, base, s) ==>
        GlyphAt(data, base, n, s, c) + 2 <= |data|
  }

  function GlyphAt(data: seq<byte>, base: nat, n: nat, s: nat, c: nat): int
    requires s < n && base + 16 + 8 * n <= |data|
  {
    U16(data, RangeAt(base, n, s)) + (c - U16(data, StartAt(base, n, s))) * 2 + RangeAt(base, n, s)
  }

  /** The glyph of c in segment s, as the decoder reads it. */
  ghost function SegmentGlyph(data: seq<byte>, base: nat, n: nat, s: nat, c: nat): nat
    requires s < n && base + 16 + 8 * n <= |data| && GlyphsInside(data, base, n)
  {
    if c < U16(data, StartAt(base, n, s)) || c > EndCode(data, base, s) then 0
    else if U16(data, RangeAt(base, n, s)) == 0 then (c + I16(data, DeltaAt(base, n, s))) % 0x1_0000
    else U16(data, GlyphAt(data, base, n, s, c))
  }

  /** The glyph of c by a linear scan for its segment. */
  ghost function ScannedGlyph4(data: seq<byte>, base: nat, n: nat, c: nat): nat
    requires base + 16 + 8 * n <= |data| && GlyphsInside(data, base, n)
  {
    var s := FirstSegment(data, base, n, c, 0);
    if s == n then 0 else SegmentGlyph(data, base, n, s, c)
  }

  lemma {:induction false} EndsIncrease(data: seq<byte>, base: nat, n: nat, selector: nat, s: nat, t: nat)
    requires Format4(data, base, n, selector) && s <= t < n
    ensures EndCode(data, base, s) <= EndCode(data, base, t)
    decreases t
  {
    if s < t { EndsIncrease(data, base, n, selector, s, t - 1); }
  }

  /** One comparison places the segment looked for on one side. */
  lemma SegmentSide(data: seq<byte>, base: nat, n: nat, selector: nat, c: nat, s: nat)
    requires Format4(data, base, n, selector) && s < n && c <= 0xFFFF
    ensures var first := FirstSegment(data, base, n, c, 0);
            first < n && (c > EndCode(data, base, s) <==> s < first)
  {
    var first := FirstSegment(data, base, n, c, 0);
    if first <= s { EndsIncrease(data, base, n, selector, first, s); }
  }

  /** The search by halves lands on the first segment that ends at c or later. */
  method FindSegment(data: seq<byte>, base: nat, c: nat, ghost n: nat, ghost selector: nat) returns (item: nat)
    requires Format4(data, base, n, selector) && c <= 0xFFFF
    ensures item == FirstSegment(data, base, n, c, 0) && item < n
  {
    hide Format4, FirstSegment;
    FormatFacts(data, base, n, selector);
    var searchRange, entrySelector, rangeShift := U16(data, base + 8) / 2, U16(data, base + 10),
      U16(data, base + 12) / 2;
    var endCount := base + 14;
    var search: int := endCount;
    ghost var first := FirstSegment(data, base, n, c, 0);
    SegmentSide(data, base, n, selector, c, rangeShift);
    if c >= U16(data, search + rangeShift * 2) {
      BeforeEnd(data, base, n, selector, c, rangeShift);
      search := search + rangeShift * 2;
    }
    search := search - 2;
    ghost var s := if search == endCount - 2 then -1 else rangeShift - 1;
    while entrySelector != 0
      invariant searchRange == Pow2(entrySelector) && search == endCount + 2 * s
      invariant -1 <= s < first <= s + searchRange < n
      decreases entrySelector
    {
      assert Pow2(entrySelector) == 2 * Pow2(entrySelector - 1);
      searchRange := searchRange / 2;
      SegmentSide(data, base, n, selector, c, s + searchRange);
      var end := U16(data, search + searchRange * 2);
      if c > end {
        search := search + searchRange * 2;
        s := s + searchRange;
      }
      entrySelector := entrySelector - 1;
    }
    search := search + 2;
    item := (search - endCount) / 2;
  }

  lemma FormatFacts(data: seq<byte>, base: nat, n: nat, selector: nat)
    requires Format4(data, base, n, selector)
    ensures n > 0 && base + 16 + 8 * n <= |data| && U16(data, base + 6) == 2 * n
    ensures U16(data, base + 8) / 2 == Pow2(selector) && U16(data, base + 10) == selector &&
        Pow2(selector) <= n < 2 * Pow2(selector)
    ensures U16(data, base + 12) / 2 == n - Pow2(selector) < n
  {
  }

  /** A segment that ends at c or earlier is not behind the one looked for. */
  lemma BeforeEnd(data: seq<byte>, base: nat, n: nat, selector: nat, c: nat, s: nat)
    requires Format4(data, base, n, selector) && s < n && c <= 0xFFFF && c >= EndCode(data, base, s)
    ensures s <= FirstSegment(data, base, n, c, 0)
  {
    var first := FirstSegment(data, base, n, c, 0);
    assert s > 0 ==> EndCode(data, base, s - 1) < EndCode(data, base, s);
    if first < s { EndsIncrease(data, base, n, selector, first, s - 1); }
  }

  /**
   The glyph as the OpenType specification has it: idDelta is also added to a
   glyph found in the glyph array, unless that is 0.
   */
  ghost function StandardGlyph(data: seq<byte>, base: nat, n: nat, s: nat, c: nat): nat
    requires s < n && base + 16 + 8 * n <= |data| && GlyphsInside(data, base, n)
  {
    var delta := I16(data, DeltaAt(base, n, s));
    if c < U16(data, StartAt(base, n, s)) || c > EndCode(data, base, s) then 0
    else if U16(data, RangeAt(base, n, s)) == 0 then (c + delta) % 0x1_0000
    else
      var g := U16(data, GlyphAt(data, base, n, s, c));
      if g == 0 then 0 else (g + delta) % 0x1_0000
  }

  /** The glyph of c in the specification: that of the first segment that ends at c or later. */
  ghost function StandardGlyph4(data: seq<byte>, base: nat, n: nat, c: nat): nat
    requires base + 16 + 8 * n <= |data| && GlyphsInside(data, base, n)
  {
    var s := FirstSegment(data, base, n, c, 0);
    if s == n then 0 else StandardGlyph(data, base, n, s, c)
  }

  /** The segment of c finds it in the glyph array, as a glyph other than 0, and has an idDelta. */
  ghost predicate DeltaMissed(data: seq<byte>, base: nat, n: nat, c: nat)
    requires base + 16 + 8 * n <= |data| && GlyphsInside(data, base, n)
  {
    var s := FirstSegment(data, base, n, c, 0);
    && s < n && c >= U16(data, StartAt(base, n, s)) && U16(data, RangeAt(base, n, s)) != 0
    && U16(data, GlyphAt(data, base, n, s, c)) != 0 && U16(data, DeltaAt(base, n, s)) != 0
  }

  /** The decoder leaves idDelta out of glyphs from the glyph array, so it agrees exactly where that plays no role. */
  lemma GlyphIsStandard(data: seq<byte>, base: nat, n: nat, c: nat)
    requires base + 16 + 8 * n <= |data| && GlyphsInside(data, base, n)
    ensures ScannedGlyph4(data, base, n, c) == StandardGlyph4(data, base, n, c) <==> !DeltaMissed(data, base, n, c)
  {
    var s := FirstSegment(data, base, n, c, 0);
    if s < n && c >= U16(data, StartAt(base, n, s)) && U16(data, RangeAt(base, n, s)) != 0 {
      Shifted(U16(data, GlyphAt(data, base, n, s, c)), U16(data, DeltaAt(base, n, s)));
    }
  }

  lemma Shifted(g: nat, d: nat)
    requires g < 0x1_0000 && d < 0x1_0000
    ensures (g + if d < 0x8000 then d else d - 0x1_0000) % 0x1_0000 == g <==> d == 0
  {
    var r := g + if d < 0x8000 then d else d - 0x1_0000;
    assert r % 0x1_0000 == if r < 0 then r + 0x1_0000 else if r >= 0x1_0000 then r - 0x1_0000 else r;
  }

  /** Format 4 agrees with the linear scan for every code point, and with the specification unless idDelta is missed. */
  method FindGlyph4(data: seq<byte>, base: nat, c: nat, ghost n: nat, ghost selector: nat) returns (glyph: nat)
    requires Format4(data, base, n, selector) && GlyphsInside(data, base, n)
    ensures glyph == ScannedGlyph4(data, base, n, c)
    ensures glyph == StandardGlyph4(data, base, n, c) <==> !DeltaMissed(data, base, n, c)
  {
    hide Format4;
    FormatFacts(data, base, n, selector);
    GlyphIsStandard(data, base, n, c);
    var segcount := U16(data, base + 6) / 2;
    if c > 0xffff {
      PastAll(data, base, n, c);
      return 0;
    }
    var item := FindSegment(data, base, c, n, selector);
    var start, last := U16(data, base + 14 + segcount * 2 + 2 + 2 * item), U16(data, base + 14 + 2 * item);
    if c < start || c > last { return 0; }
    var offset := U16(data, base + 14 + segcount * 6 + 2 + 2 * item);
    if offset == 0 {
      return (c + I16(data, base + 14 + segcount * 4 + 2 + 2 * item)) % 0x1_0000;
    }
    assert GlyphAt(data, base, n, item, c) + 2 <= |data|;
    return U16(data, offset + (c - start) * 2 + base + 14 + segcount * 6 + 2 + 2 * item);
  }

  lemma PastAll(data: seq<byte>, base: nat, n: nat, c: nat)
    requires base + 16 + 8 * n <= |data| && c > 0xFFFF
    ensures FirstSegment(data, base, n, c, 0) == n
  {
    EndBound(data, base, n);
  }

  lemma EndBound(data: seq<byte>, base: nat, n: nat)
    requires base + 16 + 8 * n <= |data|
    ensures forall s :: 0 <= s < n ==> EndCode(data, base, s) <= 0xFFFF
  {
  }

  /** A format 4 table with one segment for the code point 0xFFFF, idDelta 1 and the entry 7 in the glyph array. */
  ghost predicate ShiftedSegment(data: seq<byte>) {
    && |data| == 26 && U16(data, 0) == 4 && U16(data, 2) == 26
    && U16(data, 6) == 2 && U16(data, 8) == 2 && U16(data, 10) == 0 && U16(data, 12) == 0
    && U16(data, 14) == 0xFFFF && U16(data, 18) == 0xFFFF
    && U16(data, 20) == 1 && U16(data, 22) == 2 && U16(data, 24) == 7
  }

  lemma DeltaLeftOut(data: seq<byte>)
    requires ShiftedSegment(data)
    ensures Format4(data, 0, 1, 0) && GlyphsInside(data, 0, 1)
    ensures ScannedGlyph4(data, 0, 1, 0xFFFF) == 7 && StandardGlyph4(data, 0, 1, 0xFFFF) == 8
  {
    hide U16;
    assert Pow2(0) == 1;
    assert FirstSegment(data, 0, 1, 0xFFFF, 0) == 0;
    assert GlyphAt(data, 0, 1, 0, 0xFFFF) == 24;
  }

  /** The search on that table. */
  method FindShifted() returns (data: seq<byte>, glyph: nat)
    ensures ShiftedSegment(data) && GlyphsInside(data, 0, 1)
    ensures glyph == 7 && StandardGlyph4(data, 0, 1, 0xFFFF) == 8
  {
    hide Format4, GlyphsInside, ScannedGlyph4, StandardGlyph4, DeltaMissed;
    data := [0, 4, 0, 26, 0, 0, 0, 2, 0, 2, 0, 0, 0, 0, 255, 255, 0, 0, 255, 255, 0, 1, 0, 2, 0, 7];
    DeltaLeftOut(data);
    glyph := FindGlyph4(data, 0, 0xFFFF, 1, 0);
  }

  // ----- formats 12 and 13: groups

  function StartChar(data: seq<byte>, base: nat, g: nat): nat
    requires base + 16 + 12 * g + 12 <= |data|
  {
    U32(data, base + 16 + g * 12)
  }

  function EndChar(data: seq<byte>, base: nat, g: nat): nat
    requires base + 16 + 12 * g + 12 <= |data|
  {
    U32(data, base + 16 + g * 12 + 4)
  }

  /** n groups in order, none overlapping the next. */
  ghost predicate Groups(data: seq<byte>, base: nat, n: nat) {
    && base + 16 + 12 * n <= |data| && U32(data, base + 12) == n && n < 0x8000_0000
    && (forall g :: 0 <= g < n ==> StartChar(data, base, g) <= EndChar(data, base, g))
    && (forall g :: 0 < g < n ==> EndChar(data, base, g - 1) < StartChar(data, base, g))
  }

  ghost predicate InGroup(data: seq<byte>, base: nat, g: nat, c: nat)
    requires base + 16 + 12 * g + 12 <= |data|
  {
    StartChar(data, base, g) <= c <= EndChar(data, base, g)
  }

  /** The first group from g on that contains c, or n. */
  ghost function FirstGroup(data: seq<byte>, base: nat, n: nat, c: nat, g: nat): (r: nat)
    requires g <= n && base + 16 + 12 * n <= |data|
    ensures g <= r <= n && (r < n ==> InGroup(data, base, r, c))
    ensures forall k :: g <= k < r ==> !InGroup(data, base, k, c)
    decreases n - g
  {
    if g == n || InGroup(data, base, g, c) then g else FirstGroup(data, base, n, c, g + 1)
  }

  /** The glyph of c by a linear scan, in the decoder's 32-bit arithmetic. */
  ghost function ScannedGlyph12(data: seq<byte>, base: nat, n: nat, c: nat, format: nat): nat
    requires base + 16 + 12 * n <= |data|
  {
    var g := FirstGroup(data, base, n, c, 0);
    if g == n then 0
    else
      var glyph := U32(data, base + 16 + g * 12 + 8);
      if format == 12 then (glyph + c - StartChar(data, base, g)) % 0x1_0000_0000 else glyph
  }

  lemma {:induction false} GroupsIncrease(data: seq<byte>, base: nat, n: nat, g: nat, h: nat)
    requires Groups(data, base, n) && g < h < n
    ensures EndChar(data, base, g) < StartChar(data, base, h)
    decreases h
  {
    if g < h - 1 { GroupsIncrease(data, base, n, g, h - 1); }
  }

  /** A group on one side of c rules out all groups on that side. */
  lemma GroupSide(data: seq<byte>, base: nat, n: nat, c: nat, g: nat)
    requires Groups(data, base, n) && g < n
    ensures c < StartChar(data, base, g) ==> forall k :: g <= k < n ==> !InGroup(data, base, k, c)
    ensures c > EndChar(data, base, g) ==> forall k :: 0 <= k <= g ==> !InGroup(data, base, k, c)
    ensures InGroup(data, base, g, c) ==> FirstGroup(data, base, n, c, 0) == g
  {
    forall k | 0 <= k < n
      ensures k < g ==> EndChar(data, base, k) < StartChar(data, base, g)
      ensures g < k ==> EndChar(data, base, g) < StartChar(data, base, k)
    {
      if k < g { GroupsIncrease(data, base, n, k, g); }
      if g < k { GroupsIncrease(data, base, n, g, k); }
    }
    var first := FirstGroup(data, base, n, c, 0);
    assert first < n && first != g ==> InGroup(data, base, first, c);
  }

  /** Formats 12 and 13 agree with the linear scan, for every code point. */
  method FindGlyph12(data: seq<byte>, base: nat, c: nat, format: nat, ghost n: nat) returns (glyph: nat)
    requires Groups(data, base, n)
    ensures glyph == ScannedGlyph12(data, base, n, c, format)
  {
    hide InGroup, FirstGroup;
    var ngroups := U32(data, base + 12);
    var low: nat, high: nat := 0, ngroups;
    ghost var first := FirstGroup(data, base, n, c, 0);
    while low < high
      invariant high <= n && (first < n ==> low <= first < high)
    {
      var mid := low + (high - low) / 2;
      GroupSide(data, base, n, c, mid);
      var start_char, end_char := U32(data, base + 16 + mid * 12), U32(data, base + 16 + mid * 12 + 4);
      if c < start_char {
        high := mid;
      } else if c > end_char {
        low := mid + 1;
      } else {
        InGroupIs(data, base, mid, c);
        var start_glyph := U32(data, base + 16 + mid * 12 + 8);
        if format == 12 { return (start_glyph + c - start_char) % 0x1_0000_0000; }
        return start_glyph;
      }
    }
    return 0;
  }

  lemma InGroupIs(data: seq<byte>, base: nat, g: nat, c: nat)
    requires base + 16 + 12 * g + 12 <= |data|
    ensures InGroup(data, base, g, c) <==> StartChar(data, base, g) <= c <= EndChar(data, base, g)
  {
  }
}
