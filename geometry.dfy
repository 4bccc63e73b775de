/** Geometry helpers (geometry.py and the copies in build.py): has_glyph,
    the per-glyph bake (conditional scale, conditional vertical shift, width
    rounded half to even) and the whole-font transform. Floating-point values
    are modelled as reals. */
module Geometry {
  import opened Wrappers
  import opened FontData
  import opened FontModel
  import opened CidSlots

  // ---------------------------------------------------------------------
  // has_glyph
  // ---------------------------------------------------------------------

  /** has_glyph once find_slot has answered slot: the slot is not -1, a
      glyph sits in it, and that glyph is worth outputting. */
  predicate HasGlyphAt(sf: Subfont, slot: int)
  {
    slot != -1 && Worth(sf.glyphs, SlotIndex(sf.glyphs, slot))
  }

  /** has_glyph on slot space sf of a font with `count` subfonts, with
      find_slot answering from the glyphs as they are. */
  predicate HasGlyphIn(sf: Subfont, count: nat, u: int)
  {
    HasGlyphAt(sf, SlotOf(sf, count, u))
  }

  /** has_glyph(font, u); never raises. It answers through the map
      find_slot consults, and with a cache that matches the glyphs that is
      the map of the glyphs as they are. */
  method HasGlyph(cache: SlotCache, font: Font, u: int) returns (b: bool)
    requires font.Valid()
    modifies cache`slotMaps
    ensures b == HasGlyphAt(font.Current(), MapGet(ConsultedMap(font.Current(), font.Count(), old(CachedEntry(cache, font))), u))
    ensures old(cache.ValidFor(font)) ==> cache.ValidFor(font) && b == HasGlyphIn(font.Current(), font.Count(), u)
  {
    var slot := FindSlot(cache, font, u);
    if slot == -1 {
      return false;
    }
    var k := SlotIndex(font.Glyphs(), slot);
    b := Worth(font.Glyphs(), k);
  }

  /** has_glyph holds exactly when some glyph sits at the slot find_slot
      names, the first glyph there draws, and the slot is not -1. */
  lemma HasGlyphIff(sf: Subfont, count: nat, u: int)
    ensures HasGlyphIn(sf, count, u) <==>
              SlotOf(sf, count, u) != -1 &&
              exists k :: 0 <= k < |sf.glyphs| && sf.glyphs[k].encoding == SlotOf(sf, count, u) &&
                          sf.glyphs[k].drawable &&
                          forall j :: 0 <= j < k ==> sf.glyphs[j].encoding != SlotOf(sf, count, u)
  {
    var slot := SlotOf(sf, count, u);
    var r := SlotIndex(sf.glyphs, slot);
    if slot != -1 && r.Some? && sf.glyphs[r.value].drawable {
      assert sf.glyphs[r.value].encoding == slot;
    }
    if slot != -1 && exists k :: 0 <= k < |sf.glyphs| && sf.glyphs[k].encoding == slot && sf.glyphs[k].drawable &&
                                 forall j :: 0 <= j < k ==> sf.glyphs[j].encoding != slot {
      var k :| 0 <= k < |sf.glyphs| && sf.glyphs[k].encoding == slot && sf.glyphs[k].drawable &&
               forall j :: 0 <= j < k ==> sf.glyphs[j].encoding != slot;
      assert r.Some?;
      assert r.value == k;
    }
  }

  // ---------------------------------------------------------------------
  // Python's round() on a float
  // ---------------------------------------------------------------------

  /** int(round(x)): the nearest integer, ties to the even one. */
  function RoundHalfEven(x: real): (r: int)
    ensures x - 0.5 <= r as real <= x + 0.5
    ensures (r as real == x - 0.5 || r as real == x + 0.5) ==> r % 2 == 0
  {
    var f := x.Floor;
    var d := x - f as real;
    if d < 0.5 then f
    else if d > 0.5 then f + 1
    else if f % 2 == 0 then f
    else f + 1
  }

  /** The two conditions above pin the rounded value down: there is exactly
      one integer within half of x that is even whenever it lies exactly
      half away. */
  lemma RoundHalfEvenUnique(x: real, n: int)
    requires x - 0.5 <= n as real <= x + 0.5
    requires (n as real == x - 0.5 || n as real == x + 0.5) ==> n % 2 == 0
    ensures n == RoundHalfEven(x)
  {
    var r := RoundHalfEven(x);
    assert -1 <= n - r <= 1;
    assert (n - r == 1 || n - r == -1) ==>
             (n as real == x - 0.5 || n as real == x + 0.5) && (r as real == x - 0.5 || r as real == x + 0.5);
  }

  /** The worked values of the width rounding: halves go to the even side. */
  lemma RoundHalfEvenExamples()
    ensures RoundHalfEven(100.5) == 100 && RoundHalfEven(101.5) == 102
    ensures RoundHalfEven(-0.5) == 0 && RoundHalfEven(2.4) == 2 && RoundHalfEven(2.6) == 3
  {
    RoundHalfEvenUnique(100.5, 100);
    RoundHalfEvenUnique(101.5, 102);
    RoundHalfEvenUnique(-0.5, 0);
    RoundHalfEvenUnique(2.4, 2);
    RoundHalfEvenUnique(2.6, 3);
  }

  // ---------------------------------------------------------------------
  // bake
  // ---------------------------------------------------------------------

  /** The outline after bake: scaled when either factor differs from 1,
      then shifted vertically when dy is nonzero. */
  function BakedOutline(o: Outline, sx: real, sy: real, dy: real): Outline
  {
    var scaled := if sx != 1.0 || sy != 1.0 then Transformed(o, Scale(sx, sy)) else o;
    if dy != 0.0 then Transformed(scaled, Translate(0.0, dy)) else scaled
  }

  /** The ops bake appends, in order: the scale first, and the shift after
      it, so the shift is never scaled; identity factors and a zero shift
      add nothing. */
  lemma BakedOps(o: Outline, sx: real, sy: real, dy: real)
    requires o.Drawn?
    ensures var r := BakedOutline(o, sx, sy, dy);
            r.Drawn? && r.token == o.token &&
            r.ops == o.ops + (if sx != 1.0 || sy != 1.0 then [Scale(sx, sy)] else [])
                           + (if dy != 0.0 then [Translate(0.0, dy)] else [])
  {
  }

  /** Slot space sf after bake, once find_slot has answered slot: the
      glyph there, when it is worth outputting, gets the baked outline and
      width round(widthFinal). */
  function BakeAt(sf: Subfont, slot: int, sx: real, sy: real, dy: real, widthFinal: real): (r: Subfont)
    ensures r.fontname == sf.fontname && r.fullname == sf.fullname && r.encmap == sf.encmap
    ensures |r.glyphs| == |sf.glyphs|
  {
    var k := SlotIndex(sf.glyphs, slot);
    if slot == -1 || !Worth(sf.glyphs, k) then sf
    else
      var g := sf.glyphs[k.value];
      sf.(glyphs := sf.glyphs[k.value := g.(outline := BakedOutline(g.outline, sx, sy, dy), width := RoundHalfEven(widthFinal))])
  }

  /** Slot space sf after bake(u), with find_slot answering from the glyphs
      as they are. */
  function BakeIn(sf: Subfont, count: nat, u: int, sx: real, sy: real, dy: real, widthFinal: real): (r: Subfont)
    ensures r.fontname == sf.fontname && r.fullname == sf.fullname && r.encmap == sf.encmap
    ensures |r.glyphs| == |sf.glyphs|
  {
    BakeAt(sf, SlotOf(sf, count, u), sx, sy, dy, widthFinal)
  }

  /** bake is a no-op unless has_glyph holds; otherwise exactly the glyph
      find_slot names changes, and only in its outline and width. */
  lemma BakeEffect(sf: Subfont, count: nat, u: int, sx: real, sy: real, dy: real, widthFinal: real)
    ensures !HasGlyphIn(sf, count, u) ==> BakeIn(sf, count, u, sx, sy, dy, widthFinal) == sf
    ensures HasGlyphIn(sf, count, u) ==>
              var k := SlotIndex(sf.glyphs, SlotOf(sf, count, u)).value;
              var g := sf.glyphs[k];
              var r := BakeIn(sf, count, u, sx, sy, dy, widthFinal);
              r.glyphs[k] == g.(outline := BakedOutline(g.outline, sx, sy, dy), width := RoundHalfEven(widthFinal)) &&
              forall j | 0 <= j < |sf.glyphs| && j != k :: r.glyphs[j] == sf.glyphs[j]
  {
  }

  /** Baking keeps every glyph's slot, codepoints and drawability, so
      has_glyph answers the same for every codepoint afterwards. */
  lemma BakeKeepsPresence(sf: Subfont, count: nat, u: int, sx: real, sy: real, dy: real, widthFinal: real, v: int)
    ensures HasGlyphIn(BakeIn(sf, count, u, sx, sy, dy, widthFinal), count, v) == HasGlyphIn(sf, count, v)
  {
    var r := BakeIn(sf, count, u, sx, sy, dy, widthFinal);
    SameKeysSlotMap(map[], sf.glyphs, r.glyphs);
    SameKeysSlotIndex(sf.glyphs, r.glyphs, SlotOf(sf, count, v));
  }

  /** Two glyph lists that agree on every slot and codepoint. */
  predicate SameKeys(gs: seq<Glyph>, hs: seq<Glyph>)
  {
    |gs| == |hs| &&
    forall k | 0 <= k < |gs| ::
      gs[k].encoding == hs[k].encoding && gs[k].unicode == hs[k].unicode &&
      gs[k].altuni == hs[k].altuni && gs[k].drawable == hs[k].drawable
  }

  lemma {:induction false} SameKeysSlotMap(m: map<int, int>, gs: seq<Glyph>, hs: seq<Glyph>)
    requires SameKeys(gs, hs)
    ensures ScanFrom(m, gs) == ScanFrom(m, hs)
    decreases |gs|
  {
    if gs != [] {
      assert AddGlyph(m, gs[0]) == AddGlyph(m, hs[0]);
      SameKeysSlotMap(AddGlyph(m, gs[0]), gs[1..], hs[1..]);
    }
  }

  lemma {:induction false} SameKeysSlotIndex(gs: seq<Glyph>, hs: seq<Glyph>, slot: int)
    requires SameKeys(gs, hs)
    ensures SlotIndex(gs, slot) == SlotIndex(hs, slot)
    ensures SlotIndex(gs, slot).Some? ==> gs[SlotIndex(gs, slot).value].drawable == hs[SlotIndex(gs, slot).value].drawable
    decreases |gs|
  {
    if gs != [] {
      SameKeysSlotIndex(gs[1..], hs[1..], slot);
    }
  }

  /** bake(dst_font, u, sx_total, sy_total, dy_units, width_final): the
      glyph at the slot find_slot answers from the map it consults; with a
      cache that matches the glyphs, the glyph has_glyph names. */
  method Bake(cache: SlotCache, font: Font, u: int, sx: real, sy: real, dy: real, widthFinal: real)
    requires font.Valid()
    modifies font`subfonts, cache`slotMaps
    ensures font.Valid()
    ensures font.subfonts == old(font.subfonts)[font.active :=
              BakeAt(old(font.Current()), MapGet(ConsultedMap(old(font.Current()), font.Count(), old(CachedEntry(cache, font))), u),
                     sx, sy, dy, widthFinal)]
    ensures old(cache.ValidFor(font)) ==>
              font.subfonts == old(font.subfonts)[font.active := BakeIn(old(font.Current()), font.Count(), u, sx, sy, dy, widthFinal)]
  {
    var slot := FindSlot(cache, font, u);
    if slot == -1 {
      return;
    }
    var k := SlotIndex(font.Glyphs(), slot);
    if !Worth(font.Glyphs(), k) {
      return;
    }
    var g := font.Glyphs()[k.value];
    if sx != 1.0 || sy != 1.0 {
      g := g.(outline := Transformed(g.outline, Scale(sx, sy)));
    }
    if dy != 0.0 {
      g := g.(outline := Transformed(g.outline, Translate(0.0, dy)));
    }
    g := g.(width := RoundHalfEven(widthFinal));
    font.PutGlyph(k.value, g);
  }

  // ---------------------------------------------------------------------
  // transform_entire_font
  // ---------------------------------------------------------------------

  /** transform_entire_font(font, sx, sy): nothing for the identity;
      otherwise everything is selected, the combined transform is tried and
      a plain scale is applied when it raises (`combinedRaises`), and the
      selection ends empty. */
  method TransformEntireFont(font: Font, sx: real, sy: real, combinedRaises: bool)
    requires font.Valid()
    modifies font`transforms, font`selection
    ensures sx == 1.0 && sy == 1.0 ==> font.transforms == old(font.transforms) && font.selection == old(font.selection)
    ensures !(sx == 1.0 && sy == 1.0) ==>
              font.selection == {} &&
              font.transforms == old(font.transforms) + [if combinedRaises then Plain(sx, sy) else Combined(sx, sy)]
  {
    if sx == 1.0 && sy == 1.0 {
      return;
    }
    font.selection := AllSlots(font);
    if !combinedRaises {
      font.transforms := font.transforms + [Combined(sx, sy)];
    } else {
      font.transforms := font.transforms + [Plain(sx, sy)];
    }
    font.selection := {};
  }

  /** selection.all(): every slot of the active slot space. */
  function AllSlots(font: Font): (r: set<int>)
    reads font
    requires font.Valid()
    ensures forall k | 0 <= k < |font.Glyphs()| :: font.Glyphs()[k].encoding in r
  {
    PresentOf(font.Glyphs())
  }
}
