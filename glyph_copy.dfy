/** The glyph copier and the base-font coverage stripper (src/glyph_copy.py
    and the copies in build.py). The copier resolves the codepoint in the
    donor, checks that the glyph draws, then pastes it over the glyph
    createChar gives in the destination and normalises that glyph's
    mappings and anchors. The stripper unmaps the base font's Japanese
    coverage, then clears the outlines that still answer for it. */
module GlyphCopy {
  import opened Wrappers
  import opened FontData
  import opened FontModel
  import opened Ranges
  import opened UnicodeTables
  import opened CidSlots
  import opened CidNames
  import opened CidResolve
  import opened Geometry

  /** NORMALIZE_ANCHORS in both configurations. */
  const NormalizeAnchors: bool := true

  /** clear_anchors_if_needed. */
  function AnchorsAfterNormalising(g: Glyph): (r: Glyph)
    ensures r == (if NormalizeAnchors then g.(anchors := false) else g)
  {
    if !NormalizeAnchors then g else g.(anchors := false)
  }

  // ---------------------------------------------------------------------
  // copy_from_src
  // ---------------------------------------------------------------------

  /** The (subfont, slot) reference the copier works from: the resolver's
      answer when a name index is given, else (None, find_slot(u)). */
  function CopyRef(rel: Release, sfs: seq<Subfont>, active: int, cnt: nat, cidIndex: Option<NameIndex>, u: int)
    : Option<(Option<int>, int)>
    requires 0 <= active < |sfs|
  {
    if cidIndex.Some? then ResolveSpec(rel, sfs, active, cnt, cidIndex.value, u)
    else Some((None, SlotOf(sfs[active], cnt, u)))
  }

  /** The donor glyph a reference leads to: None when there is no
      reference, when the slot is -1, when no glyph sits in the slot, or when
      it does not draw. The slot is read in the referenced subfont when that
      subfont exists, else in the active one. */
  function SourceAt(sfs: seq<Subfont>, active: int, cnt: nat, ref: Option<(Option<int>, int)>): (r: Option<Glyph>)
    requires 0 <= active < |sfs|
    ensures r.Some? ==> r.value.drawable && ref.Some? && r.value.encoding == ref.value.1 != -1
  {
    match ref
    case None => None
    case Some((sub, slot)) =>
      if slot == -1 then None
      else
        var gs := if sub.Some? && 0 <= sub.value < cnt && sub.value < |sfs| then sfs[sub.value].glyphs else sfs[active].glyphs;
        var k := SlotIndex(gs, slot);
        if Worth(gs, k) then Some(gs[k.value]) else None
  }

  /** The donor glyph copy_from_src copies for u. */
  function SourceGlyph(rel: Release, sfs: seq<Subfont>, active: int, cnt: nat, cidIndex: Option<NameIndex>, u: int)
    : (r: Option<Glyph>)
    requires 0 <= active < |sfs|
    ensures r.Some? ==> r.value.drawable
  {
    SourceAt(sfs, active, cnt, CopyRef(rel, sfs, active, cnt, cidIndex, u))
  }

  /** The destination glyph after clear(), paste() and the normalisation:
      the donor's outline, width and drawability, unicode u, no altuni,
      anchors dropped when NORMALIZE_ANCHORS is set. */
  function Pasted(dg: Glyph, sg: Glyph, u: int): (r: Glyph)
    ensures r.outline == sg.outline && r.width == sg.width && r.drawable == sg.drawable
    ensures r.unicode == u && r.altuni == [] && r.name == dg.name && r.encoding == dg.encoding
    ensures r.anchors == (sg.anchors && !NormalizeAnchors)
  {
    var cleared := Cleared(dg);
    var pasted := cleared.(outline := sg.outline, width := sg.width, drawable := sg.drawable, anchors := sg.anchors);
    AnchorsAfterNormalising(pasted.(unicode := u, altuni := []))
  }

  /** The destination slot space after a successful copy of sg for u. A
      glyph copy_from_src has to create carries FontForge's default name for
      u, so the glyph-name passes that follow still see a name; a glyph that
      was already there keeps its own. */
  function CopiedInto(sf: Subfont, sg: Glyph, u: int): (r: Subfont)
    ensures var k := CreateCharIn(sf, u).1;
            k < |r.glyphs| == |CreateCharIn(sf, u).0.glyphs| && r.glyphs[k].unicode == u &&
            (k == |sf.glyphs| ==> r.glyphs[k].name == DefaultName(u) && r.glyphs[k].name != []) &&
            (k < |sf.glyphs| ==> r.glyphs[k].name == sf.glyphs[k].name)
  {
    var (created, k) := CreateCharIn(sf, u);
    created.(glyphs := created.glyphs[k := Pasted(created.glyphs[k], sg, u)])
  }

  /** The first step of copy_from_src: the reference to copy from. */
  method ResolveRef(rel: Release, cache: SlotCache, src: Font, u: int, cidIndex: Option<NameIndex>)
    returns (r: Option<(Option<int>, int)>)
    requires src.Valid() && cache.ValidFor(src)
    modifies src`active, cache`slotMaps
    ensures src.Valid() && cache.ValidFor(src) && src.active == old(src.active)
    ensures r == CopyRef(rel, src.subfonts, src.active, src.Count(), cidIndex, u)
  {
    if cidIndex.Some? {
      r := Resolve(rel, cache, src, u, cidIndex.value);
    } else {
      var s := FindSlot(cache, src, u);
      r := Some((None, s));
    }
  }

  /** createChar, clear, select, paste and the normalisation of the
      destination glyph. */
  method PasteInto(dst: Font, sg: Glyph, u: int)
    requires dst.Valid()
    modifies dst`subfonts, dst`selection
    ensures dst.Valid()
    ensures dst.subfonts == old(dst.subfonts)[dst.active := CopiedInto(old(dst.Current()), sg, u)]
  {
    var dk := dst.CreateChar(u);
    var dg := Cleared(dst.Glyphs()[dk]);
    dst.selection := {dg.encoding};
    dg := dg.(outline := sg.outline, width := sg.width, drawable := sg.drawable, anchors := sg.anchors);
    dg := dg.(unicode := u, altuni := []);
    dg := AnchorsAfterNormalising(dg);
    dst.PutGlyph(dk, dg);
  }

  /** Reading the donor glyph a reference leads to: switch to the
      referenced subfont, check the glyph draws, select it, and restore the
      active subfont on every path. */
  method ReadAt(src: Font, ref: Option<(Option<int>, int)>) returns (sg: Option<Glyph>)
    requires src.Valid()
    modifies src`active, src`selection
    ensures src.Valid() && src.active == old(src.active)
    ensures sg == SourceAt(src.subfonts, src.active, src.Count(), ref)
    ensures src.selection == if sg.Some? then {sg.value.encoding} else old(src.selection)
  {
    if ref.None? {
      return None;
    }
    var (sub, slot) := ref.value;
    if slot == -1 {
      return None;
    }
    var saved := src.active;
    var switched := false;
    if sub.Some? {
      switched := src.SetActive(sub.value);
    }
    var k := SlotIndex(src.Glyphs(), slot);
    if Worth(src.Glyphs(), k) {
      sg := Some(src.Glyphs()[k.value]);
      src.selection := {slot};
    } else {
      sg := None;
    }
    if switched {
      var restored := src.SetActive(saved);
    }
  }

  /** The donor side of copy_from_src. */
  method ReadSource(rel: Release, cache: SlotCache, src: Font, u: int, cidIndex: Option<NameIndex>)
    returns (sg: Option<Glyph>)
    requires src.Valid() && cache.ValidFor(src)
    modifies src`active, src`selection, cache`slotMaps
    ensures src.Valid() && cache.ValidFor(src) && src.active == old(src.active)
    ensures sg == SourceGlyph(rel, src.subfonts, src.active, src.Count(), cidIndex, u)
    ensures src.selection == if sg.Some? then {sg.value.encoding} else old(src.selection)
  {
    var r := ResolveRef(rel, cache, src, u, cidIndex);
    sg := ReadAt(src, r);
  }

  /** copy_from_src (rel = Packaged for src/glyph_copy.py, whose resolver is
      called without maps; rel = Monolith for build.py). Returns the donor
      glyph's width, read before anything changes. */
  method CopyFromSrc(rel: Release, cache: SlotCache, src: Font, dst: Font, u: int, cidIndex: Option<NameIndex>)
    returns (w: Option<int>)
    requires src.Valid() && dst.Valid() && cache.ValidFor(src) && src != dst
    modifies src`active, src`selection, dst`subfonts, dst`selection, cache`slotMaps
    ensures src.Valid() && dst.Valid() && cache.ValidFor(src) && src.active == old(src.active)
    ensures var sg := SourceGlyph(rel, src.subfonts, src.active, src.Count(), cidIndex, u);
            w == (if sg.Some? then Some(sg.value.width) else None) &&
            (sg.None? ==> dst.subfonts == old(dst.subfonts) && dst.selection == old(dst.selection)) &&
            (sg.Some? ==> dst.subfonts == old(dst.subfonts)[dst.active := CopiedInto(old(dst.Current()), sg.value, u)])
  {
    var sg := ReadSource(rel, cache, src, u, cidIndex);
    if sg.None? {
      return None;
    }
    var srcWidth := sg.value.width;
    PasteInto(dst, sg.value, u);
    return Some(srcWidth);
  }

  /** After a successful copy into a flat destination, find_slot(u) there
      leads to the pasted glyph, which draws and answers u. */
  lemma CopyMakesGlyphPresent(sf: Subfont, sg: Glyph, u: int)
    requires sg.drawable
    ensures var sf' := CopiedInto(sf, sg, u);
            var slot := MapGet(sf'.encmap, u);
            var k := SlotIndex(sf'.glyphs, slot);
            slot != -1 ==> k.Some? && sf'.glyphs[k.value] == Pasted(CreateCharIn(sf, u).0.glyphs[k.value], sg, u) &&
                           Worth(sf'.glyphs, k) && sf'.glyphs[k.value].unicode == u
  {
    var (created, k) := CreateCharIn(sf, u);
    CreateCharFindable(sf, u);
    var sf' := CopiedInto(sf, sg, u);
    var enc := created.glyphs[k].encoding;
    assert sf'.glyphs[k].encoding == enc;
    SlotIndexUpdate(created.glyphs, k, Pasted(created.glyphs[k], sg, u));
  }

  /** After a successful copy into a flat destination, has_glyph(u) holds
      there. */
  lemma CopyGivesGlyph(sf: Subfont, count: nat, sg: Glyph, u: int)
    requires count <= 1 && sg.drawable
    ensures HasGlyphIn(CopiedInto(sf, sg, u), count, u)
  {
    CopyMakesGlyphPresent(sf, sg, u);
    var slot := MapGet(sf.encmap, u);
    if !(slot != -1 && SlotIndex(sf.glyphs, slot).Some?) {
      assert MapGet(CopiedInto(sf, sg, u).encmap, u) == FreshSlot(sf.glyphs);
    }
  }

  lemma {:induction false} SlotIndexUpdate(gs: seq<Glyph>, k: nat, g: Glyph)
    requires k < |gs| && g.encoding == gs[k].encoding && SlotIndex(gs, gs[k].encoding) == Some(k)
    ensures SlotIndex(gs[k := g], g.encoding) == Some(k)
  {
    if k > 0 {
      assert gs[k := g][1..] == gs[1..][k - 1 := g];
      SlotIndexUpdate(gs[1..], k - 1, g);
    }
  }

  // ---------------------------------------------------------------------
  // unmap_unicode_and_altuni and strip_altuni_entries
  // ---------------------------------------------------------------------

  /** unmap_unicode_and_altuni. */
  function Unmapped(g: Glyph): (r: Glyph)
    ensures r.unicode == -1 && r.altuni == [] && r.outline == g.outline && r.drawable == g.drawable
  {
    g.(unicode := -1, altuni := [])
  }

  /** The altuni entries that fail the predicate, in order. */
  function Keep(alts: seq<int>, remove: int -> bool): seq<int>
  {
    if alts == [] then []
    else Keep(alts[..|alts| - 1], remove) + (if remove(alts[|alts| - 1]) then [] else [alts[|alts| - 1]])
  }

  lemma {:induction false} KeepMembers(alts: seq<int>, remove: int -> bool)
    ensures forall x :: x in Keep(alts, remove) <==> x in alts && !remove(x)
    ensures |Keep(alts, remove)| <= |alts|
  {
    if alts != [] {
      KeepMembers(alts[..|alts| - 1], remove);
      assert alts == alts[..|alts| - 1] + [alts[|alts| - 1]];
    }
  }

  /** Keeping is idempotent. */
  lemma {:induction false} KeepIdempotent(alts: seq<int>, remove: int -> bool)
    ensures Keep(Keep(alts, remove), remove) == Keep(alts, remove)
  {
    if alts != [] {
      var init := alts[..|alts| - 1];
      var x := alts[|alts| - 1];
      KeepIdempotent(init, remove);
      var ki := Keep(init, remove);
      assert alts[..|alts| - 1] == init;
      if remove(x) {
        assert Keep(alts, remove) == ki;
      } else {
        assert Keep(alts, remove) == ki + [x];
        KeepAppend(ki, x, remove);
      }
    }
  }

  /** Keeping keeps everything when nothing matches. */
  lemma {:induction false} KeepAll(alts: seq<int>, remove: int -> bool)
    requires forall k | 0 <= k < |alts| :: !remove(alts[k])
    ensures Keep(alts, remove) == alts
  {
    if alts != [] {
      var init := alts[..|alts| - 1];
      assert forall k | 0 <= k < |init| :: init[k] == alts[k];
      KeepAll(init, remove);
      assert alts == init + [alts[|alts| - 1]];
    }
  }

  lemma KeepAppend(alts: seq<int>, x: int, remove: int -> bool)
    ensures Keep(alts + [x], remove) == Keep(alts, remove) + (if remove(x) then [] else [x])
  {
    assert (alts + [x])[..|alts + [x]| - 1] == alts;
  }

  /** strip_altuni_entries: rebuilds altuni from the surviving entries; the
      empty list stands for None. */
  method StripAltuniEntries(g: Glyph, remove: int -> bool) returns (r: Glyph)
    ensures r == g.(altuni := Keep(g.altuni, remove))
  {
    if g.altuni == [] {
      return g;
    }
    var kept: seq<int> := [];
    var i := 0;
    while i < |g.altuni|
      invariant 0 <= i <= |g.altuni|
      invariant kept == Keep(g.altuni[..i], remove)
    {
      assert g.altuni[..i + 1][..i] == g.altuni[..i];
      if !remove(g.altuni[i]) {
        kept := kept + [g.altuni[i]];
      }
      i := i + 1;
    }
    assert g.altuni[..i] == g.altuni;
    r := g.(altuni := kept);
  }

  // ---------------------------------------------------------------------
  // remove_base_jp_coverage_and_clear
  // ---------------------------------------------------------------------

  /** should_remove: a JP target the Japanese filter allows. */
  predicate ShouldRemove(t: RangeTables, u: int)
  {
    InAny(u, t.JpTarget()) && t.JpAllowed(u)
  }

  function Remover(t: RangeTables): int -> bool
  {
    u => ShouldRemove(t, u)
  }

  /** Pass 1 on one glyph: only drawable glyphs change; a removable primary
      unicode unmaps the glyph, otherwise only removable altuni entries go. */
  function UnmapOne(g: Glyph, remove: int -> bool): (r: Glyph)
    ensures !g.drawable ==> r == g
    ensures g.drawable && g.unicode != -1 && remove(g.unicode) ==> r == Unmapped(g)
    ensures g.drawable && !(g.unicode != -1 && remove(g.unicode)) ==> r == g.(altuni := Keep(g.altuni, remove))
  {
    if !g.drawable then g
    else if g.unicode != -1 && remove(g.unicode) then Unmapped(g)
    else g.(altuni := Keep(g.altuni, remove))
  }

  function Unmaps(g: Glyph, remove: int -> bool): bool
  {
    g.drawable && g.unicode != -1 && remove(g.unicode)
  }

  /** Pass 1 over the glyphs in encoding order: the new glyphs and
      removed_map. */
  function UnmapPass(gs: seq<Glyph>, remove: int -> bool): (r: (seq<Glyph>, nat))
    ensures |r.0| == |gs| && r.1 <= |gs|
    ensures forall k | 0 <= k < |gs| :: r.0[k] == UnmapOne(gs[k], remove)
  {
    if gs == [] then ([], 0)
    else
      var (init, n) := UnmapPass(gs[..|gs| - 1], remove);
      var g := gs[|gs| - 1];
      (init + [UnmapOne(g, remove)], if Unmaps(g, remove) then n + 1 else n)
  }

  /** Repeating pass 1 unmaps nothing more and changes nothing. */
  lemma UnmapPassIdempotent(gs: seq<Glyph>, remove: int -> bool)
    ensures UnmapPass(UnmapPass(gs, remove).0, remove).0 == UnmapPass(gs, remove).0
    ensures UnmapPass(UnmapPass(gs, remove).0, remove).1 == 0
  {
    var once := UnmapPass(gs, remove).0;
    forall k | 0 <= k < |gs| ensures UnmapOne(once[k], remove) == once[k] && !Unmaps(once[k], remove) {
      KeepIdempotent(gs[k].altuni, remove);
      KeepMembers(gs[k].altuni, remove);
    }
    UnmapPassCount(once, remove);
  }

  lemma {:induction false} UnmapPassCount(gs: seq<Glyph>, remove: int -> bool)
    requires forall k | 0 <= k < |gs| :: UnmapOne(gs[k], remove) == gs[k] && !Unmaps(gs[k], remove)
    ensures UnmapPass(gs, remove).1 == 0 && UnmapPass(gs, remove).0 == gs
  {
    if gs != [] {
      var init := gs[..|gs| - 1];
      assert forall k | 0 <= k < |init| :: init[k] == gs[k];
      UnmapPassCount(init, remove);
      assert gs == init + [gs[|gs| - 1]];
    }
  }

  /** After pass 1 no drawable glyph keeps a removable codepoint, primary or
      alternate. */
  lemma UnmapPassRemovesCoverage(gs: seq<Glyph>, remove: int -> bool, k: int)
    requires 0 <= k < |gs| && gs[k].drawable
    ensures var g := UnmapPass(gs, remove).0[k];
            (g.unicode == -1 || !remove(g.unicode)) && forall x | x in g.altuni :: !remove(x)
  {
    KeepMembers(gs[k].altuni, remove);
  }

  /** Pass 2 on one codepoint, with find_slot answering from m: an allowed
      target whose slot holds a drawable glyph clears that glyph. The flag
      says whether it counted. */
  function ClearStep(gs: seq<Glyph>, m: map<int, int>, u: int, allowed: int -> bool): (r: (seq<Glyph>, bool))
    ensures |r.0| == |gs|
  {
    var slot := MapGet(m, u);
    var k := SlotIndex(gs, slot);
    if allowed(u) && slot != -1 && Worth(gs, k) then (gs[k.value := Cleared(gs[k.value])], true)
    else (gs, false)
  }

  /** Pass 2 over the codepoints, in order, with the number cleared. */
  function ClearPass(gs: seq<Glyph>, m: map<int, int>, codes: seq<int>, allowed: int -> bool)
    : (r: (seq<Glyph>, nat))
    ensures |r.0| == |gs| && r.1 <= |codes|
  {
    if codes == [] then (gs, 0)
    else
      var (mid, n) := ClearPass(gs, m, codes[..|codes| - 1], allowed);
      var (out, hit) := ClearStep(mid, m, codes[|codes| - 1], allowed);
      (out, if hit then n + 1 else n)
  }

  lemma ClearPassSnoc(gs: seq<Glyph>, m: map<int, int>, codes: seq<int>, u: int, allowed: int -> bool)
    ensures var (mid, n) := ClearPass(gs, m, codes, allowed);
            var (out, hit) := ClearStep(mid, m, u, allowed);
            ClearPass(gs, m, codes + [u], allowed) == (out, if hit then n + 1 else n)
  {
    assert (codes + [u])[..|codes + [u]| - 1] == codes;
  }

  /** Pass 2 only ever clears glyphs, and afterwards no allowed target's
      slot holds a drawable glyph. */
  lemma {:induction false} ClearPassEffect(gs: seq<Glyph>, m: map<int, int>, codes: seq<int>, allowed: int -> bool)
    ensures var out := ClearPass(gs, m, codes, allowed).0;
            forall k | 0 <= k < |gs| :: out[k] == gs[k] || out[k] == Cleared(gs[k])
    ensures var out := ClearPass(gs, m, codes, allowed).0;
            forall j | 0 <= j < |codes| && allowed(codes[j]) && MapGet(m, codes[j]) != -1 ::
              !Worth(out, SlotIndex(out, MapGet(m, codes[j])))
  {
    if codes != [] {
      var init := codes[..|codes| - 1];
      ClearPassEffect(gs, m, init, allowed);
      var (mid, n) := ClearPass(gs, m, init, allowed);
      var u := codes[|codes| - 1];
      var slot := MapGet(m, u);
      var k := SlotIndex(mid, slot);
      if allowed(u) && slot != -1 && Worth(mid, k) {
        var out := mid[k.value := Cleared(mid[k.value])];
        forall j | 0 <= j < |codes| && allowed(codes[j]) && MapGet(m, codes[j]) != -1
          ensures !Worth(out, SlotIndex(out, MapGet(m, codes[j])))
        {
          SlotIndexSameEncodings(mid, out, MapGet(m, codes[j]));
          if j < |init| {
            assert codes[j] == init[j];
          }
        }
      }
    }
  }

  /** Clearing keeps every encoding, so slot lookups do not move. */
  lemma {:induction false} SlotIndexSameEncodings(a: seq<Glyph>, b: seq<Glyph>, slot: int)
    requires |a| == |b| && forall k | 0 <= k < |a| :: a[k].encoding == b[k].encoding
    ensures SlotIndex(a, slot) == SlotIndex(b, slot)
  {
    if a != [] {
      SlotIndexSameEncodings(a[1..], b[1..], slot);
    }
  }

  /** Pass 1 on glyph i of the active slot space. */
  method UnmapGlyphAt(base: Font, i: nat, remove: int -> bool) returns (unmapped: bool)
    requires base.Valid() && i < |base.Glyphs()|
    modifies base`subfonts
    ensures base.Valid()
    ensures unmapped == Unmaps(old(base.Glyphs()[i]), remove)
    ensures base.subfonts == old(base.subfonts)[base.active := old(base.Current()).(glyphs :=
              old(base.Glyphs())[i := UnmapOne(old(base.Glyphs()[i]), remove)])]
  {
    var g := base.Glyphs()[i];
    unmapped := false;
    if !g.drawable {
      assert old(base.Glyphs())[i := g] == old(base.Glyphs());
      assert old(base.subfonts)[base.active := old(base.Current())] == old(base.subfonts);
      return;
    }
    if g.unicode != -1 && remove(g.unicode) {
      base.PutGlyph(i, Unmapped(g));
      unmapped := true;
    } else {
      var stripped := StripAltuniEntries(g, remove);
      base.PutGlyph(i, stripped);
    }
  }

  /** Glyph i of pass 1, with the glyphs before it already done. */
  method UnmapNext(base: Font, i: nat, remove: int -> bool, ghost gs0: seq<Glyph>, removed0: nat) returns (removed: nat)
    requires base.Valid() && |base.Glyphs()| == |gs0| && i < |gs0|
    requires forall k | 0 <= k < i :: base.Glyphs()[k] == UnmapOne(gs0[k], remove)
    requires forall k | i <= k < |gs0| :: base.Glyphs()[k] == gs0[k]
    requires removed0 == UnmapPass(gs0[..i], remove).1
    modifies base`subfonts
    ensures base.Valid() && OnlyGlyphs(base, old(base.subfonts), old(base.active)) && |base.Glyphs()| == |gs0|
    ensures forall k | 0 <= k < i + 1 :: base.Glyphs()[k] == UnmapOne(gs0[k], remove)
    ensures forall k | i + 1 <= k < |gs0| :: base.Glyphs()[k] == gs0[k]
    ensures removed == UnmapPass(gs0[..i + 1], remove).1
  {
    assert gs0[..i + 1][..i] == gs0[..i];
    var unmapped := UnmapGlyphAt(base, i, remove);
    removed := if unmapped then removed0 + 1 else removed0;
  }

  /** Pass 1 over the glyphs of the active slot space, in encoding order. */
  method UnmapGlyphs(base: Font, remove: int -> bool) returns (removed: nat)
    requires base.Valid()
    modifies base`subfonts
    ensures base.Valid() && OnlyGlyphs(base, old(base.subfonts), old(base.active))
    ensures (base.Glyphs(), removed) == UnmapPass(old(base.Glyphs()), remove)
  {
    ghost var gs0 := base.Glyphs();
    ghost var n := |gs0|;
    removed := 0;
    var i := 0;
    while i < |base.Glyphs()|
      invariant base.Valid() && OnlyGlyphs(base, old(base.subfonts), old(base.active))
      invariant |base.Glyphs()| == n && 0 <= i <= n
      invariant forall k | 0 <= k < i :: base.Glyphs()[k] == UnmapOne(gs0[k], remove)
      invariant forall k | i <= k < n :: base.Glyphs()[k] == gs0[k]
      invariant removed == UnmapPass(gs0[..i], remove).1
    {
      removed := UnmapNext(base, i, remove, gs0, removed);
      i := i + 1;
    }
    assert gs0[..i] == gs0;
    assert base.Glyphs() == UnmapPass(gs0, remove).0;
  }

  /** remove_base_jp_coverage_and_clear: pass 1 over the glyphs, then pass 2
      over the JP targets in table order, with find_slot answering from the
      map it consults when pass 2 begins (pass 1 does not touch the cache).
      Returns (removed_map, cleared). */
  method RemoveBaseJpCoverage(cache: SlotCache, base: Font, t: RangeTables) returns (removed: nat, cleared: nat)
    requires base.Valid()
    modifies base`subfonts, cache`slotMaps
    ensures base.Valid() && OnlyGlyphs(base, old(base.subfonts), old(base.active))
    ensures var (gs1, n1) := UnmapPass(old(base.Glyphs()), Remover(t));
            var m := ConsultedMap(old(base.Current()).(glyphs := gs1), base.Count(), old(CachedEntry(cache, base)));
            var (gs2, n2) := ClearPass(gs1, m, IterRanges(t.JpTarget()), t.JpAllowed);
            removed == n1 && cleared == n2 && base.Glyphs() == gs2
  {
    ghost var cached0 := CachedEntry(cache, base);
    removed := UnmapGlyphs(base, Remover(t));
    assert CachedEntry(cache, base) == cached0;
    assert base.Current() == old(base.Current()).(glyphs := base.Glyphs());
    cleared := ClearTargets(cache, base, t);
  }

  /** Pass 2 on one codepoint of the active slot space. */
  method ClearCode(cache: SlotCache, base: Font, u: int, allowed: int -> bool, ghost m: map<int, int>) returns (hit: bool)
    requires base.Valid() && m == ConsultedMap(base.Current(), base.Count(), CachedEntry(cache, base))
    modifies base`subfonts, cache`slotMaps
    ensures base.Valid() && OnlyGlyphs(base, old(base.subfonts), old(base.active))
    ensures m == ConsultedMap(base.Current(), base.Count(), CachedEntry(cache, base))
    ensures (base.Glyphs(), hit) == ClearStep(old(base.Glyphs()), m, u, allowed)
  {
    hit := false;
    if allowed(u) {
      var slot := FindSlot(cache, base, u);
      if slot != -1 {
        var k := SlotIndex(base.Glyphs(), slot);
        if Worth(base.Glyphs(), k) {
          base.PutGlyph(k.value, Cleared(base.Glyphs()[k.value]));
          hit := true;
        }
      }
    }
    if !hit {
      assert old(base.subfonts)[base.active := old(base.Current())] == old(base.subfonts);
    }
  }

  /** Pass 2 on the next codepoint u, after the codepoints in codes. */
  method ClearNext(cache: SlotCache, base: Font, u: int, allowed: int -> bool,
                   ghost sfs: seq<Subfont>, ghost active: int, ghost gs0: seq<Glyph>, ghost m: map<int, int>,
                   ghost codes: seq<int>, cleared0: nat) returns (cleared: nat)
    requires base.Valid() && OnlyGlyphs(base, sfs, active)
    requires m == ConsultedMap(base.Current(), base.Count(), CachedEntry(cache, base))
    requires (base.Glyphs(), cleared0) == ClearPass(gs0, m, codes, allowed)
    modifies base`subfonts, cache`slotMaps
    ensures base.Valid() && OnlyGlyphs(base, sfs, active)
    ensures m == ConsultedMap(base.Current(), base.Count(), CachedEntry(cache, base))
    ensures (base.Glyphs(), cleared) == ClearPass(gs0, m, codes + [u], allowed)
  {
    ClearPassSnoc(gs0, m, codes, u, allowed);
    var hit := ClearCode(cache, base, u, allowed, m);
    cleared := if hit then cleared0 + 1 else cleared0;
  }

  /** Pass 2 over one range a..b, continuing a pass over the glyphs gs0 that
      has already run over the codepoints in done. */
  method ClearRange(cache: SlotCache, base: Font, a: int, b: int, allowed: int -> bool,
                    ghost sfs: seq<Subfont>, ghost active: int, ghost gs0: seq<Glyph>, ghost m: map<int, int>,
                    ghost done: seq<int>, cleared0: nat) returns (cleared: nat)
    requires base.Valid() && OnlyGlyphs(base, sfs, active)
    requires m == ConsultedMap(base.Current(), base.Count(), CachedEntry(cache, base))
    requires (base.Glyphs(), cleared0) == ClearPass(gs0, m, done, allowed)
    modifies base`subfonts, cache`slotMaps
    ensures base.Valid() && OnlyGlyphs(base, sfs, active)
    ensures m == ConsultedMap(base.Current(), base.Count(), CachedEntry(cache, base))
    ensures (base.Glyphs(), cleared) == ClearPass(gs0, m, done + Span(a, b), allowed)
  {
    cleared := cleared0;
    var u := a;
    assert Span(a, u - 1) == [];
    assert done + Span(a, u - 1) == done;
    if b < a {
      return;
    }
    while u <= b
      invariant base.Valid() && OnlyGlyphs(base, sfs, active)
      invariant m == ConsultedMap(base.Current(), base.Count(), CachedEntry(cache, base))
      invariant a <= u <= b + 1
      invariant (base.Glyphs(), cleared) == ClearPass(gs0, m, done + Span(a, u - 1), allowed)
    {
      cleared := ClearRangeNext(cache, base, a, u, allowed, sfs, active, gs0, m, done, cleared);
      u := u + 1;
    }
  }

  /** Codepoint u of the range from a, with the codepoints before it done. */
  method ClearRangeNext(cache: SlotCache, base: Font, a: int, u: int, allowed: int -> bool,
                        ghost sfs: seq<Subfont>, ghost active: int, ghost gs0: seq<Glyph>, ghost m: map<int, int>,
                        ghost done: seq<int>, cleared0: nat) returns (cleared: nat)
    requires base.Valid() && OnlyGlyphs(base, sfs, active) && a <= u
    requires m == ConsultedMap(base.Current(), base.Count(), CachedEntry(cache, base))
    requires (base.Glyphs(), cleared0) == ClearPass(gs0, m, done + Span(a, u - 1), allowed)
    modifies base`subfonts, cache`slotMaps
    ensures base.Valid() && OnlyGlyphs(base, sfs, active)
    ensures m == ConsultedMap(base.Current(), base.Count(), CachedEntry(cache, base))
    ensures (base.Glyphs(), cleared) == ClearPass(gs0, m, done + Span(a, u), allowed)
  {
    SpanSnoc(a, u);
    assert done + Span(a, u) == (done + Span(a, u - 1)) + [u];
    cleared := ClearNext(cache, base, u, allowed, sfs, active, gs0, m, done + Span(a, u - 1), cleared0);
  }

  /** Pass 2: every codepoint of every JP target range, in order. */
  method ClearTargets(cache: SlotCache, base: Font, t: RangeTables) returns (cleared: nat)
    requires base.Valid()
    modifies base`subfonts, cache`slotMaps
    ensures base.Valid() && OnlyGlyphs(base, old(base.subfonts), old(base.active))
    ensures (base.Glyphs(), cleared) ==
            ClearPass(old(base.Glyphs()), ConsultedMap(old(base.Current()), base.Count(), old(CachedEntry(cache, base))),
                      IterRanges(t.JpTarget()), t.JpAllowed)
  {
    ghost var gs0 := base.Glyphs();
    ghost var m := ConsultedMap(base.Current(), base.Count(), CachedEntry(cache, base));
    var rs := t.JpTarget();
    cleared := 0;
    var r := 0;
    assert old(base.subfonts)[base.active := old(base.Current())] == old(base.subfonts);
    while r < |rs|
      invariant base.Valid() && OnlyGlyphs(base, old(base.subfonts), old(base.active))
      invariant m == ConsultedMap(base.Current(), base.Count(), CachedEntry(cache, base))
      invariant 0 <= r <= |rs|
      invariant (base.Glyphs(), cleared) == ClearPass(gs0, m, IterRanges(rs[..r]), t.JpAllowed)
    {
      var (a, b) := rs[r];
      IterRangesConcat(rs[..r], [rs[r]]);
      assert rs[..r + 1] == rs[..r] + [rs[r]];
      assert IterRanges([rs[r]]) == Span(a, b) by {
        assert IterRanges([rs[r]]) == Span(a, b) + IterRanges([]);
      }
      cleared := ClearRange(cache, base, a, b, t.JpAllowed, old(base.subfonts), old(base.active), gs0, m,
                            IterRanges(rs[..r]), cleared);
      r := r + 1;
    }
    assert rs[..r] == rs;
  }

  lemma SpanSnoc(a: int, u: int)
    requires a <= u
    ensures Span(a, u) == Span(a, u - 1) + [u]
  {
    SpanShape(a, u);
    SpanShape(a, u - 1);
  }

  /** After the stripper, no allowed JP target is left with a glyph
      through the map find_slot consults: its slot is -1 or holds a glyph
      that does not draw. */
  lemma StripperLeavesNoTarget(gs: seq<Glyph>, m: map<int, int>, t: RangeTables, u: int)
    requires InAny(u, t.JpTarget()) && t.JpAllowed(u)
    ensures var gs1 := UnmapPass(gs, Remover(t)).0;
            var gs2 := ClearPass(gs1, m, IterRanges(t.JpTarget()), t.JpAllowed).0;
            MapGet(m, u) == -1 || !Worth(gs2, SlotIndex(gs2, MapGet(m, u)))
  {
    var gs1 := UnmapPass(gs, Remover(t)).0;
    var codes := IterRanges(t.JpTarget());
    IterRangesMembers(t.JpTarget());
    var j :| 0 <= j < |codes| && codes[j] == u;
    ClearPassEffect(gs1, m, codes, t.JpAllowed);
  }

  /** On a flat base, has_glyph fails afterwards for every codepoint
      should_remove accepts. */
  lemma StripperLeavesNoGlyph(sf: Subfont, count: nat, t: RangeTables, u: int)
    requires count <= 1 && InAny(u, t.JpTarget()) && t.JpAllowed(u)
    ensures var gs1 := UnmapPass(sf.glyphs, Remover(t)).0;
            var gs2 := ClearPass(gs1, sf.encmap, IterRanges(t.JpTarget()), t.JpAllowed).0;
            !HasGlyphIn(sf.(glyphs := gs2), count, u)
  {
    StripperLeavesNoTarget(sf.glyphs, sf.encmap, t, u);
  }
}
