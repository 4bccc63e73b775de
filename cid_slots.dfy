/** Slot lookup in flat and CID-keyed fonts (cid.py, src/cid.py and the
    copies in build.py): the first-writer-wins unicode-to-encoding map of a
    subfont, the cache that holds it and the present-encoding sets per
    (handle, subfont), find_slot, and the CID glyph-name parser. */
module CidSlots {
  import opened Wrappers
  import opened FontData
  import opened FontModel
  import opened Text

  // ---------------------------------------------------------------------
  // The unicode -> encoding map of one subfont
  // ---------------------------------------------------------------------

  /** Glyph g answers codepoint u through its primary unicode or an altuni entry. */
  predicate Claims(g: Glyph, u: int)
  {
    u != -1 && (g.unicode == u || u in g.altuni)
  }

  /** Record u -> enc unless u is -1 or already taken (first writer wins). */
  function AddCode(m: map<int, int>, u: int, enc: int): map<int, int>
  {
    if u != -1 && u !in m then m[u := enc] else m
  }

  function AddAlts(m: map<int, int>, alts: seq<int>, enc: int): map<int, int>
    decreases |alts|
  {
    if alts == [] then m else AddAlts(AddCode(m, alts[0], enc), alts[1..], enc)
  }

  /** One glyph of the scan: primary unicode first, then the altuni entries. */
  function AddGlyph(m: map<int, int>, g: Glyph): map<int, int>
  {
    AddAlts(AddCode(m, g.unicode, g.encoding), g.altuni, g.encoding)
  }

  function ScanFrom(m: map<int, int>, gs: seq<Glyph>): map<int, int>
    decreases |gs|
  {
    if gs == [] then m else ScanFrom(AddGlyph(m, gs[0]), gs[1..])
  }

  /** The map _cid_slot_map builds from the glyphs of a subfont, in order. */
  function SlotMapOf(gs: seq<Glyph>): map<int, int>
  {
    ScanFrom(map[], gs)
  }

  /** The first glyph of gs that claims u, if any. */
  function FirstClaimant(gs: seq<Glyph>, u: int): (r: Option<nat>)
    ensures r.Some? ==> r.value < |gs| && Claims(gs[r.value], u)
    ensures r.Some? ==> forall k :: 0 <= k < r.value ==> !Claims(gs[k], u)
    ensures r.None? ==> forall k :: 0 <= k < |gs| ==> !Claims(gs[k], u)
  {
    if gs == [] then None
    else if Claims(gs[0], u) then Some(0)
    else match FirstClaimant(gs[1..], u)
      case None => None
      case Some(k) => Some(k + 1)
  }

  lemma {:induction false} AddAltsEffect(m: map<int, int>, alts: seq<int>, enc: int)
    ensures forall u :: u in AddAlts(m, alts, enc) <==> u in m || (u != -1 && u in alts)
    ensures forall u | u in m :: AddAlts(m, alts, enc)[u] == m[u]
    ensures forall u | u !in m && u != -1 && u in alts :: AddAlts(m, alts, enc)[u] == enc
    decreases |alts|
  {
    if alts != [] {
      AddAltsEffect(AddCode(m, alts[0], enc), alts[1..], enc);
      assert forall u :: u in alts <==> u == alts[0] || u in alts[1..];
    }
  }

  lemma AddGlyphEffect(m: map<int, int>, g: Glyph)
    ensures forall u :: u in AddGlyph(m, g) <==> u in m || Claims(g, u)
    ensures forall u | u in m :: AddGlyph(m, g)[u] == m[u]
    ensures forall u | u !in m && Claims(g, u) :: AddGlyph(m, g)[u] == g.encoding
  {
    AddAltsEffect(AddCode(m, g.unicode, g.encoding), g.altuni, g.encoding);
  }

  lemma {:induction false} ScanFromEffect(m: map<int, int>, gs: seq<Glyph>, u: int)
    ensures u in m ==> u in ScanFrom(m, gs) && ScanFrom(m, gs)[u] == m[u]
    ensures u !in m ==> (u in ScanFrom(m, gs) <==> FirstClaimant(gs, u).Some?)
    ensures u !in m && FirstClaimant(gs, u).Some? ==>
              ScanFrom(m, gs)[u] == gs[FirstClaimant(gs, u).value].encoding
    decreases |gs|
  {
    if gs != [] {
      AddGlyphEffect(m, gs[0]);
      ScanFromEffect(AddGlyph(m, gs[0]), gs[1..], u);
    }
  }

  /** First writer wins: u is a key exactly when some glyph claims it, and it
      maps to the encoding of the first such glyph; -1 is never a key. */
  lemma SlotMapFirstWriter(gs: seq<Glyph>, u: int)
    ensures u in SlotMapOf(gs) <==> FirstClaimant(gs, u).Some?
    ensures u in SlotMapOf(gs) ==> SlotMapOf(gs)[u] == gs[FirstClaimant(gs, u).value].encoding
    ensures -1 !in SlotMapOf(gs)
  {
    ScanFromEffect(map[], gs, u);
    ScanFromEffect(map[], gs, -1);
  }

  /** The scan of _cid_slot_map: glyphs in order, primary unicode before the
      altuni entries of the same glyph. */
  method BuildSlotMap(gs: seq<Glyph>) returns (m: map<int, int>)
    ensures m == SlotMapOf(gs)
  {
    m := map[];
    var i := 0;
    while i < |gs|
      invariant 0 <= i <= |gs|
      invariant ScanFrom(m, gs[i..]) == SlotMapOf(gs)
    {
      var g := gs[i];
      ghost var before := m;
      var enc := g.encoding;
      var u := g.unicode;
      if u != -1 && u !in m {
        m := m[u := enc];
      }
      var j := 0;
      while j < |g.altuni|
        invariant 0 <= j <= |g.altuni|
        invariant AddAlts(m, g.altuni[j..], enc) == AddGlyph(before, g)
      {
        var au := g.altuni[j];
        assert g.altuni[j..] == [au] + g.altuni[j + 1..];
        if au != -1 && au !in m {
          m := m[au := enc];
        }
        j := j + 1;
      }
      assert gs[i..] == [g] + gs[i + 1..];
      i := i + 1;
    }
  }

  // ---------------------------------------------------------------------
  // Present encodings of one subfont
  // ---------------------------------------------------------------------

  /** The encodings of the glyphs of a subfont. */
  function PresentOf(gs: seq<Glyph>): set<int>
  {
    set k | 0 <= k < |gs| :: gs[k].encoding
  }

  /** The scan of _cid_present_set. */
  method BuildPresentSet(gs: seq<Glyph>) returns (present: set<int>)
    ensures present == PresentOf(gs)
    ensures forall e :: e in present <==> exists k :: 0 <= k < |gs| && gs[k].encoding == e
  {
    present := {};
    var i := 0;
    while i < |gs|
      invariant 0 <= i <= |gs|
      invariant present == PresentOf(gs[..i])
    {
      assert PresentOf(gs[..i + 1]) == PresentOf(gs[..i]) + {gs[i].encoding} by {
        assert forall k :: 0 <= k < i ==> gs[..i + 1][k] == gs[..i][k];
      }
      present := present + {gs[i].encoding};
      i := i + 1;
    }
    assert gs[..i] == gs;
  }

  // ---------------------------------------------------------------------
  // The per-(handle, subfont) caches
  // ---------------------------------------------------------------------

  /** _CID_SLOT_CACHE and _CID_PRESENT_CACHE, keyed by (font handle, subfont
      index). Entries are never invalidated: donor fonts are read-only. */
  class SlotCache {
    var slotMaps: map<(nat, int), map<int, int>>
    var presentSets: map<(nat, int), set<int>>

    constructor ()
      ensures slotMaps == map[] && presentSets == map[]
    {
      slotMaps := map[];
      presentSets := map[];
    }

    /** Every entry cached for f's handle is what a scan of that subfont gives. */
    ghost predicate ValidFor(f: Font)
      reads this, f
    {
      (forall k | k in slotMaps && k.0 == f.handle ::
         0 <= k.1 < |f.subfonts| && slotMaps[k] == SlotMapOf(f.subfonts[k.1].glyphs)) &&
      (forall k | k in presentSets && k.0 == f.handle ::
         0 <= k.1 < |f.subfonts| && presentSets[k] == PresentOf(f.subfonts[k.1].glyphs))
    }
  }

  /** _cid_slot_map(font, subidx): the cached map when (handle, subidx) was
      seen before (no rescan); otherwise a scan of the glyphs the font
      currently exposes, stored under subidx. */
  method CidSlotMap(cache: SlotCache, font: Font, subidx: int) returns (m: map<int, int>)
    requires font.Valid()
    modifies cache`slotMaps
    ensures (font.handle, subidx) in old(cache.slotMaps) ==>
              m == old(cache.slotMaps)[(font.handle, subidx)] && cache.slotMaps == old(cache.slotMaps)
    ensures (font.handle, subidx) !in old(cache.slotMaps) ==>
              m == SlotMapOf(font.Glyphs()) && cache.slotMaps == old(cache.slotMaps)[(font.handle, subidx) := m]
    ensures subidx == font.active && old(cache.ValidFor(font)) ==> cache.ValidFor(font)
  {
    var key := (font.handle, subidx);
    if key in cache.slotMaps {
      m := cache.slotMaps[key];
      return;
    }
    m := BuildSlotMap(font.Glyphs());
    cache.slotMaps := cache.slotMaps[key := m];
  }

  /** _cid_present_set(font, subidx), cached in the same way. */
  method CidPresentSet(cache: SlotCache, font: Font, subidx: int) returns (present: set<int>)
    requires font.Valid()
    modifies cache`presentSets
    ensures (font.handle, subidx) in old(cache.presentSets) ==>
              present == old(cache.presentSets)[(font.handle, subidx)] && cache.presentSets == old(cache.presentSets)
    ensures (font.handle, subidx) !in old(cache.presentSets) ==>
              present == PresentOf(font.Glyphs()) &&
              cache.presentSets == old(cache.presentSets)[(font.handle, subidx) := present]
    ensures subidx == font.active && old(cache.ValidFor(font)) ==>
              cache.ValidFor(font) && present == PresentOf(font.Glyphs())
  {
    var key := (font.handle, subidx);
    if key in cache.presentSets {
      present := cache.presentSets[key];
      return;
    }
    present := BuildPresentSet(font.Glyphs());
    cache.presentSets := cache.presentSets[key := present];
  }

  // ---------------------------------------------------------------------
  // find_slot
  // ---------------------------------------------------------------------

  /** What find_slot answers for subfont sf of a font with `count` subfonts:
      the cached scan when count > 1, the engine's own table otherwise; -1
      when the codepoint is not found. */
  function SlotOf(sf: Subfont, count: nat, u: int): int
  {
    if count > 1 then MapGet(SlotMapOf(sf.glyphs), u) else MapGet(sf.encmap, u)
  }

  /** find_slot never raises: with a valid cache it answers SlotOf for the
      active subfont; it never changes the active subfont. */
  method FindSlot(cache: SlotCache, font: Font, u: int) returns (slot: int)
    requires font.Valid()
    modifies cache`slotMaps
    ensures old(cache.ValidFor(font)) ==> cache.ValidFor(font) && slot == SlotOf(font.Current(), font.Count(), u)
    ensures font.Count() <= 1 ==> cache.slotMaps == old(cache.slotMaps)
    ensures slot == MapGet(ConsultedMap(font.Current(), font.Count(), old(CachedEntry(cache, font))), u)
    ensures font.Count() > 1 ==> CachedEntry(cache, font) == Some(ConsultedMap(font.Current(), font.Count(), old(CachedEntry(cache, font))))
  {
    if font.Count() > 1 {
      var m := CidSlotMap(cache, font, font.active);
      slot := MapGet(m, u);
    } else {
      slot := MapGet(font.Current().encmap, u);
    }
  }

  /** The slot map cached for the subfont the font currently exposes. */
  function CachedEntry(cache: SlotCache, font: Font): Option<map<int, int>>
    reads cache, font
  {
    var key := (font.handle, font.active);
    if key in cache.slotMaps then Some(cache.slotMaps[key]) else None
  }

  /** The map find_slot answers from, whether or not the cache still
      matches the glyphs: the native encoding map of a font with at most
      one subfont; otherwise the map cached for the active subfont, or,
      with none cached yet, a scan of its glyphs as they are now. */
  function ConsultedMap(sf: Subfont, count: nat, cached: Option<map<int, int>>): map<int, int>
  {
    if count <= 1 then sf.encmap else if cached.Some? then cached.value else SlotMapOf(sf.glyphs)
  }

  /** In a CID font find_slot answers -1 when no glyph claims u, and
      otherwise the encoding of the first glyph claiming u. */
  lemma SlotOfCid(sf: Subfont, count: nat, u: int)
    requires count > 1
    ensures FirstClaimant(sf.glyphs, u).None? ==> SlotOf(sf, count, u) == -1
    ensures FirstClaimant(sf.glyphs, u).Some? ==>
              SlotOf(sf, count, u) == sf.glyphs[FirstClaimant(sf.glyphs, u).value].encoding
  {
    SlotMapFirstWriter(sf.glyphs, u);
  }

  // ---------------------------------------------------------------------
  // _cid_from_glyph_name (src/cid.py)
  // ---------------------------------------------------------------------

  /** N for "cid<digits>", "CID+<digits>" or "Identity.<digits>"; None for
      an empty name, a bare prefix or anything else. */
  function CidFromGlyphName(name: string): Option<nat>
  {
    if name == [] then None
    else if "cid" <= name && AllDigits(name[3..]) then Some(DigitsValue(name[3..]))
    else if "CID+" <= name && AllDigits(name[4..]) then Some(DigitsValue(name[4..]))
    else if "Identity." <= name && AllDigits(name[9..]) then Some(DigitsValue(name[9..]))
    else None
  }

  /** The three prefixes CID glyph names carry. */
  predicate CidPrefix(p: string)
  {
    p == "cid" || p == "CID+" || p == "Identity."
  }

  /** Spelling N after any of the prefixes parses back to N. */
  lemma CidNameRoundTrip(p: string, n: nat)
    requires CidPrefix(p)
    ensures CidFromGlyphName(p + NatToString(n)) == Some(n)
  {
    NatToStringRoundTrip(n);
    var name := p + NatToString(n);
    assert name[|p|..] == NatToString(n);
    if p == "CID+" {
      assert !("cid" <= name) by { assert name[0] == 'C'; }
    } else if p == "Identity." {
      assert !("cid" <= name) by { assert name[0] == 'I'; }
      assert !("CID+" <= name) by { assert name[0] == 'I'; }
    }
  }

  /** A parsed name is a prefix followed by the digits of the result. */
  lemma CidNameParsesOnly(name: string)
    requires CidFromGlyphName(name).Some?
    ensures exists p, d :: CidPrefix(p) && name == p + d && AllDigits(d) &&
                           DigitsValue(d) == CidFromGlyphName(name).value
  {
    if "cid" <= name && AllDigits(name[3..]) {
      assert name == "cid" + name[3..];
    } else if "CID+" <= name && AllDigits(name[4..]) {
      assert name == "CID+" + name[4..];
    } else {
      assert name == "Identity." + name[9..];
    }
  }

  /** Bare prefixes do not parse. */
  lemma BarePrefixesRejected()
    ensures CidFromGlyphName("") == None
    ensures CidFromGlyphName("cid") == None
    ensures CidFromGlyphName("CID+") == None
    ensures CidFromGlyphName("Identity.") == None
  {
    assert "cid"[3..] == "";
    assert "CID+"[4..] == "";
    assert "Identity."[9..] == "";
    assert "CID+"[0] != "cid"[0];
    assert "Identity."[0] != "cid"[0] && "Identity."[0] != "CID+"[0];
  }
}
