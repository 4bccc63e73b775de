/** bake_feature_substitutions (features.py): the substitutions extracted
    from a donor's GSUB, each resolved to glyphs of the destination by
    `pick` and baked through the protected pair step. */
module FeatureSubs {
  import opened Wrappers
  import opened FontData
  import opened FontModel
  import opened Text
  import opened CidSlots
  import opened Features
  import opened GsubExtract

  // ---------------------------------------------------------------------
  // pick
  // ---------------------------------------------------------------------

  /** `name.lower().startswith("cid")`, for ASCII letters. */
  predicate CidPrefixAnyCase(name: string)
  {
    |name| >= 3 && (name[0] == 'c' || name[0] == 'C') && (name[1] == 'i' || name[1] == 'I') &&
    (name[2] == 'd' || name[2] == 'D')
  }

  /** The glyph-order index pick tries: name_to_idx's entry, else N for a
      "cid<N>" name in any letter case, else none. */
  function PickIndex(name: string, nameToIdx: map<string, nat>): Option<nat>
  {
    if name in nameToIdx then Some(nameToIdx[name])
    else if CidPrefixAnyCase(name) && AllDigits(name[3..]) then Some(DigitsValue(name[3..]))
    else None
  }

  /** Whether pick gets as far as find_slot. */
  predicate AsksFindSlot(gs: seq<Glyph>, name: string, nameToIdx: map<string, nat>, nameToUni: map<string, int>, total: nat)
  {
    var idx := PickIndex(name, nameToIdx);
    NamedIndex(gs, name).None? &&
    !(idx.Some? && idx.value < total && SlotIndex(gs, idx.value).Some?) &&
    name in nameToUni
  }

  /** The cache entry after a find_slot call on slot space sf. */
  function AfterFindSlot(sf: Subfont, count: nat, cached: Option<map<int, int>>): Option<map<int, int>>
  {
    if count > 1 then Some(ConsultedMap(sf, count, cached)) else cached
  }

  /** pick(name) on slot space sf, with the cache entry before and after:
      by exact glyph name, else by glyph-order or "cid<N>" index when it
      lies in [0, total), else by the cmap codepoint through find_slot. */
  function PickIn(sf: Subfont, count: nat, cached: Option<map<int, int>>, name: string,
                  nameToIdx: map<string, nat>, nameToUni: map<string, int>, total: nat): (r: (Option<nat>, Option<map<int, int>>))
    ensures r.0.Some? ==> r.0.value < |sf.glyphs|
  {
    var gs := sf.glyphs;
    var byName := NamedIndex(gs, name);
    if byName.Some? then (byName, cached)
    else
      var idx := PickIndex(name, nameToIdx);
      var byIdx := if idx.Some? && idx.value < total then SlotIndex(gs, idx.value) else None;
      if byIdx.Some? then (byIdx, cached)
      else if name in nameToUni then
        var slot := MapGet(ConsultedMap(sf, count, cached), nameToUni[name]);
        (if slot != -1 then SlotIndex(gs, slot) else None, AfterFindSlot(sf, count, cached))
      else (None, cached)
  }

  /** What pick finds is a glyph with that name (the first one, whenever
      one exists), or the glyph at an in-range index, or the glyph in the
      slot find_slot gives for the name's codepoint; the cache changes only
      when find_slot is asked. The three steps are tried in that order: an
      in-range index with a glyph wins over the cmap when no glyph has the
      name, the cmap answers only when both earlier steps fail, and with
      none of the three pick finds nothing. */
  lemma PickSound(sf: Subfont, count: nat, cached: Option<map<int, int>>, name: string,
                  nameToIdx: map<string, nat>, nameToUni: map<string, int>, total: nat)
    ensures var (r, c) := PickIn(sf, count, cached, name, nameToIdx, nameToUni, total);
            var gs := sf.glyphs;
            var idx := PickIndex(name, nameToIdx);
            (NamedIndex(gs, name).Some? ==> r == NamedIndex(gs, name)) &&
            (r.Some? ==>
               gs[r.value].name == name ||
               (idx.Some? && idx.value < total && gs[r.value].encoding == idx.value) ||
               (name in nameToUni && gs[r.value].encoding == MapGet(ConsultedMap(sf, count, cached), nameToUni[name]) &&
                gs[r.value].encoding != -1)) &&
            (c == if AsksFindSlot(gs, name, nameToIdx, nameToUni, total) then AfterFindSlot(sf, count, cached) else cached) &&
            (NamedIndex(gs, name).None? && idx.Some? && idx.value < total && SlotIndex(gs, idx.value).Some? ==>
               r == SlotIndex(gs, idx.value) && c == cached) &&
            (AsksFindSlot(gs, name, nameToIdx, nameToUni, total) ==>
               var slot := MapGet(ConsultedMap(sf, count, cached), nameToUni[name]);
               r == (if slot != -1 then SlotIndex(gs, slot) else None)) &&
            ((NamedIndex(gs, name).None? && !(idx.Some? && idx.value < total && SlotIndex(gs, idx.value).Some?) &&
              name !in nameToUni) ==> r.None? && c == cached)
  {
  }

  /** A "cid<N>" name, in any letter case and absent from the glyph order,
      resolves to index N. */
  lemma PickIndexCid(p: string, n: nat, nameToIdx: map<string, nat>)
    requires |p| == 3 && CidPrefixAnyCase(p) && p + NatToString(n) !in nameToIdx
    ensures PickIndex(p + NatToString(n), nameToIdx) == Some(n)
  {
    NatToStringRoundTrip(n);
    assert (p + NatToString(n))[3..] == NatToString(n);
  }

  /** pick on the active slot space. */
  method PickGlyph(cache: SlotCache, font: Font, name: string, nameToIdx: map<string, nat>,
                   nameToUni: map<string, int>, total: nat) returns (r: Option<nat>)
    requires font.Valid()
    modifies cache`slotMaps
    ensures (r, CachedEntry(cache, font)) ==
            PickIn(font.Current(), font.Count(), old(CachedEntry(cache, font)), name, nameToIdx, nameToUni, total)
  {
    r := NamedIndex(font.Glyphs(), name);
    if r.Some? {
      return;
    }
    var idx := PickIndex(name, nameToIdx);
    if idx.Some? && idx.value < total {
      r := SlotIndex(font.Glyphs(), idx.value);
      if r.Some? {
        return;
      }
    }
    r := None;
    if name in nameToUni {
      var slot := FindSlot(cache, font, nameToUni[name]);
      if slot != -1 {
        r := SlotIndex(font.Glyphs(), slot);
      }
    }
  }

  // ---------------------------------------------------------------------
  // The substitution loop
  // ---------------------------------------------------------------------

  /** The per-tag dictionary's `per_tag[tag] = per_tag.get(tag, 0) + 1`. */
  function Bump(perTag: seq<(string, nat)>, t: string): (r: seq<(string, nat)>)
    ensures DistinctKeys(perTag) ==> DistinctKeys(r)
    ensures Total(r) == Total(perTag) + 1
  {
    match KeyIndex(perTag, t)
      case Some(k) =>
        TotalUpdate(perTag, k, (t, perTag[k].1 + 1));
        perTag[k := (t, perTag[k].1 + 1)]
      case None =>
        TotalSnoc(perTag, (t, 1));
        perTag + [(t, 1)]
  }

  /** The sum of the counts of an association list. */
  function Total(counts: seq<(string, nat)>): nat
  {
    if counts == [] then 0 else Total(counts[..|counts| - 1]) + counts[|counts| - 1].1
  }

  lemma TotalSnoc(counts: seq<(string, nat)>, e: (string, nat))
    ensures Total(counts + [e]) == Total(counts) + e.1
  {
    assert (counts + [e])[..|counts|] == counts;
  }

  lemma {:induction false} TotalUpdate(counts: seq<(string, nat)>, k: nat, e: (string, nat))
    requires k < |counts|
    ensures Total(counts[k := e]) == Total(counts) - counts[k].1 + e.1
  {
    var init := counts[..|counts| - 1];
    if k < |counts| - 1 {
      TotalUpdate(init, k, e);
      assert counts[k := e][..|counts| - 1] == init[k := e];
    } else {
      assert counts[k := e][..|counts| - 1] == init;
    }
  }

  /** The loop state: the glyphs, the cache entry of the active subfont,
      the number baked and the per-tag counts. */
  datatype BakeState = BakeState(glyphs: seq<Glyph>, cached: Option<map<int, int>>, baked: nat, perTag: seq<(string, nat)>)

  /** Names and indices the loop resolves against. */
  datatype Resolver = Resolver(nameToIdx: map<string, nat>, nameToUni: map<string, int>, total: nat)

  /** One substitution: pick both names, skip an unresolved side, then the
      protected pair step; a bake counts for the substitution's tag. */
  function DirectStep(sf: Subfont, count: nat, st: BakeState, x: Substitution, rv: Resolver): (r: BakeState)
    ensures |r.glyphs| == |st.glyphs|
  {
    var cur := sf.(glyphs := st.glyphs);
    var (b, c1) := PickIn(cur, count, st.cached, x.src, rv.nameToIdx, rv.nameToUni, rv.total);
    var (a, c2) := PickIn(cur, count, c1, x.dst, rv.nameToIdx, rv.nameToUni, rv.total);
    if b.None? || a.None? then st.(cached := c2)
    else
      var (out, hit) := PairStep(st.glyphs, b, a, Protection());
      if hit then BakeState(out, c2, st.baked + 1, Bump(st.perTag, x.tag)) else st.(cached := c2)
  }

  /** The loop over the substitutions, in order. */
  function DirectBake(sf: Subfont, count: nat, st: BakeState, subs: seq<Substitution>, rv: Resolver): (r: BakeState)
    ensures |r.glyphs| == |st.glyphs|
  {
    if subs == [] then st
    else DirectStep(sf, count, DirectBake(sf, count, st, subs[..|subs| - 1], rv), subs[|subs| - 1], rv)
  }

  /** The count returned is the sum of the per-tag counts, each tag listed
      once, and at most one bake per substitution. Protected glyphs never
      change, and no glyph is renamed or remapped. */
  lemma {:induction false} DirectBakeFacts(sf: Subfont, count: nat, gs: seq<Glyph>, cached: Option<map<int, int>>,
                                           subs: seq<Substitution>, rv: Resolver)
    ensures var r := DirectBake(sf, count, BakeState(gs, cached, 0, []), subs, rv);
            r.baked == Total(r.perTag) && DistinctKeys(r.perTag) && r.baked <= |subs| &&
            (forall k | 0 <= k < |gs| :: r.glyphs[k].name == gs[k].name && r.glyphs[k].unicode == gs[k].unicode) &&
            (forall k | 0 <= k < |gs| && Protection()(UnicodeOrUnmapped(gs[k].unicode)) :: r.glyphs[k] == gs[k])
  {
    if subs != [] {
      var init := subs[..|subs| - 1];
      var x := subs[|subs| - 1];
      DirectBakeFacts(sf, count, gs, cached, init, rv);
      var mid := DirectBake(sf, count, BakeState(gs, cached, 0, []), init, rv);
      var cur := sf.(glyphs := mid.glyphs);
      var (b, c1) := PickIn(cur, count, mid.cached, x.src, rv.nameToIdx, rv.nameToUni, rv.total);
      var (a, c2) := PickIn(cur, count, c1, x.dst, rv.nameToIdx, rv.nameToUni, rv.total);
      PairStepEffect(mid.glyphs, b, a, Protection());
    }
  }

  /** The protected pair step on two picked glyphs, with its counters. */
  method BakePicked(font: Font, b: Option<nat>, a: Option<nat>, tag: string, baked: nat, perTag: seq<(string, nat)>)
    returns (baked': nat, perTag': seq<(string, nat)>)
    requires font.Valid() && b.Some? && a.Some? && b.value < |font.Glyphs()| && a.value < |font.Glyphs()|
    modifies font`subfonts, font`selection
    ensures font.Valid() && OnlyGlyphs(font, old(font.subfonts), old(font.active))
    ensures var (out, hit) := PairStep(old(font.Glyphs()), b, a, Protection());
            font.Glyphs() == out && (baked', perTag') == if hit then (baked + 1, Bump(perTag, tag)) else (baked, perTag)
  {
    baked', perTag' := baked, perTag;
    var u := UnicodeOrUnmapped(font.Glyphs()[b.value].unicode);
    if Protection()(u) {
      assert old(font.subfonts)[font.active := old(font.Current())] == old(font.subfonts);
      return;
    }
    if font.Glyphs()[a.value].drawable {
      Overwrite(font, b.value, a.value);
      baked' := baked + 1;
      perTag' := Bump(perTag, tag);
    } else {
      assert old(font.subfonts)[font.active := old(font.Current())] == old(font.subfonts);
    }
  }

  /** One substitution on the active slot space. */
  method BakeOne(cache: SlotCache, font: Font, x: Substitution, rv: Resolver, baked: nat, perTag: seq<(string, nat)>,
                 ghost sf0: Subfont)
    returns (baked': nat, perTag': seq<(string, nat)>)
    requires font.Valid() && font.Current() == sf0.(glyphs := font.Glyphs())
    modifies font`subfonts, font`selection, cache`slotMaps
    ensures font.Valid() && OnlyGlyphs(font, old(font.subfonts), old(font.active))
    ensures BakeState(font.Glyphs(), CachedEntry(cache, font), baked', perTag') ==
            DirectStep(sf0, font.Count(), BakeState(old(font.Glyphs()), old(CachedEntry(cache, font)), baked, perTag), x, rv)
  {
    baked', perTag' := baked, perTag;
    ghost var cur := sf0.(glyphs := font.Glyphs());
    ghost var (b0, c1) := PickIn(cur, font.Count(), CachedEntry(cache, font), x.src, rv.nameToIdx, rv.nameToUni, rv.total);
    ghost var (a0, c2) := PickIn(cur, font.Count(), c1, x.dst, rv.nameToIdx, rv.nameToUni, rv.total);
    var b := PickGlyph(cache, font, x.src, rv.nameToIdx, rv.nameToUni, rv.total);
    assert b == b0 && CachedEntry(cache, font) == c1;
    var a := PickGlyph(cache, font, x.dst, rv.nameToIdx, rv.nameToUni, rv.total);
    assert a == a0 && CachedEntry(cache, font) == c2;
    if b.None? || a.None? {
      return;
    }
    baked', perTag' := BakePicked(font, b, a, x.tag, baked, perTag);
  }

  lemma DirectBakeSnoc(sf: Subfont, count: nat, st: BakeState, subs: seq<Substitution>, i: nat, rv: Resolver)
    requires i < |subs|
    ensures DirectBake(sf, count, st, subs[..i + 1], rv) == DirectStep(sf, count, DirectBake(sf, count, st, subs[..i], rv), subs[i], rv)
  {
    assert subs[..i + 1][..i] == subs[..i];
  }

  /** Substitution i of the loop. */
  method BakeNext(cache: SlotCache, font: Font, subs: seq<Substitution>, i: nat, rv: Resolver, baked: nat,
                  perTag: seq<(string, nat)>, ghost sf0: Subfont, ghost st0: BakeState)
    returns (baked': nat, perTag': seq<(string, nat)>)
    requires i < |subs| && font.Valid() && font.Current() == sf0.(glyphs := font.Glyphs())
    requires BakeState(font.Glyphs(), CachedEntry(cache, font), baked, perTag) == DirectBake(sf0, font.Count(), st0, subs[..i], rv)
    modifies font`subfonts, font`selection, cache`slotMaps
    ensures font.Valid() && OnlyGlyphs(font, old(font.subfonts), old(font.active))
    ensures font.Current() == sf0.(glyphs := font.Glyphs())
    ensures BakeState(font.Glyphs(), CachedEntry(cache, font), baked', perTag') == DirectBake(sf0, font.Count(), st0, subs[..i + 1], rv)
  {
    DirectBakeSnoc(sf0, font.Count(), st0, subs, i, rv);
    baked', perTag' := BakeOne(cache, font, subs[i], rv, baked, perTag, sf0);
  }

  /** bake_feature_substitutions(dst_font, subs, name_to_idx, name_to_uni);
      total is the glyph count on entry. */
  method BakeFeatureSubstitutions(cache: SlotCache, font: Font, subs: seq<Substitution>,
                                  nameToIdx: map<string, nat>, nameToUni: map<string, int>)
    returns (baked: nat, perTag: seq<(string, nat)>)
    requires font.Valid()
    modifies font`subfonts, font`selection, cache`slotMaps
    ensures font.Valid() && OnlyGlyphs(font, old(font.subfonts), old(font.active))
    ensures BakeState(font.Glyphs(), CachedEntry(cache, font), baked, perTag) ==
            DirectBake(old(font.Current()), font.Count(), BakeState(old(font.Glyphs()), old(CachedEntry(cache, font)), 0, []),
                       subs, Resolver(nameToIdx, nameToUni, |old(font.Glyphs())|))
  {
    ghost var sf0 := font.Current();
    ghost var st0 := BakeState(font.Glyphs(), CachedEntry(cache, font), 0, []);
    var rv := Resolver(nameToIdx, nameToUni, |font.Glyphs()|);
    baked, perTag := 0, [];
    var i := 0;
    while i < |subs|
      invariant 0 <= i <= |subs| && font.Valid() && OnlyGlyphs(font, old(font.subfonts), old(font.active))
      invariant font.Current() == sf0.(glyphs := font.Glyphs())
      invariant BakeState(font.Glyphs(), CachedEntry(cache, font), baked, perTag) == DirectBake(sf0, font.Count(), st0, subs[..i], rv)
    {
      baked, perTag := BakeNext(cache, font, subs, i, rv, baked, perTag, sf0, st0);
      i := i + 1;
    }
    assert subs[..i] == subs;
  }
}
