/** The map-aware resolver of src/cid.py. A candidate slot comes from the
    cmap-derived CID map, else from the glyph name the cmap gives (parsed as
    a CID name, else looked up by name), else from find_slot, the last only
    when no CID map is supplied. With a CID map a candidate must also be in
    the subfont's present set. Diagnostics are returned as a list of issues. */
module CidMapped {
  import opened Wrappers
  import opened FontData
  import opened FontModel
  import opened CidSlots
  import opened CidNames
  import opened CidResolve

  // ---------------------------------------------------------------------
  // build_cid_unicode_map, over the parsed cmap in dictionary order
  // ---------------------------------------------------------------------

  /** The map built from the cmap entries whose glyph names parse. */
  function CidMapOf(cmap: seq<(int, string)>): map<int, int>
  {
    if cmap == [] then map[]
    else
      var last := cmap[|cmap| - 1];
      var m := CidMapOf(cmap[..|cmap| - 1]);
      match CidFromGlyphName(last.1)
      case Some(c) => m[last.0 := c]
      case None => m
  }

  /** One cid_name_unparsed diagnostic per entry whose name does not parse. */
  function UnparsedOf(cmap: seq<(int, string)>): seq<Issue>
  {
    if cmap == [] then []
    else
      var last := cmap[|cmap| - 1];
      UnparsedOf(cmap[..|cmap| - 1]) +
      (if CidFromGlyphName(last.1).None? then [NameUnparsed(last.0, last.1)] else [])
  }

  /** The map has u exactly when some entry for u parses, and then holds
      the CID such an entry spells. */
  lemma {:induction false} CidMapEntries(cmap: seq<(int, string)>, u: int)
    ensures u in CidMapOf(cmap) <==> exists k | 0 <= k < |cmap| :: cmap[k].0 == u && CidFromGlyphName(cmap[k].1).Some?
    ensures u in CidMapOf(cmap) ==>
              exists k | 0 <= k < |cmap| :: cmap[k].0 == u && CidFromGlyphName(cmap[k].1) == Some(CidMapOf(cmap)[u])
  {
    if cmap != [] {
      var init := cmap[..|cmap| - 1];
      CidMapEntries(init, u);
      assert forall k | 0 <= k < |init| :: init[k] == cmap[k];
    }
  }

  /** Every diagnostic names an entry that does not parse, and every such
      entry is reported. */
  lemma {:induction false} UnparsedEntries(cmap: seq<(int, string)>, u: int, name: string)
    ensures NameUnparsed(u, name) in UnparsedOf(cmap) <==>
            (u, name) in cmap && CidFromGlyphName(name).None?
    ensures forall i | i in UnparsedOf(cmap) :: i.NameUnparsed?
  {
    if cmap != [] {
      var init := cmap[..|cmap| - 1];
      UnparsedEntries(init, u, name);
      assert cmap == init + [cmap[|cmap| - 1]];
    }
  }

  /** The loop of build_cid_unicode_map. */
  method BuildCidUnicodeMap(cmap: seq<(int, string)>) returns (out: map<int, int>, issues: seq<Issue>)
    ensures out == CidMapOf(cmap) && issues == UnparsedOf(cmap)
  {
    out := map[];
    issues := [];
    var i := 0;
    while i < |cmap|
      invariant 0 <= i <= |cmap|
      invariant out == CidMapOf(cmap[..i]) && issues == UnparsedOf(cmap[..i])
    {
      assert cmap[..i + 1][..i] == cmap[..i];
      var (uni, gname) := cmap[i];
      var cid := CidFromGlyphName(gname);
      if cid.Some? {
        out := out[uni := cid.value];
      } else {
        issues := issues + [NameUnparsed(uni, gname)];
      }
      i := i + 1;
    }
    assert cmap[..i] == cmap;
  }

  // ---------------------------------------------------------------------
  // The candidate slot and one subfont's outcome
  // ---------------------------------------------------------------------

  /** The candidate slot in subfont sf, None when nothing answers. An empty
      name map stands for a missing one. */
  function Candidate(cidMap: Option<map<int, int>>, nameMap: map<int, string>, sf: Subfont, cnt: nat, u: int)
    : (slot: Option<int>)
    ensures cidMap.Some? && u in cidMap.value ==> slot == Some(cidMap.value[u])
    ensures cidMap.None? ==> slot.Some?
    ensures slot.None? ==> cidMap.Some?
  {
    var fromMap := if cidMap.Some? && u in cidMap.value then Some(cidMap.value[u]) else None;
    var fromName :=
      if fromMap.None? && u in nameMap && nameMap[u] != [] then
        match CidFromGlyphName(nameMap[u])
        case Some(c) => Some(c as int)
        case None =>
          match NamedIndex(sf.glyphs, nameMap[u])
          case Some(k) => Some(sf.glyphs[k].encoding)
          case None => None
      else fromMap;
    if fromName.None? && cidMap.None? then Some(SlotOf(sf, cnt, u)) else fromName
  }

  /** Without either map the candidate is find_slot's answer. */
  lemma CandidateWithoutMaps(sf: Subfont, cnt: nat, u: int)
    ensures Candidate(None, map[], sf, cnt, u) == Some(SlotOf(sf, cnt, u))
  {
  }

  /** The body of the src/cid.py search loops for subfont j. */
  function ProbeMapped(sfs: seq<Subfont>, cnt: nat, cidMap: Option<map<int, int>>, nameMap: map<int, string>,
                       u: int, j: int): (o: Outcome)
    ensures o.Hit? ==> 0 <= j < cnt && j < |sfs| && o.slot != -1 && DrawsAt(sfs[j].glyphs, o.slot) &&
                       Candidate(cidMap, nameMap, sfs[j], cnt, u) == Some(o.slot)
    ensures o.Hit? && cidMap.Some? ==> o.slot in PresentOf(sfs[j].glyphs)
    ensures o.MissingSubfont? ==> cidMap.Some?
  {
    if 0 <= j < cnt && j < |sfs| then
      var slot := Candidate(cidMap, nameMap, sfs[j], cnt, u);
      if slot == Some(-1) then Skip
      else if cidMap.Some? && (slot.None? || slot.value !in PresentOf(sfs[j].glyphs)) then MissingSubfont(slot)
      else if slot.Some? && DrawsAt(sfs[j].glyphs, slot.value) then Hit(slot.value)
      else Skip
    else Skip
  }

  function MappedProbe(sfs: seq<Subfont>, cnt: nat, cidMap: Option<map<int, int>>, nameMap: map<int, string>, u: int)
    : int -> Outcome
  {
    j => ProbeMapped(sfs, cnt, cidMap, nameMap, u, j)
  }

  /** The answer and the diagnostics of the src/cid.py resolver. */
  function ResolveMappedSpec(sfs: seq<Subfont>, active: int, cnt: nat, idx: NameIndex,
                             cidMap: Option<map<int, int>>, nameMap: map<int, string>, u: int)
    : (Option<(Option<int>, int)>, seq<Issue>)
    requires 0 <= active < |sfs|
  {
    var mapIssue := if cidMap.Some? then [MapMissing(u)] else [];
    if cnt <= 0 then
      match Candidate(cidMap, nameMap, sfs[active], cnt, u)
      case None => (None, mapIssue)
      case Some(slot) =>
        if slot != -1 && DrawsAt(sfs[active].glyphs, slot) then (Some((None, slot)), []) else (None, mapIssue)
    else
      var scan := ScanOrder(PreferredIndices(Packaged, idx, u).0, cnt);
      var probe := MappedProbe(sfs, cnt, cidMap, nameMap, u);
      SearchVerdict(FirstHit(scan, probe), LastMissing(scan, probe), cidMap.Some?, u)
  }

  lemma MappedSpecCid(sfs: seq<Subfont>, active: int, cnt: nat, idx: NameIndex,
                      cidMap: Option<map<int, int>>, nameMap: map<int, string>, u: int)
    requires 0 <= active < |sfs| && cnt > 0
    ensures var scan := ScanOrder(PreferredIndices(Packaged, idx, u).0, cnt);
            var probe := MappedProbe(sfs, cnt, cidMap, nameMap, u);
            ResolveMappedSpec(sfs, active, cnt, idx, cidMap, nameMap, u) ==
            SearchVerdict(FirstHit(scan, probe), LastMissing(scan, probe), cidMap.Some?, u)
  {
  }

  /** The answer and the diagnostics once the search is over: a hit is
      returned silently; a failure with a CID map logs the last missing
      candidate, if any, then cid_slot_not_found. */
  function SearchVerdict(hit: Option<(int, int)>, missing: Option<Option<int>>, hasCidMap: bool, u: int)
    : (Option<(Option<int>, int)>, seq<Issue>)
  {
    match hit
    case Some((j, slot)) => (Some((Some(j), slot)), [])
    case None =>
      if !hasCidMap then (None, [])
      else (None, (if missing.Some? then [SlotMissingSubfont(u, missing.value)] else []) + [SlotNotFound(u)])
  }

  lemma {:induction false} FirstHitSameProbe(scan: seq<int>, p: int -> Outcome, q: int -> Outcome)
    requires forall k | 0 <= k < |scan| :: p(scan[k]) == q(scan[k])
    ensures FirstHit(scan, p) == FirstHit(scan, q)
  {
    if scan != [] {
      assert p(scan[0]) == q(scan[0]);
      assert forall k | 0 <= k < |scan[1..]| :: scan[1..][k] == scan[k + 1];
      FirstHitSameProbe(scan[1..], p, q);
    }
  }

  /** Called without maps, the src/cid.py resolver answers what the cid.py
      resolver answers over the current tables, and logs nothing. */
  lemma MappedWithoutMaps(sfs: seq<Subfont>, active: int, cnt: nat, idx: NameIndex, u: int)
    requires 0 <= active < |sfs|
    ensures ResolveMappedSpec(sfs, active, cnt, idx, None, map[], u) ==
            (ResolveSpec(Packaged, sfs, active, cnt, idx, u), [])
  {
    CandidateWithoutMaps(sfs[active], cnt, u);
    var scan := ScanOrder(PreferredIndices(Packaged, idx, u).0, cnt);
    forall k | 0 <= k < |scan|
      ensures MappedProbe(sfs, cnt, None, map[], u)(scan[k]) == SplitProbe(sfs, cnt, u)(scan[k])
    {
      var j := scan[k];
      if 0 <= j < cnt && j < |sfs| {
        CandidateWithoutMaps(sfs[j], cnt, u);
      }
    }
    FirstHitSameProbe(scan, MappedProbe(sfs, cnt, None, map[], u), SplitProbe(sfs, cnt, u));
  }

  /** With a CID map, a failed search always ends with cid_slot_not_found,
      preceded by cid_slot_missing_subfont exactly when some subfont lacked
      its candidate slot. */
  lemma MappedFailureLogged(sfs: seq<Subfont>, active: int, cnt: nat, idx: NameIndex,
                            cidMap: Option<map<int, int>>, nameMap: map<int, string>, u: int)
    requires 0 <= active < |sfs| && cnt > 0 && cidMap.Some?
    requires ResolveMappedSpec(sfs, active, cnt, idx, cidMap, nameMap, u).0.None?
    ensures var issues := ResolveMappedSpec(sfs, active, cnt, idx, cidMap, nameMap, u).1;
            |issues| >= 1 && issues[|issues| - 1] == SlotNotFound(u) &&
            (|issues| == 2 <==> exists j | j in ScanOrder(PreferredIndices(Packaged, idx, u).0, cnt) ::
                                    ProbeMapped(sfs, cnt, cidMap, nameMap, u, j).MissingSubfont?)
  {
    var scan := ScanOrder(PreferredIndices(Packaged, idx, u).0, cnt);
    LastMissingFound(scan, MappedProbe(sfs, cnt, cidMap, nameMap, u));
  }

  lemma {:induction false} LastMissingFound(scan: seq<int>, probe: int -> Outcome)
    ensures LastMissing(scan, probe).Some? <==> exists j | j in scan :: probe(j).MissingSubfont?
  {
    if scan != [] {
      LastMissingFound(scan[1..], probe);
      assert forall j | j in scan :: j == scan[0] || j in scan[1..];
    }
  }

  // ---------------------------------------------------------------------
  // The resolver
  // ---------------------------------------------------------------------

  /** The candidate lookup for the active subfont. */
  method CandidateSlot(cache: SlotCache, font: Font, cidMap: Option<map<int, int>>, nameMap: map<int, string>, u: int)
    returns (slot: Option<int>)
    requires font.Valid() && cache.ValidFor(font)
    modifies cache`slotMaps
    ensures cache.ValidFor(font)
    ensures slot == Candidate(cidMap, nameMap, font.Current(), font.Count(), u)
  {
    slot := None;
    if cidMap.Some? && u in cidMap.value {
      slot := Some(cidMap.value[u]);
    }
    if slot.None? && u in nameMap && nameMap[u] != [] {
      var gname := nameMap[u];
      var cid := CidFromGlyphName(gname);
      if cid.Some? {
        slot := Some(cid.value);
      } else {
        var k := NamedIndex(font.Glyphs(), gname);
        if k.Some? {
          slot := Some(font.Glyphs()[k.value].encoding);
        }
      }
    }
    if slot.None? && cidMap.None? {
      var s := FindSlot(cache, font, u);
      slot := Some(s);
    }
  }

  /** Switches to subfont j and probes it. */
  method TryMapped(cache: SlotCache, font: Font, cidMap: Option<map<int, int>>, nameMap: map<int, string>,
                   u: int, j: int) returns (o: Outcome)
    requires font.Valid() && cache.ValidFor(font)
    modifies font`active, cache`slotMaps, cache`presentSets
    ensures font.Valid() && cache.ValidFor(font)
    ensures o == ProbeMapped(font.subfonts, font.Count(), cidMap, nameMap, u, j)
  {
    var ok := font.SetActive(j);
    if !ok {
      return Skip;
    }
    var slot := CandidateSlot(cache, font, cidMap, nameMap, u);
    if slot == Some(-1) {
      return Skip;
    }
    if cidMap.Some? {
      var present := CidPresentSet(cache, font, j);
      if slot.None? || slot.value !in present {
        return MissingSubfont(slot);
      }
    }
    if slot.Some? && Worth(font.Glyphs(), SlotIndex(font.Glyphs(), slot.value)) {
      return Hit(slot.value);
    }
    return Skip;
  }

  /** A scan whose first index is not a hit: the first hit is the rest's,
      and a missing-subfont candidate at that index is the latest one unless
      a later index reports another. */
  lemma MissStep(scan: seq<int>, probe: int -> Outcome, missing: Option<Option<int>>)
    requires scan != [] && !probe(scan[0]).Hit?
    ensures FirstHit(scan, probe) == FirstHit(scan[1..], probe)
    ensures Later(missing, LastMissing(scan, probe)) ==
            Later(if probe(scan[0]).MissingSubfont? then Some(probe(scan[0]).missing) else missing,
                  LastMissing(scan[1..], probe))
  {
  }

  /** One index of the preferred loop. */
  method PreferredNextMapped(cache: SlotCache, font: Font, cidMap: Option<map<int, int>>,
                             nameMap: map<int, string>, u: int, order: seq<int>, i: nat,
                             ghost probe: int -> Outcome, missing0: Option<Option<int>>, tried0: set<int>)
    returns (hit: Option<(int, int)>, missing: Option<Option<int>>, tried: set<int>)
    requires font.Valid() && cache.ValidFor(font) && i < |order|
    requires probe == MappedProbe(font.subfonts, font.Count(), cidMap, nameMap, u)
    requires forall x :: x in tried0 <==> x in order[..i]
    modifies font`active, cache`slotMaps, cache`presentSets
    ensures font.Valid() && cache.ValidFor(font)
    ensures probe == MappedProbe(font.subfonts, font.Count(), cidMap, nameMap, u)
    ensures forall x :: x in tried <==> x in order[..i + 1]
    ensures hit.Some? ==> hit == FirstHit(order[i..], probe)
    ensures hit.None? ==>
              FirstHit(order[i..], probe) == FirstHit(order[i + 1..], probe) &&
              Later(missing0, LastMissing(order[i..], probe)) == Later(missing, LastMissing(order[i + 1..], probe))
  {
    assert order[..i + 1] == order[..i] + [order[i]];
    tried := tried0 + {order[i]};
    missing := missing0;
    assert order[i..][1..] == order[i + 1..];
    var o := TryMapped(cache, font, cidMap, nameMap, u, order[i]);
    if o.Hit? {
      return Some((order[i], o.slot)), missing, tried;
    }
    MissStep(order[i..], probe, missing);
    if o.MissingSubfont? {
      missing := Some(o.missing);
    }
    hit := None;
  }

  /** The preferred loop, tracking the last missing-subfont candidate. */
  method SearchPreferredMapped(cache: SlotCache, font: Font, cidMap: Option<map<int, int>>,
                               nameMap: map<int, string>, u: int, order: seq<int>)
    returns (hit: Option<(int, int)>, tried: set<int>, missing: Option<Option<int>>)
    requires font.Valid() && cache.ValidFor(font)
    modifies font`active, cache`slotMaps, cache`presentSets
    ensures font.Valid() && cache.ValidFor(font)
    ensures hit == FirstHit(order, MappedProbe(font.subfonts, font.Count(), cidMap, nameMap, u))
    ensures hit.None? ==> (forall x :: x in tried <==> x in order) &&
                          missing == LastMissing(order, MappedProbe(font.subfonts, font.Count(), cidMap, nameMap, u))
  {
    ghost var probe := MappedProbe(font.subfonts, font.Count(), cidMap, nameMap, u);
    tried := {};
    missing := None;
    hit := None;
    var i := 0;
    while i < |order|
      invariant font.Valid() && cache.ValidFor(font)
      invariant hit.None?
      invariant probe == MappedProbe(font.subfonts, font.Count(), cidMap, nameMap, u)
      invariant 0 <= i <= |order|
      invariant FirstHit(order, probe) == FirstHit(order[i..], probe)
      invariant Later(missing, LastMissing(order[i..], probe)) == LastMissing(order, probe)
      invariant forall x :: x in tried <==> x in order[..i]
    {
      hit, missing, tried := PreferredNextMapped(cache, font, cidMap, nameMap, u, order, i, probe, missing, tried);
      if hit.Some? {
        break;
      }
      i := i + 1;
    }
    if hit.None? {
      assert order[..i] == order;
    }
  }

  /** One untried index of the fallback loop that is not a hit: the first
      hit is the rest's, and a missing-subfont candidate it reports is the
      latest one unless a later index reports another. */
  lemma FallbackMissStep(order: seq<int>, j: int, cnt: int, probe: int -> Outcome, missing: Option<Option<int>>)
    requires 0 <= j < cnt && j !in order && !probe(j).Hit?
    ensures FirstHit(Untried(order, j, cnt), probe) == FirstHit(Untried(order, j + 1, cnt), probe)
    ensures Later(missing, LastMissing(Untried(order, j, cnt), probe)) ==
            Later(if probe(j).MissingSubfont? then Some(probe(j).missing) else missing,
                  LastMissing(Untried(order, j + 1, cnt), probe))
  {
    var rest := Untried(order, j + 1, cnt);
    assert Untried(order, j, cnt) == [j] + rest;
    assert ([j] + rest)[1..] == rest;
  }

  /** One index of the fallback loop: a tried index is skipped, an untried
      one is probed. */
  method FallbackNextMapped(cache: SlotCache, font: Font, cidMap: Option<map<int, int>>,
                            nameMap: map<int, string>, u: int, order: seq<int>, tried: set<int>,
                            j: int, ghost probe: int -> Outcome, missing0: Option<Option<int>>)
    returns (hit: Option<(int, int)>, missing: Option<Option<int>>)
    requires font.Valid() && cache.ValidFor(font) && 0 <= j < font.Count()
    requires forall x :: x in tried <==> x in order
    requires probe == MappedProbe(font.subfonts, font.Count(), cidMap, nameMap, u)
    modifies font`active, cache`slotMaps, cache`presentSets
    ensures font.Valid() && cache.ValidFor(font) && font.Count() == old(font.Count())
    ensures probe == MappedProbe(font.subfonts, font.Count(), cidMap, nameMap, u)
    ensures hit.Some? ==> hit == FirstHit(Untried(order, j, font.Count()), probe)
    ensures hit.None? ==>
              FirstHit(Untried(order, j, font.Count()), probe) == FirstHit(Untried(order, j + 1, font.Count()), probe) &&
              Later(missing0, LastMissing(Untried(order, j, font.Count()), probe)) ==
              Later(missing, LastMissing(Untried(order, j + 1, font.Count()), probe))
  {
    missing := missing0;
    if j in tried {
      return None, missing;
    }
    var o := TryMapped(cache, font, cidMap, nameMap, u, j);
    if o.Hit? {
      assert Untried(order, j, font.Count()) == [j] + Untried(order, j + 1, font.Count());
      return Some((j, o.slot)), missing;
    }
    FallbackMissStep(order, j, font.Count(), probe, missing);
    if o.MissingSubfont? {
      missing := Some(o.missing);
    }
    hit := None;
  }

  /** The fallback loop over range(cnt), skipping the tried indices. */
  method SearchFallbackMapped(cache: SlotCache, font: Font, cidMap: Option<map<int, int>>,
                              nameMap: map<int, string>, u: int, order: seq<int>, tried: set<int>,
                              missing0: Option<Option<int>>)
    returns (hit: Option<(int, int)>, missing: Option<Option<int>>)
    requires font.Valid() && cache.ValidFor(font)
    requires forall x :: x in tried <==> x in order
    modifies font`active, cache`slotMaps, cache`presentSets
    ensures font.Valid() && cache.ValidFor(font)
    ensures hit == FirstHit(Untried(order, 0, font.Count()), MappedProbe(font.subfonts, font.Count(), cidMap, nameMap, u))
    ensures hit.None? ==>
              missing == Later(missing0, LastMissing(Untried(order, 0, font.Count()),
                                                     MappedProbe(font.subfonts, font.Count(), cidMap, nameMap, u)))
  {
    ghost var probe := MappedProbe(font.subfonts, font.Count(), cidMap, nameMap, u);
    var cnt := font.Count();
    missing := missing0;
    hit := None;
    var j := 0;
    while j < cnt
      invariant font.Valid() && cache.ValidFor(font) && font.Count() == cnt
      invariant hit.None?
      invariant probe == MappedProbe(font.subfonts, font.Count(), cidMap, nameMap, u)
      invariant 0 <= j <= cnt
      invariant FirstHit(Untried(order, 0, cnt), probe) == FirstHit(Untried(order, j, cnt), probe)
      invariant Later(missing, LastMissing(Untried(order, j, cnt), probe)) ==
                Later(missing0, LastMissing(Untried(order, 0, cnt), probe))
    {
      hit, missing := FallbackNextMapped(cache, font, cidMap, nameMap, u, order, tried, j, probe, missing);
      if hit.Some? {
        break;
      }
      j := j + 1;
    }
    if hit.None? {
      assert Untried(order, j, cnt) == [];
    }
  }

  /** The flat-font branch (cidsubfontcnt <= 0). */
  method ResolveMappedFlat(cache: SlotCache, font: Font, u: int, idx: NameIndex,
                           cidMap: Option<map<int, int>>, nameMap: map<int, string>)
    returns (r: Option<(Option<int>, int)>, issues: seq<Issue>)
    requires font.Valid() && cache.ValidFor(font) && font.Count() <= 0
    modifies cache`slotMaps
    ensures cache.ValidFor(font)
    ensures (r, issues) == ResolveMappedSpec(font.subfonts, font.active, font.Count(), idx, cidMap, nameMap, u)
  {
    issues := if cidMap.Some? then [MapMissing(u)] else [];
    var slot := CandidateSlot(cache, font, cidMap, nameMap, u);
    if slot.None? {
      return None, issues;
    }
    if slot.value != -1 && Worth(font.Glyphs(), SlotIndex(font.Glyphs(), slot.value)) {
      return Some((None, slot.value)), [];
    }
    r := None;
  }

  /** Both loops over the scan order. */
  method SearchMapped(cache: SlotCache, font: Font, cidMap: Option<map<int, int>>,
                      nameMap: map<int, string>, u: int, order: seq<int>)
    returns (hit: Option<(int, int)>, missing: Option<Option<int>>)
    requires font.Valid() && cache.ValidFor(font)
    modifies font`active, cache`slotMaps, cache`presentSets
    ensures font.Valid() && cache.ValidFor(font)
    ensures hit == FirstHit(ScanOrder(order, font.Count()), MappedProbe(font.subfonts, font.Count(), cidMap, nameMap, u))
    ensures hit.None? ==>
              missing == LastMissing(ScanOrder(order, font.Count()), MappedProbe(font.subfonts, font.Count(), cidMap, nameMap, u))
  {
    ghost var probe := MappedProbe(font.subfonts, font.Count(), cidMap, nameMap, u);
    FirstHitConcat(order, Untried(order, 0, font.Count()), probe);
    LastMissingConcat(order, Untried(order, 0, font.Count()), probe);
    var tried;
    hit, tried, missing := SearchPreferredMapped(cache, font, cidMap, nameMap, u, order);
    if hit.None? {
      hit, missing := SearchFallbackMapped(cache, font, cidMap, nameMap, u, order, tried, missing);
    }
  }

  /** The CID branch: the search, the diagnostics, the restore. */
  method ResolveMappedCid(cache: SlotCache, font: Font, u: int, idx: NameIndex,
                          cidMap: Option<map<int, int>>, nameMap: map<int, string>)
    returns (r: Option<(Option<int>, int)>, issues: seq<Issue>)
    requires font.Valid() && cache.ValidFor(font) && font.Count() > 0
    modifies font`active, cache`slotMaps, cache`presentSets
    ensures font.Valid() && cache.ValidFor(font) && font.active == old(font.active)
    ensures (r, issues) ==
            SearchVerdict(FirstHit(ScanOrder(PreferredIndices(Packaged, idx, u).0, font.Count()),
                                   MappedProbe(font.subfonts, font.Count(), cidMap, nameMap, u)),
                          LastMissing(ScanOrder(PreferredIndices(Packaged, idx, u).0, font.Count()),
                                      MappedProbe(font.subfonts, font.Count(), cidMap, nameMap, u)),
                          cidMap.Some?, u)
  {
    var saved := font.active;
    var (order, _) := PreferredIndices(Packaged, idx, u);
    var hit, missing := SearchMapped(cache, font, cidMap, nameMap, u, order);
    var restored := font.SetActive(saved);
    assert restored;
    var verdict := SearchVerdict(hit, missing, cidMap.Some?, u);
    r, issues := verdict.0, verdict.1;
  }

  /** resolve_src_slot_cid of src/cid.py. */
  method ResolveMapped(cache: SlotCache, font: Font, u: int, idx: NameIndex,
                       cidMap: Option<map<int, int>>, nameMap: map<int, string>)
    returns (r: Option<(Option<int>, int)>, issues: seq<Issue>)
    requires font.Valid() && cache.ValidFor(font)
    modifies font`active, cache`slotMaps, cache`presentSets
    ensures font.Valid() && cache.ValidFor(font) && font.active == old(font.active)
    ensures (r, issues) == ResolveMappedSpec(font.subfonts, font.active, font.Count(), idx, cidMap, nameMap, u)
  {
    if font.Count() <= 0 {
      r, issues := ResolveMappedFlat(cache, font, u, idx, cidMap, nameMap);
    } else {
      r, issues := ResolveMappedCid(cache, font, u, idx, cidMap, nameMap);
      MappedSpecCid(font.subfonts, font.active, font.Count(), idx, cidMap, nameMap, u);
    }
  }
}
