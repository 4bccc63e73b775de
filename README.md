# Yonhwa Magazine Sans: glyph resolution and rewriting, in Dafny

The Yonhwa Magazine Sans build merges glyphs from Japanese donor fonts into a Korean base font with FontForge, and then rewrites glyphs from OpenType features. This project models the logic of that build: the code that decides which glyph to use and how to rewrite it. It then proves what that code promises.

The FontForge font is abstracted as a `Font` class (`font.dfy`). The class holds:

- the subfonts of a CID-keyed font, or one subfont for a flat font;
- the mutable active-subfont index;
- the GSUB lookups;
- the selection;
- the whole-font transforms applied so far;
- the naming fields.

Each glyph is a record (`font_data.dfy`) with:

- a name, an encoding slot, a primary `unicode` (-1 when unmapped) and `altuni` alternates;
- a width;
- an uninterpreted outline, made of a token plus the transforms recorded on it;
- a drawability flag, which stands for FontForge's `isWorthOutputting`;
- anchors.

Copy and paste become assignment of the outline. A transform is recorded, not interpreted.

The modules follow the program's files:

- `ranges.dfy`, `unicode_tables.dfy` and `jp_extra.dfy`:
  - inclusive-range membership and iteration;
  - the Japanese eligibility rule;
  - both generations of the script tables;
  - the Japanese extra-glyph whitelist.
- `cid_slots.dfy`:
  - the first-writer-wins codepoint-to-slot map, cached per font handle and subfont;
  - the per-subfont present set;
  - `find_slot`;
  - CID glyph-name parsing.
- `cid_names.dfy`: subfont naming, the name index, pattern ranking and the preferred-subfont order.
- `cid_resolve.dfy` and `cid_mapped.dfy`: the search over subfonts for a drawable source glyph. There are two versions: the native one, and the one that takes its slot from a CID map.
- `glyph_copy.dfy`: the glyph copier, and the stripper that unmaps and then clears.
- `geometry.dfy`: the per-glyph bake, half-to-even rounding, and the whole-font transform.
- `features.py`'s logic is spread over three modules:
  - `features.dfy`: the outline overwrite, the protection rule, the single-glyph alternates (GSUB coverage, slashed zero and suffixes), and lookup removal and listing;
  - `gsub_extract.dfy`: extraction of substitution pairs from a parsed GSUB table;
  - `feature_subs.dfy`: glyph-name resolution and the direct substitution bake.
- `case_offsets.dfy`: the case-sensitive baseline shifts.
- `font_io.dfy`: the PostScript-name sanitiser and the name table.

The repository holds two generations of some helpers:

- the current modules under `src/`;
- the older top-level `cid.py`, `unicode_ranges.py` and `build.py`.

Where they differ, the model has both variants. Examples: the ideograph ranking, the CJK table, and the single-glyph-alternates baker.

## Model

| member | source | states |
|---|---|---|
| Ranges.InAnyIff | ranges.py:8-13 | `in_any(u, rs)` holds iff some pair of `rs` has `a <= u <= b` |
| Ranges.InAnyEmpty | ranges.py:8-13 | `in_any` is false for the empty list |
| Ranges.InAnyConcat | ranges.py:8-13 | `in_any` over a concatenation of range lists is the disjunction over the parts |
| Ranges.SpanShape | ranges.py:19-20 | one pair yields `b - a + 1` values (none when `b < a`), ascending from `a` |
| Ranges.SpanMembers | ranges.py:19-20 | one pair yields exactly the values of `[a, b]` |
| Ranges.IterRangesLength | ranges.py:16-20 | `iter_ranges` yields the sum over pairs of `max(0, b - a + 1)` values |
| Ranges.IterRangesMembers | ranges.py:16-20 | a value is yielded iff `in_any` holds for it |
| Ranges.IterRangesConcat | ranges.py:16-20 | pairs are visited in list order: iteration over a concatenation is the concatenation of the iterations |
| Ranges.OverlapYieldsDuplicates | ranges.py:16-20 | overlapping pairs yield a value twice; there is no de-duplication |
| Ranges.JpRefusedIff | ranges.py:23-27 | `jp_allowed(u)` is false iff `u` is in an excluded range and in no digit range |
| Ranges.DigitsAlwaysAllowed | build.py:34-38 | a digit codepoint is allowed whatever the excluded ranges hold |
| UnicodeTables.TablesWellFormed | src/unicode_ranges.py:11-69 | every entry of both generations of the tables is a pair with `start <= end` |
| UnicodeTables.JpTargetKanaFirst | src/unicode_ranges.py:71 | iterating `JP_TARGET_RANGES` visits the kana ranges and then the ideograph ranges |
| UnicodeTables.HalfwidthIsKana | src/unicode_ranges.py:34-44 | the halfwidth block 0xFF65-0xFF9F is a kana range in both tables |
| UnicodeTables.DigitsNotExcluded | src/unicode_ranges.py:11-16 | no digit-range codepoint lies in an excluded punctuation range |
| UnicodeTables.ExclusionBoundaries | src/unicode_ranges.py:62-69 | in the fullwidth block the exclusions skip exactly 0xFF10-0xFF19, and the general-punctuation exclusion stops at 0x206F |
| UnicodeTables.JpAllowedIffNotExcluded | unicode_ranges.py:46-53 | with either table, a codepoint is allowed iff no excluded range holds it |
| UnicodeTables.LegacyCjkInBmp | unicode_ranges.py:38-43 | every ideograph range of the older table lies in the BMP; 0x20000 is an ideograph only in the current table |
| JpExtra.NamedInStep | src/unicode_ranges.py:80-93 | the `similar` scan adds a codepoint exactly when it has a Unicode name |
| JpExtra.BuildJpExtraSet | src/unicode_ranges.py:74-95 | the result is the non-whitespace input codepoints plus the named codepoints of 0x3200-0x33FF; every input character that is not whitespace is a member, and every member comes from one or the other |
| Text.DigitChar | src/cid.py:62-72 | a decimal digit's character is an ASCII digit with that value |
| Text.NatToStringRoundTrip | src/cid.py:62-72 | printing a number in decimal gives ASCII digits only, and parsing them back gives the number |
| Text.ContainsIff | cid.py:128-142 | the substring test behind `pattern in name` holds iff the pattern occurs at some position |
| CidSlots.FirstClaimant | cid.py:21-51 | names the first glyph, in scan order, that claims a codepoint by its primary unicode or an `altuni` entry; no earlier glyph claims it, and none claims it when there is no answer |
| CidSlots.AddAltsEffect | cid.py:44-51 | the `altuni` loop adds each codepoint other than -1 not yet mapped, with the glyph's encoding, and changes no mapped codepoint |
| CidSlots.AddGlyphEffect | cid.py:29-51 | one glyph maps the codepoints it claims that were not yet mapped to its encoding, and changes no existing entry |
| CidSlots.ScanFromEffect | cid.py:21-53 | scanning glyphs keeps earlier entries; a new codepoint is mapped iff some glyph claims it, to the first claimant's encoding |
| CidSlots.SlotMapFirstWriter | src/cid.py:14-59 | `_cid_slot_map` is first-writer-wins: a codepoint is a key iff some glyph claims it, its value is the first claimant's encoding, and -1 is never a key |
| CidSlots.BuildSlotMap | cid.py:21-53 | the map-building loop computes that first-writer-wins map |
| CidSlots.BuildPresentSet | src/cid.py:85-93 | the present set is exactly the set of encodings of the subfont's glyphs |
| CidSlots.SlotCache.constructor | cid.py:8 | both caches start empty |
| CidSlots.CidSlotMap | cid.py:11-56 | a cached (font, subfont) entry is returned without a rescan; otherwise the map is built, stored under that key, and returned |
| CidSlots.CidPresentSet | src/cid.py:75-95 | the same caching for the present set, which then equals the encodings of the subfont's glyphs |
| CidSlots.FindSlot | cid.py:59-77 | with more than one subfont, the answer is the active subfont's map entry or -1, and the map is cached; otherwise the native slot is returned and the cache is unchanged; the answer comes from the map consulted on entry, even a stale cached one |
| CidSlots.SlotOfCid | cid.py:65-73 | with more than one subfont, `find_slot` is -1 when no glyph claims the codepoint, and otherwise the first claimant's encoding |
| CidSlots.CidNameRoundTrip | src/cid.py:62-72 | `cid`, `CID+` or `Identity.` followed by a number in decimal parses back to that number |
| CidSlots.CidNameParsesOnly | src/cid.py:62-72 | a name that parses is one of the three prefixes followed by ASCII digits with that value |
| CidSlots.BarePrefixesRejected | src/cid.py:64-72 | the empty name and a bare prefix parse to None |
| CidNames.DisplayName | cid.py:101-111 | a subfont is named by its `fontname`, or else its `fullname`, or else `subfont#i` when reading the full name raises |
| CidNames.SubfontNames | cid.py:80-117 | `get_cid_subfont_names` gives one entry per index in order, each with that subfont's display name, and puts back the saved active subfont |
| CidNames.Keys | cid.py:122-124 | the name index's keys in insertion order, one per entry |
| CidNames.Get | cid.py:122-124 | a name has no entry iff it is not a key |
| CidNames.PutEffect | cid.py:124 | assigning a name gives it the new index and leaves every other name alone; a new key goes last and an existing key keeps its position; keys stay distinct |
| CidNames.PutGet | cid.py:124 | after `idx[n] = i`, looking up `n` gives `i` and looking up any other name gives what it gave before |
| CidNames.PutKeys | cid.py:124 | `idx[n] = i` appends `n` to the keys when it is new and leaves the key order alone otherwise |
| CidNames.LastWithName | cid.py:123-124 | names the index of the last subfont carrying a name |
| CidNames.IndexOfLastWins | cid.py:120-125 | in `build_cid_name_index` a later subfont with a duplicate name overwrites the earlier index; keys are distinct |
| CidNames.BuildCidNameIndex | cid.py:120-125 | the index is built from the subfont names listed in order, and the active subfont is put back |
| CidNames.DedupFacts | cid.py:135-141 | de-duplication leaves no duplicate and keeps exactly the values of its input |
| CidNames.HitsOneMembers | cid.py:132-134 | for one pattern, an index is collected iff some name mapped to it contains the pattern |
| CidNames.HitsMembers | cid.py:131-134 | over all patterns, an index is collected iff some name mapped to it contains some pattern |
| CidNames.PickedMembers | cid.py:128-142 | `pick_cid_indices_by_patterns` has no duplicates, and an index appears iff some name mapped to it contains some pattern |
| CidNames.HitsOfPattern | cid.py:132-134 | the inner loop collects, in index order, the entries whose name contains the pattern |
| CidNames.DedupInOrder | cid.py:135-141 | the `seen` loop keeps the first occurrence of each index, in order |
| CidNames.PickByPatterns | cid.py:128-142 | the method computes the de-duplicated hits, ordered by the first matching pattern and then by index insertion order |
| CidNames.PreferredIndices | cid.py:145-156 | `only_preferred` is always false; the list has no duplicates and holds exactly the indices whose names match a pattern of the codepoint's category |
| CidNames.IdeographRanking | build.py:316-327 | ideographs rank `Ideographs`, `ProportionalCJK`, `HWidthCJK`, `Generic` in the monolithic build, and only the first two in `cid.py` and `src/cid.py` |
| CidNames.KanaCjkDisjoint | src/cid.py:224-233 | an ideograph is neither kana nor halfwidth, so checking the categories in the order halfwidth, kana, ideograph, Generic puts every ideograph in the ideograph category |
| CidResolve.UntriedMembers | cid.py:203-205 | the fallback scan visits exactly the indices of `[0, cnt)` not in the preferred order |
| CidResolve.ScanOrderCovers | cid.py:185-217 | preferred order followed by the fallback reaches every subfont index |
| CidResolve.FirstHit | cid.py:185-217 | the search's answer is a scanned subfont whose probe hits, and there is no answer only when no probe hits |
| CidResolve.FirstHitConcat | cid.py:185-219 | the fallback is consulted only when the preferred scan finds nothing |
| CidResolve.FirstHitIsFirst | cid.py:185-217 | no subfont scanned before the answer hits: the first drawable hit wins |
| CidResolve.LastMissingConcat | src/cid.py:311-314 | across both scans, the remembered `missing_slot` is the one from the last subfont that missed it |
| CidResolve.ProbeSplit | cid.py:187-198 | a subfont hits only when it exists, `find_slot` gives a slot other than -1 there, and that glyph is drawable |
| CidResolve.TrySubfont | cid.py:187-198 | probing one subfont computes that outcome, and leaves that subfont active when the index exists |
| CidResolve.SearchPreferred | cid.py:185-198 | the preferred loop returns the first hit in preferred order; when nothing hits, `tried` is exactly the preferred order |
| CidResolve.SearchFallback | cid.py:203-217 | the fallback loop returns the first hit among the untried indices, in index order |
| CidResolve.FallbackNext | cid.py:203-217 | one fallback index: a tried index is skipped; an untried index either hits, giving the first hit of the untried indices from it on, or leaves the first hit to the later indices. The count and the probe are unchanged |
| CidResolve.ResolveFlat | cid.py:165-173 | for a font that is not CID-keyed, the answer is `(None, find_slot(u))` when that slot holds a drawable glyph, and nothing otherwise |
| CidResolve.ResolveCid | cid.py:175-224 | for a CID-keyed font, the answer is the first hit of the preferred order followed by the untried indices, and the active subfont is restored |
| CidResolve.Resolve | cid.py:159-224 | `resolve_src_slot_cid` computes its specification in each of the three builds, and the active subfont is restored on every exit |
| CidResolve.ResolveSound | cid.py:165-217 | a flat font answers `(None, slot)` with a drawable glyph; a CID font answers an existing subfont whose `find_slot` gives the slot, and that glyph is drawable: never a non-drawable one |
| CidResolve.ResolveComplete | cid.py:200-219 | `only_preferred` is false, so a CID font finds a glyph whenever some subfont has a drawable one |
| CidResolve.ResolvePreferredFirst | cid.py:185-198 | when a preferred subfont has a drawable glyph, the answer is a preferred subfont |
| CidMapped.CidMapEntries | src/cid.py:105-110 | the CID map has a key exactly for the cmap entries whose glyph name parses, with a parsed value |
| CidMapped.UnparsedEntries | src/cid.py:111-112 | `cid_name_unparsed` is logged exactly for the cmap entries whose glyph name does not parse |
| CidMapped.BuildCidUnicodeMap | src/cid.py:98-118 | the map-building loop computes that map and that log |
| CidMapped.Candidate | src/cid.py:295-308 | the candidate slot tries the CID map, then the parsed glyph name, then the glyph's encoding by name; `find_slot` is used, and always answers, only without a CID map |
| CidMapped.CandidateWithoutMaps | src/cid.py:307-308 | with neither map the candidate is `find_slot`'s answer |
| CidMapped.ProbeMapped | src/cid.py:309-319 | a hit is drawable and is the candidate; with a CID map it is also in that subfont's present set; only a CID map can report a missing subfont |
| CidMapped.MappedSpecCid | src/cid.py:277-362 | the map-aware search over a CID font is the first hit over preferred-then-fallback order, and otherwise the verdict built from the last miss |
| CidMapped.FirstHitSameProbe | src/cid.py:289-355 | two probes that agree on the scanned subfonts find the same hit |
| CidMapped.MappedWithoutMaps | src/cid.py:236-367 | with no CID map and no name map the map-aware resolver agrees with the native one and logs nothing |
| CidMapped.MappedFailureLogged | src/cid.py:357-362 | with a CID map and no answer, `cid_slot_not_found` is logged last, preceded by `cid_slot_missing_subfont` exactly when some scanned subfont missed the slot |
| CidMapped.LastMissingFound | src/cid.py:311-314 | a miss is remembered iff some scanned subfont lacks the candidate slot |
| CidMapped.CandidateSlot | src/cid.py:295-308 | the lookup chain computes the candidate for the active subfont |
| CidMapped.TryMapped | src/cid.py:291-319 | probing one subfont computes its map-aware outcome |
| CidMapped.SearchPreferredMapped | src/cid.py:289-319 | the preferred loop returns the first hit, and otherwise `tried` and the last miss |
| CidMapped.SearchFallbackMapped | src/cid.py:324-355 | the fallback loop returns the first hit among untried indices, or carries the last miss forward |
| CidMapped.MissStep | src/cid.py:289-319 | a preferred index that does not hit passes the first hit on to the later indices; a missing-subfont miss becomes the latest one unless a later index reports another |
| CidMapped.PreferredNextMapped | src/cid.py:289-319 | one preferred index joins `tried` and either hits, giving the first hit of the order from it on, or passes the first hit and the last miss on to the later indices |
| CidMapped.FallbackMissStep | src/cid.py:324-350 | an untried index that does not hit passes the first hit on to the later untried indices, and its missing-subfont miss becomes the latest one unless a later index reports another |
| CidMapped.FallbackNextMapped | src/cid.py:324-355 | one fallback index is skipped when tried; otherwise it hits, giving the first hit of the untried indices from it on, or passes the first hit and the last miss on. The count and probe are unchanged |
| CidMapped.ResolveMappedFlat | src/cid.py:248-275 | a flat font follows the same lookup chain, and logs `cid_map_missing` when a CID map was given and nothing drawable is found |
| CidMapped.SearchMapped | src/cid.py:289-355 | both loops together give the first hit over the whole scan order, or the last miss |
| CidMapped.ResolveMappedCid | src/cid.py:277-367 | a CID font gives that verdict, and the active subfont is restored |
| CidMapped.ResolveMapped | src/cid.py:236-367 | the map-aware `resolve_src_slot_cid` computes its specification, and the active subfont is restored on every path |
| GlyphCopy.AnchorsAfterNormalising | src/glyph_copy.py:12-19 | anchors are dropped exactly when `NORMALIZE_ANCHORS` is set |
| GlyphCopy.SourceAt | src/glyph_copy.py:25-55 | a source glyph is produced only for a resolved slot other than -1 holding a drawable glyph with that encoding |
| GlyphCopy.SourceGlyph | src/glyph_copy.py:24-55 | whatever glyph `copy_from_src` takes from the donor is drawable |
| GlyphCopy.Pasted | src/glyph_copy.py:57-75 | the pasted glyph has the source outline, width and drawability, `unicode == u`, no `altuni`, the destination's name and slot, and anchors only when normalising is off |
| GlyphCopy.ResolveRef | src/glyph_copy.py:24 | with a CID name index the reference comes from `resolve_src_slot_cid`; otherwise it is `(None, find_slot(src, u))`; the donor's active subfont is unchanged |
| GlyphCopy.CopiedInto | src/glyph_copy.py:57-67 | after the copy the glyph `createChar` gave answers `u`; one created for the copy carries the default name, one already there keeps its own name |
| GlyphCopy.PasteInto | src/glyph_copy.py:57-75 | createChar, clear and paste, then the mapping and anchor fix-ups, change only the destination's active slot space |
| GlyphCopy.ReadAt | src/glyph_copy.py:31-59 | the donor glyph is read in the resolved subfont, the saved subfont is put back on each path, and the slot is selected only when the glyph is drawable |
| GlyphCopy.ReadSource | src/glyph_copy.py:24-59 | resolution followed by the read gives the source glyph and restores the donor's active subfont |
| GlyphCopy.CopyFromSrc | src/glyph_copy.py:22-88 | returns the source width, read before any change, exactly when a drawable source glyph exists; otherwise returns None and leaves the destination untouched; the donor's active subfont is restored |
| GlyphCopy.CopyMakesGlyphPresent | src/glyph_copy.py:62-73 | after a copy, the destination's encoding map sends `u` to the new glyph, which is drawable and has `unicode == u` |
| GlyphCopy.CopyGivesGlyph | build.py:448-465 | after a copy into a flat destination, `has_glyph(dst, u)` holds |
| GlyphCopy.SlotIndexUpdate | src/glyph_copy.py:62-67 | replacing a glyph by one with the same encoding keeps it the glyph at that slot |
| GlyphCopy.Unmapped | src/glyph_copy.py:91-100 | `unmap_unicode_and_altuni` sets `unicode` to -1 and drops `altuni`, leaving the outline alone |
| GlyphCopy.KeepMembers | src/glyph_copy.py:111-119 | the stripped `altuni` holds exactly the entries that fail the predicate, and is no longer than before |
| GlyphCopy.KeepIdempotent | src/glyph_copy.py:103-123 | stripping twice strips nothing more |
| GlyphCopy.KeepAll | src/glyph_copy.py:111-119 | when no entry matches, `altuni` is unchanged |
| GlyphCopy.KeepAppend | src/glyph_copy.py:112-119 | entries are kept in their original order |
| GlyphCopy.StripAltuniEntries | src/glyph_copy.py:103-123 | the loop gives the glyph the kept entries (none left means no `altuni`) |
| GlyphCopy.UnmapOne | src/glyph_copy.py:137-144 | a non-drawable glyph is untouched; a drawable glyph whose `unicode` should go is fully unmapped; any other drawable glyph loses only its matching `altuni` entries |
| GlyphCopy.UnmapPass | src/glyph_copy.py:135-144 | pass 1 treats every glyph that way, and counts no more unmaps than glyphs |
| GlyphCopy.UnmapPassIdempotent | src/glyph_copy.py:135-144 | repeating pass 1 changes nothing and unmaps nothing more |
| GlyphCopy.UnmapPassCount | src/glyph_copy.py:135-144 | a pass over glyphs it leaves alone counts nothing |
| GlyphCopy.UnmapPassRemovesCoverage | src/glyph_copy.py:131-144 | after pass 1 no drawable glyph keeps a `unicode` or `altuni` entry that should be removed |
| GlyphCopy.ClearStep | src/glyph_copy.py:150-161 | one codepoint of pass 2 changes no glyph count; `ClearPassEffect` states that pass 2 only clears and leaves no allowed target drawable |
| GlyphCopy.ClearPass | src/glyph_copy.py:149-161 | pass 2 counts at most one clear per codepoint |
| GlyphCopy.ClearPassSnoc | src/glyph_copy.py:149-161 | pass 2 handles codepoints one after another, counting each clear |
| GlyphCopy.ClearPassEffect | src/glyph_copy.py:149-161 | pass 2 only ever clears glyphs, and afterwards no allowed target's slot holds a drawable glyph |
| GlyphCopy.SlotIndexSameEncodings | src/glyph_copy.py:156-158 | clearing keeps every encoding, so the glyph at each slot stays put |
| GlyphCopy.UnmapGlyphAt | src/glyph_copy.py:136-144 | pass 1 on one glyph reports an unmap exactly when it fully unmaps, and replaces only that glyph |
| GlyphCopy.UnmapGlyphs | src/glyph_copy.py:134-147 | the pass-1 loop computes pass 1 and its count on the active slot space, and changes nothing else |
| GlyphCopy.UnmapNext | src/glyph_copy.py:135-145 | glyph i of pass 1 becomes its unmapped or stripped form, and an unmapped glyph adds one to `removed_map`. Only the active slot space changes |
| GlyphCopy.RemoveBaseJpCoverage | src/glyph_copy.py:126-164 | `remove_base_jp_coverage_and_clear` returns pass 1's count and pass 2's count; pass 2 runs over the JP targets in table order, with `find_slot` answering from the map consulted on entry to it, stale or not |
| GlyphCopy.ClearCode | src/glyph_copy.py:150-161 | one codepoint of pass 2, with `find_slot` called only for allowed codepoints |
| GlyphCopy.ClearNext | src/glyph_copy.py:149-161 | the loop body extends pass 2 by one codepoint |
| GlyphCopy.ClearRange | src/glyph_copy.py:149-161 | the loop over one target range extends pass 2 by that range's codepoints |
| GlyphCopy.ClearRangeNext | src/glyph_copy.py:149-161 | one codepoint of a target range extends pass 2 by that codepoint |
| GlyphCopy.SpanSnoc | src/glyph_copy.py:149-161 | the codepoints of a range up to `u` are those up to `u - 1` followed by `u`, the order the pass-2 loop visits them in |
| GlyphCopy.ClearTargets | src/glyph_copy.py:149-161 | the pass-2 loop computes pass 2 over every target range, in order |
| GlyphCopy.StripperLeavesNoTarget | src/glyph_copy.py:126-164 | afterwards, each allowed JP target's slot is -1 or holds a glyph that does not draw |
| GlyphCopy.StripperLeavesNoGlyph | build.py:537-580 | on a flat base, `has_glyph` fails afterwards for every codepoint `should_remove` accepts |
| Geometry.HasGlyph | geometry.py:8-16 | `has_glyph` holds iff `find_slot` gives a slot other than -1 whose glyph is worth outputting; with a cache that matches the glyphs this is the fresh answer |
| Geometry.HasGlyphIff | geometry.py:8-16 | `has_glyph` holds iff the slot is not -1 and the first glyph at that slot draws |
| Geometry.RoundHalfEven | geometry.py:42 | Python's `round`: the nearest integer, and the even one at a tie |
| Geometry.RoundHalfEvenUnique | geometry.py:42 | that rounding has only one possible answer |
| Geometry.RoundHalfEvenExamples | geometry.py:42 | 100.5 rounds to 100 and 101.5 to 102 |
| Geometry.BakedOps | geometry.py:38-41 | a scale is recorded only when a factor differs from 1, and the vertical shift after it only when `dy` is nonzero, so the shift is never scaled |
| Geometry.BakeAt | geometry.py:29-42 | bake keeps the slot space's names and encoding map |
| Geometry.BakeIn | geometry.py:27-42 | the same, with the fresh `find_slot` answer |
| Geometry.BakeEffect | geometry.py:29-42 | bake is a no-op unless `has_glyph` holds; otherwise only that glyph changes, getting the baked outline and width `round(width_final)` |
| Geometry.BakeKeepsPresence | geometry.py:27-42 | after bake, `has_glyph` answers the same for every codepoint |
| Geometry.SameKeysSlotMap | cid.py:21-53 | glyph lists that agree on slots and codepoints give the same first-writer map |
| Geometry.SameKeysSlotIndex | geometry.py:33-37 | they also agree on which glyph sits at a slot and whether it draws |
| Geometry.Bake | geometry.py:27-42 | `bake` changes only the active slot space, as its specification says, at the slot `find_slot` answers from the map it consults |
| Geometry.TransformEntireFont | geometry.py:45-54 | identity factors change nothing; otherwise the combined transform is recorded, or the plain scale when the combined one raises, and the selection ends empty |
| Geometry.AllSlots | geometry.py:49 | `selection.all()` selects every slot of the active slot space |
| FontData.Transformed | geometry.py:38-41 | a transform appends one op to a drawn outline and leaves an empty outline empty |
| FontData.SlotIndex | cid.py:169 | `font[slot]` is the first glyph with that encoding, and none when no glyph has it |
| FontData.NamedIndex | features.py:268-269 | `font[name]` is a glyph with that name, and none when no glyph has it |
| FontData.FreshSlot | src/glyph_copy.py:62 | a slot beyond every encoding in use |
| FontData.CreateCharIn | src/glyph_copy.py:62 | `createChar` returns a glyph of the slot space and keeps its names; a glyph already there leaves the slot space unchanged; a glyph it has to create answers `u`, does not draw, has an empty outline and carries the default name `DefaultName(u)`, never empty |
| FontData.DefaultName | src/glyph_copy.py:62 | the name FontForge gives a glyph `createChar(u)` creates is never empty: `uni` and four hexadecimal digits below U+10000, `u` and at least five beyond, reading back as `u` |
| FontData.CreateCharFindable | src/glyph_copy.py:62-66 | after `createChar(u)` the encoding map sends `u` to the returned glyph, that glyph is the one at its slot, and earlier glyphs are unchanged |
| FontData.SlotIndexAppend | src/glyph_copy.py:62 | a glyph appended at a fresh slot is the glyph at that slot |
| FontModel.Font.constructor | src/font_io.py:43-61 | an opened font starts with the first subfont active, nothing selected, no transforms and no name records |
| FontModel.Font.SetActive | cid.py:96-100 | assigning `cidsubfont` succeeds exactly for an existing index, and otherwise leaves the active subfont as it was |
| FontModel.Font.PutGlyph | features.py:16-33 | writing a glyph changes only that glyph of the active slot space |
| FontModel.Font.CreateChar | src/glyph_copy.py:62 | `createChar` changes only the active slot space |
| Features.ConfigShape | config.py:93-98 | the suffix list is exactly the five `ss` tags; the tags baked from GSUB are those five plus `case`; every suffix is also a baked tag, and `case` is baked but is never a suffix |
| Features.UnicodeOrUnmapped | features.py:82 | `int(unicode or -1)` is -1 exactly for an unmapped glyph or codepoint 0, and is the codepoint otherwise |
| Features.ProtectedExamples | features.py:85 | the protection check holds for a dash, a bracket, U+0030 and U+FF19; it fails for an unmapped base, for `A`, and for codepoint 0, which reads as unmapped |
| Features.OverwriteIn | features.py:16-33 | the destination gets the source's outline and drawability and keeps its own name, encoding, `unicode` and `width`, with `altuni` empty; no other glyph changes; overwriting a glyph from itself leaves it empty, because `clear()` comes before the copy |
| Features.Overwrite | features.py:16-33 | the overwrite changes only the active slot space, by `OverwriteIn`, and leaves the selection on the destination's encoding |
| Features.PairStep | features.py:74-89 | one coverage pair keeps the number of slots; what the step bakes, and when, is stated by `PairStepEffect` |
| Features.PairStepEffect | features.py:76-89 | a pair is baked iff both names resolve, the base's `unicode or -1` is not protected and the alternate is drawable; a skipped pair changes nothing; a baked pair changes only the base; names and codepoints never change |
| Features.NamedPair | features.py:76-80 | a pair resolves both names with `font[name]` before the step; the slot count is kept |
| Features.ApplyNamed | features.py:74-89 | a pass over pairs keeps the slot count and bakes at most one glyph per pair |
| Features.ApplyNamedSnoc | features.py:74-89 | a pass over `pairs + [p]` is the pass over `pairs` followed by the step for `p`, and the count grows by one exactly when that step bakes |
| Features.ApplyNamedKeepsProtected | features.py:85-86 | after any pass of pairs every name and codepoint is unchanged, and every glyph whose codepoint is protected is unchanged |
| Features.BakeNamedPair | features.py:74-89 | changes only the active slot space, to the glyphs and hit flag of `NamedPair` |
| Features.CoveragePairsMembers | features.py:51-74 | a pair enters the coverage pass iff some lookup whose tags meet the baked tags has it in one of its dictionary coverages |
| Features.SubtablePairsMembers | features.py:67-74 | a pair comes from the subtables iff one of their dictionary coverages holds it; a coverage that is not a dictionary contributes nothing |
| Features.BakeEntries | features.py:74-89 | the loop over one coverage's entries leaves the glyphs and count of `ApplyNamed` over those entries |
| Features.BakeNextPair | features.py:74-89 | one loop step of `BakeEntries` extends the specified prefix by one pair |
| Features.BakeSubtables | features.py:67-89 | the loop over one lookup's subtables leaves the glyphs and count of `ApplyNamed` over their pairs |
| Features.BakeNextSubtable | features.py:67-89 | one subtable of the loop: a dictionary coverage applies its pairs and a coverage that is not a dictionary adds nothing, so the pass covers one more subtable |
| Features.BakeCoverage | features.py:47-89 | the coverage pass leaves the glyphs and count of `ApplyNamed` over `CoveragePairs` of the font's lookups |
| Features.CoverageNext | features.py:51-89 | a lookup whose tags meet the set applies its subtables' pairs; the coverage pass then covers one more lookup |
| Features.ApplyNamedConcat | features.py:74-89 | a pass over `xs + ys` is the pass over `xs` followed by the pass over `ys`; the counts add up |
| Features.SlashZeroStep | features.py:96-105 | one slashed-zero step keeps the slot count; `SlashZeroStepEffect` states that it changes only the glyph in the slot of `find_slot(u0)`, and only its outline |
| Features.SlashZeroPass | features.py:95-105 | the slashed-zero pass over U+0030 and then U+FF10 keeps the slot count; what each step changes is stated by `SlashZeroStepEffect`, and that digit protection does not stop it by `SlashZeroOverridesProtection` |
| Features.SlashZeroOverridesProtection | features.py:95-105 | U+0030 is protected in the GSUB passes, yet when its slot and `zero.slash` both resolve to distinct drawable glyphs, the slashed-zero step gives it the `zero.slash` outline, keeping its `unicode` and `width` |
| Features.SlashZeroStepEffect | features.py:96-105 | the step changes no glyph outside the slot of `find_slot(u0)`, and no name, encoding or codepoint |
| Features.SlashZeroAt | features.py:97-105 | the method changes only the active slot space, by `SlashZeroStep` over the map `find_slot` consults, and leaves that map as the one the next call consults |
| Features.TagStep | features.py:116-123 | one suffix probe keeps the slot count; what the probes of one glyph do together is stated by `TagsPassEffect` |
| Features.TagsPass | features.py:115-123 | the probes of one glyph keep the slot count and bake at most once per suffix; `TagsPassEffect` states that only the probed glyph changes and that it carries the last matching alternate's outline |
| Features.LastHit | features.py:115-123 | the last suffix whose `<name>.<tag>` glyph is drawable names an existing drawable glyph |
| Features.NamedIndexSameNames | features.py:118 | `font[name]` depends only on the glyph names |
| Features.TagsPassEffect | features.py:115-123 | the probes change only the glyph probed; it keeps its name, `unicode` and `width`; with no drawable alternate it is unchanged; otherwise it carries the outline of the alternate of the last matching suffix |
| Features.SuffixGlyph | features.py:107-123 | one glyph of the suffix pass keeps the slot count; a skipped glyph is left alone (`SuffixGlyphKeepsDigits`), any other is probed as `TagsPassEffect` states |
| Features.SuffixPass | features.py:107-123 | the suffix pass keeps the slot count; `SuffixPassKeepsDigits` states that every digit glyph is left as it was, and `TagsPassEffect` what happens to each probed glyph |
| Features.SuffixGlyphKeepsDigits | features.py:110-111 | one glyph of the suffix pass leaves every digit glyph as it was |
| Features.KeepsDigitsTrans | features.py:107-123 | leaving the digits alone composes |
| Features.SuffixPassKeepsDigits | features.py:107-123 | the whole suffix pass leaves every digit glyph as it was |
| Features.BakeTag | features.py:116-123 | one suffix probe changes only the active slot space, to the glyphs and hit flag of `TagStep` |
| Features.BakeTags | features.py:115-123 | the probes of one glyph leave the glyphs and count of `TagsPass` |
| Features.BakeSuffixes | features.py:107-123 | the suffix pass leaves the glyphs and count of `SuffixPass` over the whole font |
| Features.SuffixNext | features.py:107-123 | one glyph of the suffix pass: the state after it is `SuffixPass` over one more glyph |
| Features.CoverageStage | build.py:597-628 | the monolithic copy has no coverage pass: it changes nothing and counts 0 |
| Features.DigitIsProtected | features.py:85 | a digit codepoint is protected in the GSUB passes |
| Features.BakeAlternatesKeepsIdentity | features.py:36-123 | the baker keeps the slot count and every glyph's name and codepoint; the monolithic copy reports no coverage bakes |
| Features.ModularKeepsDigits | features.py:36-123 | in features.py's baker every digit glyph outside the two slashed-zero slots comes out as it went in |
| Features.BakeSingleGlyphAlternates | features.py:36-123 | changes only the active slot space, to the glyphs and the two counts of `BakeAlternatesSpec`: the coverage pass, then the slashed zero over the map `find_slot` consults, then the suffix pass. The `Monolithic` variant, the copy in build.py (lines 597-628), does the slashed zero and then the suffix pass with no digit skip. build.py's copy returns nothing and its caller discards the result; the model still returns a pair for it, a coverage count of 0 and the number of suffix bakes, which build.py does not report |
| Features.SlashZeros | features.py:95-105 | the slashed-zero pass changes only the active slot space, to `SlashZeroPass` over the map `find_slot` consults |
| Features.KeptLookupsIff | features.py:141-159 | a lookup survives iff it was there and is not dropped (its tags meet the set and `removeLookup` succeeds); kept plus removed is the original count; a lookup with no readable tags is kept |
| Features.RemovalIdempotent | features.py:127-159 | removing the same tags again keeps every lookup and removes none |
| Features.KeptSnoc | features.py:141-159 | one more lookup is kept or counted as removed, apart from the rest |
| Features.RemoveStep | features.py:141-158 | with the lookups before `i` filtered, lookup `i` is the next one left; removing it when it is dropped filters one lookup more and counts one more removal |
| Features.RemoveNext | features.py:141-158 | one lookup of the removal loop: the lookups become `KeptLookups` of one more lookup, and `removed` is their `RemovedCount` |
| Features.RemoveGsubLookupsByFeatureTags | features.py:127-159 | the lookups become `KeptLookups` of the old ones, and the result is the number removed; the copy in build.py (lines 631-663) is the same routine |
| Features.AllTagsIff | features.py:162-186 | a tag is listed iff some lookup reports it |
| Features.ListingPredictsRemoval | features.py:127-186 | when no listed tag is among the tags to remove, the removal keeps every lookup and removes none |
| Features.ListGsubFeatureTags | features.py:162-186 | the listing is `AllTags` of the font's lookups |
| GsubExtract.NameToIdxIff | features.py:201-202 | a name is in `name_to_idx` iff it is in the glyph order, and it maps to its LAST position there, because a later key overwrites an earlier one in the comprehension |
| GsubExtract.NameToUniFirst | features.py:203-207 | a glyph name is in `name_to_uni` iff some cmap entry names it, and it maps to the codepoint of the FIRST such entry, because `setdefault` keeps the first |
| GsubExtract.FirstNamed | features.py:206-207 | the position of the first cmap entry naming a glyph: that entry names it and no earlier one does; with no position, no entry names it |
| GsubExtract.NameToUniAt | features.py:203-207 | `name_to_uni` holds a name exactly when some entry names it, and then maps it to the codepoint of the first such entry |
| GsubExtract.BuildNameToUni | features.py:203-207 | the `setdefault` loop builds `NameToUni` of the cmap |
| GsubExtract.KeyIndex | features.py:211-217 | the position of a key in an insertion-ordered dictionary is the first entry with that key, and there is none when no entry has it |
| GsubExtract.TagToLookupsShape | features.py:211-217 | `tag_to_lookups` has each key once, only target tags as keys, and under each tag the lookup indices of all its feature records, in record order |
| GsubExtract.TagToLookupsKeys | features.py:212-215 | a tag is a key of `tag_to_lookups` iff it is a target tag and some feature record carries it |
| GsubExtract.ExtendShape | features.py:217 | `setdefault(tag, []).extend(lks)` keeps the keys distinct, leaves the other keys where they were, extends an existing entry in place and appends a new key at the end |
| GsubExtract.KeyIndexSome | features.py:211-217 | a key present in some entry is found |
| GsubExtract.KeyIndexSameKeys | features.py:217 | appending entries with other keys does not move a key |
| GsubExtract.KeyIndexSnoc | features.py:217 | `setdefault` with a new key puts it at the end; keys already present stay where they are |
| GsubExtract.NoRecordNoLookups | features.py:212-217 | a tag no feature record carries collects no lookup indices |
| GsubExtract.BuildTagToLookups | features.py:211-217 | the loop over the feature records builds `TagToLookups` |
| GsubExtract.MappingSubs | features.py:237-238 | a type-1 mapping yields one substitution per entry |
| GsubExtract.EntryCounts | features.py:223-249 | `per_tag_counts` has one entry per key of `tag_to_lookups`, in the same order |
| GsubExtract.SubTableSubsIff | features.py:231-249 | a subtable yields a substitution iff it carries the tag and either the lookup is type 1 and the pair is in its mapping, or the lookup is type 3 and `dst` is the first alternate of a non-empty list for `src`; a subtable without the attribute, and every other lookup type, yields nothing |
| GsubExtract.MappingSubsIff | features.py:237-238 | a type-1 mapping yields exactly its `(src, dst)` pairs, tagged |
| GsubExtract.AlternateSubsIff | features.py:246-248 | a type-3 subtable yields exactly `(src, first alternate)` for each non-empty alternate list, tagged |
| GsubExtract.LookupSubsIff | features.py:226-249 | a lookup index yields substitutions only when it is in range, and then exactly those of its subtables |
| GsubExtract.SubTablesSubsIff | features.py:232-249 | a lookup's substitutions are those of its subtables |
| GsubExtract.SubTablesSubsSound | features.py:232-249 | every substitution of a lookup comes from one of its subtables |
| GsubExtract.SubTablesSubsComplete | features.py:232-249 | every substitution of one of a lookup's subtables is among the lookup's |
| GsubExtract.IndicesSubsTagged | features.py:225-249 | every substitution collected under a tag carries that tag |
| GsubExtract.CountTagConcat | features.py:239 | the number of substitutions with a tag adds up over concatenation |
| GsubExtract.CountTagAllTagged | features.py:239 | in a list all tagged `u`, the count for `t` is the length when `t == u` and 0 otherwise |
| GsubExtract.EntriesCount | features.py:223-249 | the substitutions tagged `t` are exactly those collected under `t`'s entry, and there are none for a tag without an entry |
| GsubExtract.EntriesSubsTags | features.py:225-249 | every emitted substitution's tag is a key of `tag_to_lookups` |
| GsubExtract.ExtractionFacts | features.py:189-250 | a missing font or a font without GSUB yields empty results; every substitution's tag is a target tag present in the font; `per_tag_counts[t]` is the number of emitted substitutions tagged `t`; `per_tag_counts` has a key for `t` iff `t` is a target tag present in the font |
| GsubExtract.EntriesKeys | features.py:211-217 | `tag_to_lookups` has distinct keys, and a key for a tag exactly when it is a target tag some feature record carries |
| GsubExtract.EntryCountsFacts | features.py:222-249 | `per_tag_counts` has the keys of `tag_to_lookups` in the same order; every substitution's tag is a key; each count is the number of substitutions with that tag |
| GsubExtract.EntryCountAt | features.py:223-249 | the count stored for an entry is the number of substitutions tagged with that entry's key |
| GsubExtract.EntryCountsAt | features.py:223-249 | the count for each entry is the number of substitutions collected under it |
| GsubExtract.KeyIndexSameKeysAny | features.py:223 | two dictionaries with the same keys in the same order find a key at the same position |
| GsubExtract.CollectMapping | features.py:237-239 | the loop over a mapping builds `MappingSubs` |
| GsubExtract.CollectAlternates | features.py:246-249 | the loop over the alternates builds `AlternateSubs` |
| GsubExtract.CollectLookup | features.py:227-249 | the loop over one lookup's subtables builds `LookupSubs` |
| GsubExtract.CollectTag | features.py:226-249 | the loop over a tag's lookup indices builds `IndicesSubs` |
| GsubExtract.CollectSubstitutions | features.py:222-249 | the loop over `tag_to_lookups` builds the substitutions and the per-tag counts of the specification |
| GsubExtract.LoadFeatureSubstitutions | features.py:189-250 | `load_feature_substitutions` returns `ExtractionSpec` of the parsed font, including every early return |
| FeatureSubs.PickIn | features.py:264-288 | `pick` returns a slot of the active slot space or nothing |
| FeatureSubs.PickSound | features.py:264-288 | an exact glyph name always wins; any glyph `pick` returns either has that name, or sits at the glyph-order or `cid<N>` index (accepted only below `total`), or sits at the slot `find_slot` gives for the name's cmap codepoint, never -1; the slot cache is touched exactly when `find_slot` is reached |
| FeatureSubs.PickIndexCid | features.py:270-274 | a `cid<N>` name in any letter case that is not in the glyph order resolves to index N |
| FeatureSubs.PickGlyph | features.py:264-288 | the method returns the slot of `PickIn` and leaves the cache entry `PickIn` predicts |
| FeatureSubs.Bump | features.py:304 | `per_tag[tag] = per_tag.get(tag, 0) + 1` keeps the keys distinct and raises the total by one |
| FeatureSubs.TotalSnoc | features.py:304 | a new key adds its count to the total |
| FeatureSubs.TotalUpdate | features.py:304 | replacing one entry changes the total by the difference |
| FeatureSubs.DirectStep | features.py:290-304 | one substitution keeps the slot count; what the steps add up to (counters, protection, no renaming) is stated by `DirectBakeFacts` |
| FeatureSubs.DirectBake | features.py:290-304 | the direct pass keeps the slot count; `DirectBakeFacts` states that `baked` is the sum of `per_tag`, that it is bounded by the number of substitutions, and that protected glyphs are unchanged |
| FeatureSubs.DirectBakeFacts | features.py:290-305 | `baked` is the sum of `per_tag`, `per_tag` has each tag once, `baked` is at most the number of substitutions, no name or codepoint changes, and a glyph whose codepoint is protected is unchanged |
| FeatureSubs.BakeOne | features.py:291-304 | one loop step changes only the active slot space, to the state `DirectStep` gives |
| FeatureSubs.BakePicked | features.py:295-304 | for two picked glyphs, the protected pair step: the glyphs become `PairStep`'s, and a hit adds one to `baked` and to the tag's counter |
| FeatureSubs.DirectBakeSnoc | features.py:290-304 | the pass over a prefix one longer is one more step |
| FeatureSubs.BakeNext | features.py:290-304 | the loop body extends the specified prefix by one substitution |
| FeatureSubs.BakeFeatureSubstitutions | features.py:253-305 | `bake_feature_substitutions` changes only the active slot space, to the glyphs, cache entry and counts `DirectBake` gives over all substitutions, with `total` the number of glyphs on entry |
| CaseOffsets.Incr | features.py:370 | `applied[label] += 1` raises the label's count by one and no other |
| CaseOffsets.Find | features.py:346-358 | a codepoint's entry in the insertion-ordered `targets` dictionary is an entry with that key, and there is none when no entry has it |
| CaseOffsets.CountCatSnoc | features.py:346-355 | a new entry adds one to its category's count |
| CaseOffsets.CountCatUpdate | features.py:346-355 | replacing an entry moves one count from its old category to its new one |
| CaseOffsets.PutEffect | features.py:349 | `targets[u] = v` keeps the keys distinct, makes `u` map to `v`, leaves every other key where it was with its value, and raises only `v`'s category count, by at most one |
| CaseOffsets.FindSome | features.py:346-358 | a key present in some entry is found at or before it |
| CaseOffsets.FindFirst | features.py:346-358 | no earlier entry has the key found |
| CaseOffsets.FindSameKeys | features.py:346-358 | appending entries with other keys does not move a key |
| CaseOffsets.PutAllEffect | features.py:347-355 | one category's loop keeps the keys distinct, raises that category's count by at most the list's length and raises no other count |
| CaseOffsets.PutAllHit | features.py:347-355 | after one category's loop every codepoint of its list maps to that category's offset |
| CaseOffsets.PutAllOther | features.py:347-355 | a codepoint not in the list keeps its place and value |
| CaseOffsets.ShiftStep | features.py:359-372 | one target keeps the slot count; `ShiftStepHit` states that a target landing on a drawable glyph moves it by `translate(0, dy)` and counts its label, and that any other target changes nothing |
| CaseOffsets.ShiftAll | features.py:358-372 | the transform loop keeps the slot count; `ShiftAllExact` states the exact counts and the exact moves of each glyph, and `ShiftAllEffect` their bounds |
| CaseOffsets.CaseOffsetsSpec | features.py:337-373 | `apply_case_baseline_offsets` keeps the slot count; `CaseOffsetsBounds` states the all-zero early return and the per-category bounds, and `CaseOffsetsExact` the exact counts and moves past it |
| CaseOffsets.ShiftAllEffect | features.py:358-372 | no category is counted more often than it has targets; only outlines change; an empty outline stays empty; a drawn outline keeps its token and its operations and gains only vertical translations (their exact size is stated by `ShiftAllExact`) |
| CaseOffsets.Hits | features.py:360-370 | the number of targets of a category that reach `applied[label] += 1` in the loop is never more than the category's targets |
| CaseOffsets.ShiftStepHit | features.py:359-372 | a target whose slot is not -1 and names a drawable glyph has that glyph's outline moved by `translate(0, dy)` with the target's own `dy`, returns the target's label, and leaves every other glyph unchanged; a target that misses changes nothing and counts nothing |
| CaseOffsets.ShiftAllExact | features.py:358-372 | after the loop each category's count is exactly the number of its targets that land on a drawable glyph; each drawn glyph's outline is its old operations followed by `translate(0, dy)` for every target landing on it, in target order; nothing but outlines changes |
| CaseOffsets.CaseOffsetsExact | features.py:337-373 | past the early return, `applied` holds exactly the landing targets of math, bracket and dash, and each drawn glyph is moved by the offsets of the targets that land on it |
| CaseOffsets.MathTargetsFacts | features.py:347-349 | the math entries have distinct keys, at most one per math codepoint and none when the math offset is 0, and no bracket or dash entry |
| CaseOffsets.BracketTargetsFacts | features.py:347-352 | after the bracket loop the keys are still distinct; there are at most as many math and bracket entries as codepoints, none for a zero offset, and no dash entry |
| CaseOffsets.TargetsFacts | features.py:346-355 | `targets` has distinct keys and at most as many entries per category as the category's list, none when its rounded offset is 0 |
| CaseOffsets.BracketWinsAngles | features.py:347-352 | with a non-zero bracket offset, `<` and `>` map to the bracket offset and label, overriding the math entries |
| CaseOffsets.AnglesAfterBrackets | features.py:350-352 | with a non-zero bracket offset, after the bracket loop both `<` and `>` have a target entry carrying the bracket offset and label |
| CaseOffsets.CaseOffsetsBounds | features.py:337-373 | all-zero percentages return the glyphs unchanged and all-zero counts; each applied count is at most the size of its category list, and 0 when its rounded offset is 0 |
| CaseOffsets.BuildTargets | features.py:346-355 | the three loops build `Targets` |
| CaseOffsets.PutLoop | features.py:348-355 | one category's loop builds `PutAll` |
| CaseOffsets.ShiftTarget | features.py:359-372 | one target changes only the active slot space, by `ShiftStep` over the consulted map, and leaves the map the next call consults unchanged |
| CaseOffsets.ApplyCaseBaselineOffsets | features.py:337-373 | the method changes only the active slot space, to the glyphs and the counts of `CaseOffsetsSpec` over the map `find_slot` consults; what those are is stated by `CaseOffsetsBounds` and `CaseOffsetsExact` |
| CaseOffsets.ShiftTargets | features.py:357-373 | the loop over the targets changes only the active slot space, to the glyphs and counts of `ShiftAll` over the consulted map |
| CaseOffsets.ShiftNext | features.py:358-372 | one target of the loop: the state after it is `ShiftAll` over one more target |
| FontIo.PsSanitize | src/font_io.py:36-40 | the output is non-empty and every character is an ASCII letter, an ASCII digit or `-`; the copy in build.py (lines 49-53) is the same function |
| FontIo.KeepSafeAllSafe | src/font_io.py:39 | everything the filter keeps is in `[A-Za-z0-9-]` |
| FontIo.KeepSafeConcat | src/font_io.py:39 | the filter distributes over concatenation, so order is kept |
| FontIo.RemoveSpacesConcat | src/font_io.py:38 | removing spaces distributes over concatenation |
| FontIo.SpacesAreUnsafe | src/font_io.py:38-39 | removing spaces first changes nothing, because a space is outside the class |
| FontIo.KeepSafeIdentity | src/font_io.py:39 | a string of admitted characters passes the filter unchanged |
| FontIo.KeepSafeCounts | src/font_io.py:38-39 | the filter keeps each admitted character as often as the input has it, and no other character |
| FontIo.PsSanitizeIsFilter | src/font_io.py:36-40 | the output is the input with every character outside `[A-Za-z0-9-]` removed, in order, or `Font` when nothing survives |
| FontIo.PsSanitizeIdempotent | src/font_io.py:36-40 | sanitising a sanitised name changes nothing |
| FontIo.NameRecords | src/font_io.py:83-90 | `set_names` appends eight records |
| FontIo.NameText | src/font_io.py:83-90 | a name ID has a text iff some record carries it |
| FontIo.NameTextAt | src/font_io.py:83-90 | the first record with an ID gives that ID's text |
| FontIo.Ids | src/font_io.py:83-90 | the list of name IDs, one per record |
| FontIo.NameRecordsIds | src/font_io.py:71-90 | the records carry IDs 1, 2, 3, 4, 5, 6, 16 and 17, in that order and each once, all in `English (US)`; there is no ID 7 |
| FontIo.NameRecordsVersion | src/font_io.py:67-87 | ID 3 is the sanitised name, `;`, `Version ` and the version string; ID 5 is `Version ` and the version string |
| FontIo.NameRecordsNames | src/font_io.py:66-88 | ID 4 is the family, a space and the style, the same text as the fullname; ID 6 is the sanitised PostScript name |
| FontIo.NameRecordsFamily | src/font_io.py:83-90 | IDs 1 and 16 are the output family; ID 2 is the legacy style and ID 17 the output style |
| FontIo.SetNames | src/font_io.py:64-90 | the family, full and PostScript names are set to those values, and the SFNT names are cleared and then become exactly the eight records |

## Left out

- Opening fonts and silencing FontForge (`open_font`, `suppress_stderr` in src/font_io.py:14-61 and build.py:56-92): these are file and file-descriptor I/O. A font enters the model already opened, as a `Font` object.
- Orchestration: src/pipeline.py, the `build_one` driver in build.py, and both `main.py` entry points. They sequence the stages, open and close donors, print progress, pace garbage collection and write the output files; there is no glyph logic in them to state.
- src/map_log.py is not part of this model. The issues its `log_issue` would record are returned by the map-aware resolver as a sequence of `Issue` values, and nothing is written.
- `unicodedata.name` in `build_jp_extra_set`: the name lookup is a parameter `named: int -> bool`, so the model assumes nothing about Unicode names.
- Parsing by fontTools (`TTFont`, `getBestCmap`, the fontTools table objects): the parsed GSUB table and cmap are input datatypes. A font that fails to open is `None`, and a subtable that lacks `mapping` or `alternates` is an absent field.
- Floating point: scales, offsets and widths are `real`. Python's `round` is modelled as round-half-to-even on reals, so binary floating-point representation error is not modelled.
- Python's `int(...)` leniency: `int(name[3:])` accepts only ASCII decimal digits here. Python also accepts surrounding whitespace, a sign, underscores and other Unicode digits.
- FontForge's geometry: an outline is an uninterpreted token plus the list of transforms recorded on it. Copy and paste move that value. Scale, translate and the whole-font transform are recorded, not evaluated.
- `TransformEntireFont` does not model the effect of the whole-font transform on GPOS and kerning. It records which of the two transforms was applied, and the selection.
- `createChar` puts a new glyph in a fresh encoding slot after the last one. FontForge's own choice of slot for a glyph it has to create is not modelled.
- FontData.DefaultName: the name of a created glyph is FontForge's `uniXXXX` / `uXXXXX` form. A name from the Adobe Glyph List (such as `A` for U+0041) and a clash with an existing glyph's name are not modelled; a negative codepoint, which the build never passes, gets the placeholder `NameMe`.
- `clear()` makes a glyph empty and not drawable. FontForge can still count a cleared glyph with a non-zero width as worth outputting; that is not modelled.
- Anchors are a flag: `clear_anchors_if_needed` clears it, and the anchor classes themselves are not modelled.
- FontForge exceptions are modelled only where the data model can produce them: a missing glyph by slot or name, a subfont index out of range, `getLookupInfo` with no tags, and `removeLookup` failing. Other exceptions the source catches, such as an `unlinkRef` or `transform` that raises, are taken never to happen.
- GlyphCopy.CopyFromSrc: an exception in the copy, `createChar` or paste block (src/glyph_copy.py:57-67) is not caught there and, with no `finally`, would leave the donor's `cidsubfont` switched; that path is not modelled. The model reads the source glyph and restores the donor subfont before the paste (`ReadAt`), which matches the source only because source and destination are different fonts (`src != dst`).
- `GSUB_PROTECT_RANGES` (src/config.py:110-120) is not read by any of the modelled code, so no protection by those ranges is modelled.
- The `refresh_quote_glyphs` helper (features.py:376 onwards) is not part of this model.
- The slot cache is keyed by an explicit font handle and subfont index instead of Python's `id(font)`. Handles are never reused, so the model cannot show a stale entry for a new font that happens to reuse a freed object's identity.
- CidResolve.Resolve: requires the cache to match the donor's glyphs. The donors are never modified during a build, so their cache cannot go stale. The same precondition is on CidMapped.ResolveMapped, GlyphCopy.ResolveRef, GlyphCopy.ReadSource and GlyphCopy.CopyFromSrc. Only the glyph steps that mutate the base font (the stripper, `bake`, `has_glyph`, the baker and the case offsets) are modelled with a stale cache.
- FontIo.SetNames: an `appendSFNTName` or `sfnt_names` assignment that raises would leave fewer records. FontForge does not raise for these arguments, so the model always produces all eight.
- Features.BakeSingleGlyphAlternates: `getLookups` and `getLookupSubtables` raising are not modelled separately from a lookup with no tags or a coverage that is not a dictionary.
- The per-tag counters of `load_feature_substitutions` are built per tag from the collected substitutions. They are equal to the source's running increments, as `ExtractionFacts` states, but those increments are not modelled one by one.
