/** resolve_src_slot_cid in its three releases: a flat font answers through
    find_slot; a CID-keyed font is searched subfont by subfont, the
    preferred subfonts first and then every untried index in ascending
    order, the first drawable hit winning; the active subfont is put back on
    every exit. The src/cid.py release may also consult a cmap-derived CID
    map, a unicode-to-glyph-name map and the present sets, and records
    diagnostics. */
module CidResolve {
  import opened Wrappers
  import opened FontData
  import opened FontModel
  import opened CidSlots
  import opened CidNames

  /** What one subfont answers for the codepoint: a drawable slot, nothing,
      or (src/cid.py with a CID map) a candidate slot missing from the
      subfont's present set. */
  datatype Outcome = Hit(slot: int) | Skip | MissingSubfont(missing: Option<int>)

  /** A diagnostic of src/cid.py (log_issue), without its file output. */
  datatype Issue =
    | NameUnparsed(u: int, name: string)
    | MapMissing(u: int)
    | SlotMissingSubfont(u: int, slot: Option<int>)
    | SlotNotFound(u: int)

  // ---------------------------------------------------------------------
  // The scan order and the first hit
  // ---------------------------------------------------------------------

  /** The indices of [from, cnt) not in `order`, ascending. */
  function Untried(order: seq<int>, from: int, cnt: int): seq<int>
    decreases cnt - from
  {
    if from >= cnt then []
    else if from in order then Untried(order, from + 1, cnt)
    else [from] + Untried(order, from + 1, cnt)
  }

  /** Preferred indices first, then the fallback over the untried ones. */
  function ScanOrder(order: seq<int>, cnt: int): seq<int>
  {
    order + Untried(order, 0, cnt)
  }

  lemma {:induction false} UntriedMembers(order: seq<int>, from: int, cnt: int, j: int)
    ensures j in Untried(order, from, cnt) <==> from <= j < cnt && j !in order
    decreases cnt - from
  {
    if from < cnt {
      UntriedMembers(order, from + 1, cnt, j);
    }
  }

  /** The scan visits every index 0..cnt-1. */
  lemma ScanOrderCovers(order: seq<int>, cnt: int, j: int)
    requires 0 <= j < cnt
    ensures j in ScanOrder(order, cnt)
  {
    UntriedMembers(order, 0, cnt, j);
  }

  /** The first index of the scan whose outcome is a hit, with its slot. */
  function FirstHit(scan: seq<int>, probe: int -> Outcome): (r: Option<(int, int)>)
    ensures r.Some? ==> r.value.0 in scan && probe(r.value.0) == Hit(r.value.1)
    ensures r.None? ==> forall j | j in scan :: !probe(j).Hit?
  {
    if scan == [] then None
    else if probe(scan[0]).Hit? then Some((scan[0], probe(scan[0]).slot))
    else FirstHit(scan[1..], probe)
  }

  lemma {:induction false} FirstHitConcat(a: seq<int>, b: seq<int>, probe: int -> Outcome)
    ensures FirstHit(a + b, probe) == if FirstHit(a, probe).Some? then FirstHit(a, probe) else FirstHit(b, probe)
  {
    if a != [] {
      assert (a + b)[1..] == a[1..] + b;
      FirstHitConcat(a[1..], b, probe);
    } else {
      assert a + b == b;
    }
  }

  /** The first hit is the first scan position that hits: every earlier
      position misses. */
  lemma {:induction false} FirstHitIsFirst(scan: seq<int>, probe: int -> Outcome)
    requires FirstHit(scan, probe).Some?
    ensures exists p | 0 <= p < |scan| ::
              scan[p] == FirstHit(scan, probe).value.0 && forall q | 0 <= q < p :: !probe(scan[q]).Hit?
  {
    if !probe(scan[0]).Hit? {
      FirstHitIsFirst(scan[1..], probe);
      var p :| 0 <= p < |scan[1..]| && scan[1..][p] == FirstHit(scan, probe).value.0 &&
                forall q | 0 <= q < p :: !probe(scan[1..][q]).Hit?;
      assert scan[p + 1] == FirstHit(scan, probe).value.0;
      assert forall q | 0 < q < p + 1 :: scan[q] == scan[1..][q - 1];
    } else {
      assert scan[0] == FirstHit(scan, probe).value.0;
    }
  }

  /** The last missing-subfont candidate seen along the scan, if any. */
  function LastMissing(scan: seq<int>, probe: int -> Outcome): Option<Option<int>>
  {
    if scan == [] then None
    else
      var rest := LastMissing(scan[1..], probe);
      if rest.Some? then rest
      else if probe(scan[0]).MissingSubfont? then Some(probe(scan[0]).missing)
      else None
  }

  function Later<T>(a: Option<T>, b: Option<T>): Option<T>
  {
    if b.Some? then b else a
  }

  lemma {:induction false} LastMissingConcat(a: seq<int>, b: seq<int>, probe: int -> Outcome)
    ensures LastMissing(a + b, probe) == Later(LastMissing(a, probe), LastMissing(b, probe))
  {
    if a != [] {
      assert (a + b)[1..] == a[1..] + b;
      LastMissingConcat(a[1..], b, probe);
    } else {
      assert a + b == b;
    }
  }

  // ---------------------------------------------------------------------
  // One subfont, as cid.py and build.py probe it
  // ---------------------------------------------------------------------

  /** The glyph at `slot` of the active glyph set exists and draws. */
  predicate DrawsAt(gs: seq<Glyph>, slot: int)
  {
    Worth(gs, SlotIndex(gs, slot))
  }

  /** Make subfont j active (skip when that raises), ask find_slot, accept a
      drawable glyph. */
  function ProbeSplit(sfs: seq<Subfont>, cnt: nat, u: int, j: int): (o: Outcome)
    ensures o.Hit? ==> 0 <= j < cnt && j < |sfs| && o.slot != -1 && o.slot == SlotOf(sfs[j], cnt, u) &&
                       DrawsAt(sfs[j].glyphs, o.slot)
    ensures !o.MissingSubfont?
  {
    if 0 <= j < cnt && j < |sfs| then
      var slot := SlotOf(sfs[j], cnt, u);
      if slot != -1 && DrawsAt(sfs[j].glyphs, slot) then Hit(slot) else Skip
    else Skip
  }

  /** The answer of resolve_src_slot_cid (cid.py, build.py): for a flat font
      (cnt = 0) the native slot when it draws; otherwise the first hit of
      the scan, tagged with its subfont. */
  function ResolveSpec(rel: Release, sfs: seq<Subfont>, active: int, cnt: nat, idx: NameIndex, u: int)
    : Option<(Option<int>, int)>
    requires 0 <= active < |sfs|
  {
    if cnt <= 0 then
      var slot := SlotOf(sfs[active], cnt, u);
      if slot != -1 && DrawsAt(sfs[active].glyphs, slot) then Some((None, slot)) else None
    else
      match FirstHit(ScanOrder(PreferredIndices(rel, idx, u).0, cnt), SplitProbe(sfs, cnt, u))
      case None => None
      case Some((j, slot)) => Some((Some(j), slot))
  }

  /** Switches to subfont j and probes it, as the bodies of the two search
      loops do. */
  method TrySubfont(cache: SlotCache, font: Font, u: int, j: int) returns (o: Outcome)
    requires font.Valid() && cache.ValidFor(font)
    modifies font`active, cache`slotMaps
    ensures font.Valid() && cache.ValidFor(font)
    ensures o == ProbeSplit(font.subfonts, font.Count(), u, j)
    ensures font.active == if 0 <= j < font.Count() then j else old(font.active)
  {
    var ok := font.SetActive(j);
    if !ok {
      return Skip;
    }
    var slot := FindSlot(cache, font, u);
    if slot == -1 {
      return Skip;
    }
    var k := SlotIndex(font.Glyphs(), slot);
    if Worth(font.Glyphs(), k) {
      return Hit(slot);
    }
    return Skip;
  }

  function SplitProbe(sfs: seq<Subfont>, cnt: nat, u: int): int -> Outcome
  {
    j => ProbeSplit(sfs, cnt, u, j)
  }

  /** The loop over the preferred order: every index visited joins `tried`;
      the first hit is returned. */
  method SearchPreferred(cache: SlotCache, font: Font, u: int, order: seq<int>)
    returns (hit: Option<(int, int)>, tried: set<int>)
    requires font.Valid() && cache.ValidFor(font)
    modifies font`active, cache`slotMaps
    ensures font.Valid() && cache.ValidFor(font) && font.Count() == old(font.Count())
    ensures hit == FirstHit(order, SplitProbe(font.subfonts, font.Count(), u))
    ensures hit.None? ==> forall x :: x in tried <==> x in order
  {
    ghost var probe := SplitProbe(font.subfonts, font.Count(), u);
    tried := {};
    hit := None;
    var i := 0;
    while i < |order|
      invariant font.Valid() && cache.ValidFor(font)
      invariant hit.None?
      invariant probe == SplitProbe(font.subfonts, font.Count(), u)
      invariant 0 <= i <= |order|
      invariant FirstHit(order, probe) == FirstHit(order[i..], probe)
      invariant forall x :: x in tried <==> x in order[..i]
    {
      assert order[i..] == [order[i]] + order[i + 1..];
      assert order[..i + 1] == order[..i] + [order[i]];
      tried := tried + {order[i]};
      var o := TrySubfont(cache, font, u, order[i]);
      if o.Hit? {
        hit := Some((order[i], o.slot));
        break;
      }
      i := i + 1;
    }
    if hit.None? {
      assert order[..i] == order;
    }
  }

  /** One index of the fallback loop: a tried index is skipped, an untried
      one is probed. */
  method FallbackNext(cache: SlotCache, font: Font, u: int, order: seq<int>, tried: set<int>, j: int,
                      ghost probe: int -> Outcome)
    returns (hit: Option<(int, int)>)
    requires font.Valid() && cache.ValidFor(font) && 0 <= j < font.Count()
    requires forall x :: x in tried <==> x in order
    requires probe == SplitProbe(font.subfonts, font.Count(), u)
    modifies font`active, cache`slotMaps
    ensures font.Valid() && cache.ValidFor(font) && font.Count() == old(font.Count())
    ensures probe == SplitProbe(font.subfonts, font.Count(), u)
    ensures hit.Some? ==> hit == FirstHit(Untried(order, j, font.Count()), probe)
    ensures hit.None? ==> FirstHit(Untried(order, j, font.Count()), probe) == FirstHit(Untried(order, j + 1, font.Count()), probe)
  {
    var rest := Untried(order, j + 1, font.Count());
    if j in tried {
      return None;
    }
    assert Untried(order, j, font.Count()) == [j] + rest;
    assert ([j] + rest)[1..] == rest;
    var o := TrySubfont(cache, font, u, j);
    if o.Hit? {
      return Some((j, o.slot));
    }
    hit := None;
  }

  /** The fallback loop over range(cnt), skipping the tried indices. */
  method SearchFallback(cache: SlotCache, font: Font, u: int, order: seq<int>, tried: set<int>)
    returns (hit: Option<(int, int)>)
    requires font.Valid() && cache.ValidFor(font)
    requires forall x :: x in tried <==> x in order
    modifies font`active, cache`slotMaps
    ensures font.Valid() && cache.ValidFor(font) && font.Count() == old(font.Count())
    ensures hit == FirstHit(Untried(order, 0, font.Count()), SplitProbe(font.subfonts, font.Count(), u))
  {
    ghost var probe := SplitProbe(font.subfonts, font.Count(), u);
    var cnt := font.Count();
    hit := None;
    var j := 0;
    while j < cnt
      invariant font.Valid() && cache.ValidFor(font) && font.Count() == cnt
      invariant hit.None?
      invariant probe == SplitProbe(font.subfonts, font.Count(), u)
      invariant 0 <= j <= cnt
      invariant FirstHit(Untried(order, 0, cnt), probe) == FirstHit(Untried(order, j, cnt), probe)
    {
      hit := FallbackNext(cache, font, u, order, tried, j, probe);
      if hit.Some? {
        break;
      }
      j := j + 1;
    }
  }

  /** resolve_src_slot_cid of cid.py (rel = Split) and build.py (rel =
      Monolith); with rel = Packaged it is the src/cid.py release called
      without maps. */
  method Resolve(rel: Release, cache: SlotCache, font: Font, u: int, idx: NameIndex)
    returns (r: Option<(Option<int>, int)>)
    requires font.Valid() && cache.ValidFor(font)
    modifies font`active, cache`slotMaps
    ensures font.Valid() && cache.ValidFor(font) && font.active == old(font.active)
    ensures r == ResolveSpec(rel, font.subfonts, font.active, font.Count(), idx, u)
  {
    if font.Count() <= 0 {
      r := ResolveFlat(cache, font, u);
    } else {
      r := ResolveCid(rel, cache, font, u, idx);
    }
  }

  /** The branch for a font that is not CID-keyed. */
  method ResolveFlat(cache: SlotCache, font: Font, u: int) returns (r: Option<(Option<int>, int)>)
    requires font.Valid() && cache.ValidFor(font) && font.Count() <= 0
    modifies cache`slotMaps
    ensures font.Valid() && cache.ValidFor(font)
    ensures r == (var slot := SlotOf(font.Current(), font.Count(), u);
                  if slot != -1 && DrawsAt(font.Glyphs(), slot) then Some((None, slot)) else None)
  {
    var slot := FindSlot(cache, font, u);
    if slot != -1 && Worth(font.Glyphs(), SlotIndex(font.Glyphs(), slot)) {
      return Some((None, slot));
    }
    return None;
  }

  /** The branch for a CID-keyed font: the preferred subfonts, then the
      untried ones, with the active subfont restored afterwards. */
  method ResolveCid(rel: Release, cache: SlotCache, font: Font, u: int, idx: NameIndex)
    returns (r: Option<(Option<int>, int)>)
    requires font.Valid() && cache.ValidFor(font) && font.Count() > 0
    modifies font`active, cache`slotMaps
    ensures font.Valid() && cache.ValidFor(font) && font.active == old(font.active)
    ensures r == ResolveSpec(rel, font.subfonts, font.active, font.Count(), idx, u)
  {
    var cnt := font.Count();
    var saved := font.active;
    var (order, _) := PreferredIndices(rel, idx, u);
    FirstHitConcat(order, Untried(order, 0, cnt), SplitProbe(font.subfonts, cnt, u));
    var hit, tried := SearchPreferred(cache, font, u, order);
    if hit.None? {
      hit := SearchFallback(cache, font, u, order, tried);
    }
    var restored := font.SetActive(saved);
    assert restored;
    r := match hit case None => None case Some((j, slot)) => Some((Some(j), slot));
  }

  /** Nothing non-drawable is ever returned; a CID answer names a subfont of
      the font and the slot find_slot gives there. */
  lemma ResolveSound(rel: Release, sfs: seq<Subfont>, active: int, cnt: nat, idx: NameIndex, u: int)
    requires 0 <= active < |sfs|
    requires ResolveSpec(rel, sfs, active, cnt, idx, u).Some?
    ensures var (sub, slot) := ResolveSpec(rel, sfs, active, cnt, idx, u).value;
            slot != -1 &&
            (sub.None? ==> cnt == 0 && DrawsAt(sfs[active].glyphs, slot)) &&
            (sub.Some? ==> 0 <= sub.value < cnt && sub.value < |sfs| &&
                           slot == SlotOf(sfs[sub.value], cnt, u) && DrawsAt(sfs[sub.value].glyphs, slot))
  {
  }

  /** The fallback scan is exhaustive: when any subfont resolves u to a
      drawable glyph, the search returns something. */
  lemma ResolveComplete(rel: Release, sfs: seq<Subfont>, active: int, cnt: nat, idx: NameIndex, u: int, j: int)
    requires 0 <= active < |sfs| && cnt > 0
    requires ProbeSplit(sfs, cnt, u, j).Hit?
    ensures ResolveSpec(rel, sfs, active, cnt, idx, u).Some?
  {
    ScanOrderCovers(PreferredIndices(rel, idx, u).0, cnt, j);
  }

  /** A preferred subfont that resolves u wins over every fallback index:
      the answer is then a preferred subfont, and no preferred subfont
      listed before it resolves u. */
  lemma ResolvePreferredFirst(rel: Release, sfs: seq<Subfont>, active: int, cnt: nat, idx: NameIndex, u: int, j: int)
    requires 0 <= active < |sfs| && cnt > 0
    requires j in PreferredIndices(rel, idx, u).0 && ProbeSplit(sfs, cnt, u, j).Hit?
    ensures ResolveSpec(rel, sfs, active, cnt, idx, u).Some?
    ensures var sub := ResolveSpec(rel, sfs, active, cnt, idx, u).value.0;
            sub.Some? && sub.value in PreferredIndices(rel, idx, u).0
  {
    var order := PreferredIndices(rel, idx, u).0;
    FirstHitConcat(order, Untried(order, 0, cnt), SplitProbe(sfs, cnt, u));
  }
}
