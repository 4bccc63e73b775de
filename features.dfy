/** The feature baker (features.py and the copies in build.py): the
    outline-overwrite primitive, the protection check, the always-on
    alternates baker with its three passes, and lookup removal and listing
    by feature tag. */
module Features {
  import opened Wrappers
  import opened FontData
  import opened FontModel
  import opened Ranges
  import opened UnicodeTables
  import opened CidSlots

  // ---------------------------------------------------------------------
  // Configuration (config.py and src/config.py agree on these)
  // ---------------------------------------------------------------------

  const AlwaysOnSs: seq<string> := ["ss01", "ss02", "ss03", "ss06", "ss08"]
  const AlwaysOnSwash: bool := false
  const AlwaysOnSlashZero: bool := true
  const AlwaysOnExtraSuffix: seq<string> := []
  const AlwaysOnFeatureTags: seq<string> := ["case"]

  /** always_tags of the coverage pass; also REMOVE_GSUB_FEATURES. */
  const AlwaysTags: set<string> :=
    set t | t in AlwaysOnSs + AlwaysOnExtraSuffix + AlwaysOnFeatureTags + (if AlwaysOnSwash then ["swsh"] else [])

  /** The glyph-name suffixes of the suffix pass, in probing order. */
  const Suffixes: seq<string> := AlwaysOnSs + AlwaysOnExtraSuffix + (if AlwaysOnSwash then ["swsh"] else [])

  const MathCaseCodepoints: seq<int> :=
    [0x2212, 0x002B, 0x00F7, 0x00B1, 0x00D7, 0x003D, 0x2260, 0x2248, 0x007E, 0x003C, 0x003E, 0x2264, 0x2265]
  const BracketCaseCodepoints: seq<int> :=
    [0x0028, 0x0029, 0x003C, 0x003E, 0x007B, 0x007D, 0x005B, 0x005D, 0x00AB, 0x00BB, 0x2039, 0x203A]
  const DashCaseCodepoints: seq<int> :=
    [0x002D, 0x2013, 0x2014, 0x2192, 0x2190, 0x27F6, 0x27F5, 0x27FA]

  const DashProtect: set<int> := set u | u in DashCaseCodepoints
  const BracketProtect: set<int> := set u | u in BracketCaseCodepoints

  /** The digit ranges the root configuration reads (unicode_ranges.py). */
  function DigitRanges(): seq<Range>
  {
    Legacy.digit
  }

  /** What the configuration promises the two passes: every ss tag is both
      a suffix and a tag to bake, and "case" is baked but never a suffix. */
  lemma ConfigShape()
    ensures Suffixes == AlwaysOnSs
    ensures AlwaysTags == {"ss01", "ss02", "ss03", "ss06", "ss08", "case"}
    ensures forall s | s in Suffixes :: s in AlwaysTags
    ensures "case" in AlwaysTags && "case" !in Suffixes
  {
    assert AlwaysOnSs + AlwaysOnExtraSuffix + AlwaysOnFeatureTags + [] == ["ss01", "ss02", "ss03", "ss06", "ss08", "case"];
  }

  // ---------------------------------------------------------------------
  // Protection
  // ---------------------------------------------------------------------

  /** `int(unicode or -1)`: a codepoint 0 reads as unmapped. */
  function UnicodeOrUnmapped(u: int): (r: int)
    ensures r == -1 <==> u == -1 || u == 0
    ensures r != -1 ==> r == u
  {
    if u == 0 then -1 else u
  }

  /** A base glyph the GSUB passes must not touch: a dash, a bracket or a
      digit. An unmapped base is never protected. */
  predicate Protected(u: int)
  {
    u != -1 && (u in DashProtect || u in BracketProtect || InAny(u, DigitRanges()))
  }

  /** The protection check as the value the GSUB passes are given. */
  function Protection(): int -> bool
  {
    u => Protected(u)
  }

  /** The worked cases of the protection check. */
  lemma ProtectedExamples()
    ensures Protected(0x002D) && Protected(0x0028) && Protected(0x0030) && Protected(0xFF19)
    ensures !Protected(-1) && !Protected(0x0041) && !Protected(UnicodeOrUnmapped(0))
  {
    assert 0x002D == DashCaseCodepoints[0];
    assert 0x0028 == BracketCaseCodepoints[0];
    InAnyIff(0x0030, DigitRanges());
    InAnyIff(0xFF19, DigitRanges());
    InAnyIff(0x0041, DigitRanges());
    assert 0x0041 !in DashProtect;
    assert 0x0041 !in BracketProtect;
  }

  // ---------------------------------------------------------------------
  // overwrite_outline_same_font
  // ---------------------------------------------------------------------

  /** Glyph d after overwrite_outline_same_font(font, gs[d], gs[s]): the
      glyph is cleared first, then s is pasted over it, then d's unicode
      and width are put back and altuni dropped. When d == s the source is
      the cleared glyph itself. */
  function OverwriteIn(gs: seq<Glyph>, d: nat, s: nat): (r: seq<Glyph>)
    requires d < |gs| && s < |gs|
    ensures |r| == |gs| && forall k | 0 <= k < |gs| && k != d :: r[k] == gs[k]
    ensures r[d].name == gs[d].name && r[d].encoding == gs[d].encoding
    ensures r[d].unicode == gs[d].unicode && r[d].width == gs[d].width && r[d].altuni == []
    ensures d != s ==> r[d].outline == gs[s].outline && r[d].drawable == gs[s].drawable
    ensures d == s ==> r[d].outline == Empty && !r[d].drawable
  {
    var cleared := gs[d := Cleared(gs[d])];
    var sg := cleared[s];
    var pasted := cleared[d].(outline := sg.outline, width := sg.width, drawable := sg.drawable, anchors := sg.anchors);
    cleared[d := pasted.(unicode := gs[d].unicode, width := gs[d].width, altuni := [])]
  }

  /** overwrite_outline_same_font on the active slot space; the selection
      ends on the destination's slot. */
  method Overwrite(font: Font, d: nat, s: nat)
    requires font.Valid() && d < |font.Glyphs()| && s < |font.Glyphs()|
    modifies font`subfonts, font`selection
    ensures font.Valid()
    ensures font.subfonts == old(font.subfonts)[font.active := old(font.Current()).(glyphs := OverwriteIn(old(font.Glyphs()), d, s))]
    ensures font.selection == {old(font.Glyphs())[d].encoding}
  {
    var keepU := font.Glyphs()[d].unicode;
    var keepW := font.Glyphs()[d].width;
    font.PutGlyph(d, Cleared(font.Glyphs()[d]));
    font.selection := {font.Glyphs()[s].encoding};
    var sg := font.Glyphs()[s];
    font.selection := {font.Glyphs()[d].encoding};
    var dg := font.Glyphs()[d].(outline := sg.outline, width := sg.width, drawable := sg.drawable, anchors := sg.anchors);
    dg := dg.(unicode := keepU, width := keepW);
    dg := dg.(altuni := []);
    font.PutGlyph(d, dg);
  }

  // ---------------------------------------------------------------------
  // One substitution pair
  // ---------------------------------------------------------------------

  /** One (base, alternate) pair of a GSUB pass: skipped when either glyph
      is missing or the base is protected, baked when the alternate draws.
      The flag says whether it counted. */
  function PairStep(gs: seq<Glyph>, base: Option<nat>, alt: Option<nat>, prot: int -> bool): (r: (seq<Glyph>, bool))
    ensures |r.0| == |gs|
  {
    if base.None? || alt.None? || base.value >= |gs| || alt.value >= |gs| then (gs, false)
    else if prot(UnicodeOrUnmapped(gs[base.value].unicode)) then (gs, false)
    else if gs[alt.value].drawable then (OverwriteIn(gs, base.value, alt.value), true)
    else (gs, false)
  }

  /** A pair bakes exactly when both glyphs exist, the base is not
      protected and the alternate draws; only the base changes, and it
      keeps its codepoint. */
  lemma PairStepEffect(gs: seq<Glyph>, base: Option<nat>, alt: Option<nat>, prot: int -> bool)
    ensures var (out, hit) := PairStep(gs, base, alt, prot);
            (hit <==> base.Some? && alt.Some? && base.value < |gs| && alt.value < |gs| &&
                      !prot(UnicodeOrUnmapped(gs[base.value].unicode)) && gs[alt.value].drawable) &&
            (!hit ==> out == gs) &&
            (hit ==> forall k | 0 <= k < |gs| && k != base.value :: out[k] == gs[k]) &&
            forall k | 0 <= k < |gs| :: out[k].unicode == gs[k].unicode && out[k].name == gs[k].name
  {
  }

  /** The glyph names a base and an alternate name resolve to, by glyph
      name (`font[name]`). */
  function NamedPair(gs: seq<Glyph>, p: (string, string), prot: int -> bool): (r: (seq<Glyph>, bool))
    ensures |r.0| == |gs|
  {
    PairStep(gs, NamedIndex(gs, p.0), NamedIndex(gs, p.1), prot)
  }

  /** A sequence of named pairs applied in order, with the number baked. */
  function ApplyNamed(gs: seq<Glyph>, pairs: seq<(string, string)>, prot: int -> bool): (r: (seq<Glyph>, nat))
    ensures |r.0| == |gs| && r.1 <= |pairs|
  {
    if pairs == [] then (gs, 0)
    else
      var (mid, n) := ApplyNamed(gs, pairs[..|pairs| - 1], prot);
      var (out, hit) := NamedPair(mid, pairs[|pairs| - 1], prot);
      (out, if hit then n + 1 else n)
  }

  lemma ApplyNamedSnoc(gs: seq<Glyph>, pairs: seq<(string, string)>, p: (string, string), prot: int -> bool)
    ensures var step := NamedPair(ApplyNamed(gs, pairs, prot).0, p, prot);
            ApplyNamed(gs, pairs + [p], prot).0 == step.0 &&
            ApplyNamed(gs, pairs + [p], prot).1 == ApplyNamed(gs, pairs, prot).1 + (if step.1 then 1 else 0)
  {
    assert (pairs + [p])[..|pairs + [p]| - 1] == pairs;
  }

  /** No GSUB pass ever changes a glyph whose codepoint is protected, and
      no glyph's codepoint or name changes. */
  lemma {:induction false} ApplyNamedKeepsProtected(gs: seq<Glyph>, pairs: seq<(string, string)>, prot: int -> bool)
    ensures var out := ApplyNamed(gs, pairs, prot).0;
            (forall k | 0 <= k < |gs| :: out[k].unicode == gs[k].unicode && out[k].name == gs[k].name) &&
            forall k | 0 <= k < |gs| && prot(UnicodeOrUnmapped(gs[k].unicode)) :: out[k] == gs[k]
  {
    if pairs != [] {
      var init := pairs[..|pairs| - 1];
      ApplyNamedKeepsProtected(gs, init, prot);
      var mid := ApplyNamed(gs, init, prot).0;
      var p := pairs[|pairs| - 1];
      PairStepEffect(mid, NamedIndex(mid, p.0), NamedIndex(mid, p.1), prot);
    }
  }

  /** One named pair on the active slot space. */
  method BakeNamedPair(font: Font, p: (string, string), prot: int -> bool) returns (hit: bool)
    requires font.Valid()
    modifies font`subfonts, font`selection
    ensures font.Valid() && OnlyGlyphs(font, old(font.subfonts), old(font.active))
    ensures font.Glyphs() == NamedPair(old(font.Glyphs()), p, prot).0 && hit == NamedPair(old(font.Glyphs()), p, prot).1
  {
    var base := NamedIndex(font.Glyphs(), p.0);
    var alt := NamedIndex(font.Glyphs(), p.1);
    hit := false;
    if base.Some? && alt.Some? {
      var u := UnicodeOrUnmapped(font.Glyphs()[base.value].unicode);
      if !prot(u) && font.Glyphs()[alt.value].drawable {
        Overwrite(font, base.value, alt.value);
        hit := true;
      }
    }
    if !hit {
      assert old(font.subfonts)[font.active := old(font.Current())] == old(font.subfonts);
    }
  }

  // ---------------------------------------------------------------------
  // Lookups and their feature tags
  // ---------------------------------------------------------------------

  /** The feature tags getLookupInfo reports; empty when it raises. */
  function TagSet(lk: Lookup): set<string>
  {
    if lk.tags.Some? then set t | t in lk.tags.value else {}
  }

  /** A lookup is selected exactly when its tags meet the given set. */
  predicate Matches(lk: Lookup, tags: set<string>)
  {
    TagSet(lk) * tags != {}
  }

  /** The (base, alternate) names of the dictionary coverages, in order. */
  function SubtablePairs(cov: seq<Option<seq<(string, string)>>>): seq<(string, string)>
  {
    if cov == [] then []
    else SubtablePairs(cov[..|cov| - 1]) + (if cov[|cov| - 1].Some? then cov[|cov| - 1].value else [])
  }

  /** The pairs of the coverage pass: the coverages of the selected
      lookups, lookup by lookup. */
  function CoveragePairs(lks: seq<Lookup>, tags: set<string>): seq<(string, string)>
  {
    if lks == [] then []
    else CoveragePairs(lks[..|lks| - 1], tags) +
         (if Matches(lks[|lks| - 1], tags) then SubtablePairs(lks[|lks| - 1].coverage) else [])
  }

  /** A pair is in the coverage pass exactly when some selected lookup has
      it in one of its dictionary coverages. */
  lemma {:induction false} CoveragePairsMembers(lks: seq<Lookup>, tags: set<string>, p: (string, string))
    ensures p in CoveragePairs(lks, tags) <==>
              exists i, j :: 0 <= i < |lks| && Matches(lks[i], tags) && 0 <= j < |lks[i].coverage| &&
                             lks[i].coverage[j].Some? && p in lks[i].coverage[j].value
  {
    if lks != [] {
      var init := lks[..|lks| - 1];
      var last := lks[|lks| - 1];
      CoveragePairsMembers(init, tags, p);
      SubtablePairsMembers(last.coverage, p);
      if p in CoveragePairs(lks, tags) {
        if p in CoveragePairs(init, tags) {
          var i, j :| 0 <= i < |init| && Matches(init[i], tags) && 0 <= j < |init[i].coverage| &&
                      init[i].coverage[j].Some? && p in init[i].coverage[j].value;
          assert lks[i] == init[i];
        } else {
          var j :| 0 <= j < |last.coverage| && last.coverage[j].Some? && p in last.coverage[j].value;
          assert lks[|lks| - 1] == last;
        }
      }
      if exists i, j :: 0 <= i < |lks| && Matches(lks[i], tags) && 0 <= j < |lks[i].coverage| &&
                        lks[i].coverage[j].Some? && p in lks[i].coverage[j].value {
        var i, j :| 0 <= i < |lks| && Matches(lks[i], tags) && 0 <= j < |lks[i].coverage| &&
                    lks[i].coverage[j].Some? && p in lks[i].coverage[j].value;
        if i < |init| {
          assert init[i] == lks[i];
        }
      }
    }
  }

  lemma {:induction false} SubtablePairsMembers(cov: seq<Option<seq<(string, string)>>>, p: (string, string))
    ensures p in SubtablePairs(cov) <==> exists j :: 0 <= j < |cov| && cov[j].Some? && p in cov[j].value
  {
    if cov != [] {
      var init := cov[..|cov| - 1];
      SubtablePairsMembers(init, p);
      if p in SubtablePairs(init) {
        var j :| 0 <= j < |init| && init[j].Some? && p in init[j].value;
        assert cov[j] == init[j];
      }
      if exists j :: 0 <= j < |cov| && cov[j].Some? && p in cov[j].value {
        var j :| 0 <= j < |cov| && cov[j].Some? && p in cov[j].value;
        if j < |init| {
          assert init[j] == cov[j];
        }
      }
    }
  }

  // ---------------------------------------------------------------------
  // The coverage pass of bake_single_glyph_alternates
  // ---------------------------------------------------------------------

  /** The entries of one dictionary coverage, in order. */
  method BakeEntries(font: Font, entries: seq<(string, string)>, prot: int -> bool) returns (n: nat)
    requires font.Valid()
    modifies font`subfonts, font`selection
    ensures font.Valid() && OnlyGlyphs(font, old(font.subfonts), old(font.active))
    ensures font.Glyphs() == ApplyNamed(old(font.Glyphs()), entries, prot).0 && n == ApplyNamed(old(font.Glyphs()), entries, prot).1
  {
    ghost var gs0 := font.Glyphs();
    n := 0;
    var e := 0;
    while e < |entries|
      invariant 0 <= e <= |entries| && font.Valid() && OnlyGlyphs(font, old(font.subfonts), old(font.active))
      invariant font.Glyphs() == ApplyNamed(gs0, entries[..e], prot).0
      invariant n == ApplyNamed(gs0, entries[..e], prot).1
    {
      n := BakeNextPair(font, entries, e, prot, gs0, n);
      e := e + 1;
    }
    assert entries[..e] == entries;
  }

  /** Entry e of a pass that has already applied the entries before it. */
  method BakeNextPair(font: Font, entries: seq<(string, string)>, e: nat, prot: int -> bool, ghost gs0: seq<Glyph>, n0: nat)
    returns (n: nat)
    requires font.Valid() && e < |entries|
    requires font.Glyphs() == ApplyNamed(gs0, entries[..e], prot).0 && n0 == ApplyNamed(gs0, entries[..e], prot).1
    modifies font`subfonts, font`selection
    ensures font.Valid() && OnlyGlyphs(font, old(font.subfonts), old(font.active))
    ensures font.Glyphs() == ApplyNamed(gs0, entries[..e + 1], prot).0 && n == ApplyNamed(gs0, entries[..e + 1], prot).1
  {
    assert entries[..e + 1] == entries[..e] + [entries[e]];
    ApplyNamedSnoc(gs0, entries[..e], entries[e], prot);
    var hit := BakeNamedPair(font, entries[e], prot);
    n := if hit then n0 + 1 else n0;
  }

  /** The subtables of one selected lookup; a coverage that is not a
      dictionary is skipped. */
  method BakeSubtables(font: Font, cov: seq<Option<seq<(string, string)>>>, prot: int -> bool) returns (n: nat)
    requires font.Valid()
    modifies font`subfonts, font`selection
    ensures font.Valid() && OnlyGlyphs(font, old(font.subfonts), old(font.active))
    ensures font.Glyphs() == ApplyNamed(old(font.Glyphs()), SubtablePairs(cov), prot).0
    ensures n == ApplyNamed(old(font.Glyphs()), SubtablePairs(cov), prot).1
  {
    ghost var gs0 := font.Glyphs();
    n := 0;
    var j := 0;
    while j < |cov|
      invariant 0 <= j <= |cov| && font.Valid() && OnlyGlyphs(font, old(font.subfonts), old(font.active))
      invariant font.Glyphs() == ApplyNamed(gs0, SubtablePairs(cov[..j]), prot).0
      invariant n == ApplyNamed(gs0, SubtablePairs(cov[..j]), prot).1
    {
      n := BakeNextSubtable(font, cov, j, prot, gs0, n);
      j := j + 1;
    }
    assert cov[..j] == cov;
  }

  /** Subtable j of a pass that has already applied the subtables before
      it; a coverage that is not a dictionary adds nothing. */
  method BakeNextSubtable(font: Font, cov: seq<Option<seq<(string, string)>>>, j: nat, prot: int -> bool,
                          ghost gs0: seq<Glyph>, n0: nat) returns (n: nat)
    requires font.Valid() && j < |cov|
    requires font.Glyphs() == ApplyNamed(gs0, SubtablePairs(cov[..j]), prot).0
    requires n0 == ApplyNamed(gs0, SubtablePairs(cov[..j]), prot).1
    modifies font`subfonts, font`selection
    ensures font.Valid() && OnlyGlyphs(font, old(font.subfonts), old(font.active))
    ensures font.Glyphs() == ApplyNamed(gs0, SubtablePairs(cov[..j + 1]), prot).0
    ensures n == ApplyNamed(gs0, SubtablePairs(cov[..j + 1]), prot).1
  {
    n := n0;
    ghost var done := SubtablePairs(cov[..j]);
    assert cov[..j + 1][..j] == cov[..j];
    if cov[j].Some? {
      assert SubtablePairs(cov[..j + 1]) == done + cov[j].value;
      ApplyNamedConcat(gs0, done, cov[j].value, prot);
      var m := BakeEntries(font, cov[j].value, prot);
      n := n + m;
    } else {
      assert SubtablePairs(cov[..j + 1]) == done + [] == done;
      assert old(font.subfonts)[font.active := old(font.Current())] == old(font.subfonts);
    }
  }

  /** One lookup of the coverage pass: a lookup whose tags meet the set has
      its subtables' pairs applied, any other lookup is skipped. */
  method CoverageNext(font: Font, lks: seq<Lookup>, i: nat, tags: set<string>, prot: int -> bool,
                      ghost gs0: seq<Glyph>, n0: nat) returns (n: nat)
    requires font.Valid() && i < |lks|
    requires font.Glyphs() == ApplyNamed(gs0, CoveragePairs(lks[..i], tags), prot).0
    requires n0 == ApplyNamed(gs0, CoveragePairs(lks[..i], tags), prot).1
    modifies font`subfonts, font`selection
    ensures font.Valid() && OnlyGlyphs(font, old(font.subfonts), old(font.active))
    ensures font.Glyphs() == ApplyNamed(gs0, CoveragePairs(lks[..i + 1], tags), prot).0
    ensures n == ApplyNamed(gs0, CoveragePairs(lks[..i + 1], tags), prot).1
  {
    n := n0;
    assert lks[..i + 1][..i] == lks[..i];
    if Matches(lks[i], tags) {
      assert CoveragePairs(lks[..i + 1], tags) == CoveragePairs(lks[..i], tags) + SubtablePairs(lks[i].coverage);
      ApplyNamedConcat(gs0, CoveragePairs(lks[..i], tags), SubtablePairs(lks[i].coverage), prot);
      var m := BakeSubtables(font, lks[i].coverage, prot);
      n := n + m;
    } else {
      assert CoveragePairs(lks[..i + 1], tags) == CoveragePairs(lks[..i], tags);
      assert old(font.subfonts)[font.active := old(font.Current())] == old(font.subfonts);
    }
  }

  /** Pass 1 of bake_single_glyph_alternates (features.py only): every
      lookup whose tags meet `tags`, subtable by subtable. */
  method BakeCoverage(font: Font, tags: set<string>, prot: int -> bool) returns (n: nat)
    requires font.Valid()
    modifies font`subfonts, font`selection
    ensures font.Valid() && OnlyGlyphs(font, old(font.subfonts), old(font.active))
    ensures font.Glyphs() == ApplyNamed(old(font.Glyphs()), CoveragePairs(font.lookups, tags), prot).0
    ensures n == ApplyNamed(old(font.Glyphs()), CoveragePairs(font.lookups, tags), prot).1
  {
    ghost var gs0 := font.Glyphs();
    var lks := font.lookups;
    n := 0;
    var i := 0;
    while i < |lks|
      invariant 0 <= i <= |lks| && font.Valid() && OnlyGlyphs(font, old(font.subfonts), old(font.active))
      invariant font.Glyphs() == ApplyNamed(gs0, CoveragePairs(lks[..i], tags), prot).0
      invariant n == ApplyNamed(gs0, CoveragePairs(lks[..i], tags), prot).1
    {
      n := CoverageNext(font, lks, i, tags, prot, gs0, n);
      i := i + 1;
    }
    assert lks[..i] == lks;
  }

  /** Applying two lists of pairs one after the other is applying their
      concatenation. */
  lemma {:induction false} ApplyNamedConcat(gs: seq<Glyph>, xs: seq<(string, string)>, ys: seq<(string, string)>, prot: int -> bool)
    ensures ApplyNamed(gs, xs + ys, prot).0 == ApplyNamed(ApplyNamed(gs, xs, prot).0, ys, prot).0
    ensures ApplyNamed(gs, xs + ys, prot).1 == ApplyNamed(gs, xs, prot).1 + ApplyNamed(ApplyNamed(gs, xs, prot).0, ys, prot).1
  {
    if ys == [] {
      assert xs + ys == xs;
    } else {
      var init := ys[..|ys| - 1];
      var y := ys[|ys| - 1];
      ApplyNamedConcat(gs, xs, init, prot);
      assert (xs + ys)[..|xs + ys| - 1] == xs + init;
      assert (xs + ys)[|xs + ys| - 1] == y;
    }
  }

  // ---------------------------------------------------------------------
  // The slash-zero pass
  // ---------------------------------------------------------------------

  /** U+0030 or U+FF10: the glyph find_slot names is overwritten from
      "zero.slash" when both draw. No protection applies here. */
  function SlashZeroStep(gs: seq<Glyph>, encmap: map<int, int>, u0: int): (r: seq<Glyph>)
    ensures |r| == |gs|
  {
    var slot := MapGet(encmap, u0);
    var z := SlotIndex(gs, slot);
    var zalt := NamedIndex(gs, "zero.slash");
    if slot != -1 && z.Some? && zalt.Some? && gs[z.value].drawable && gs[zalt.value].drawable
    then OverwriteIn(gs, z.value, zalt.value)
    else gs
  }

  /** ALWAYS_ON_SLASH_ZERO: both zeros, ASCII first. */
  function SlashZeroPass(gs: seq<Glyph>, encmap: map<int, int>): (r: seq<Glyph>)
    ensures |r| == |gs|
  {
    if AlwaysOnSlashZero then SlashZeroStep(SlashZeroStep(gs, encmap, 0x0030), encmap, 0xFF10) else gs
  }

  /** The digit zero is protected in the GSUB passes, yet the slash-zero
      pass overwrites it: when its slot holds a drawable glyph other than a
      drawable "zero.slash", that glyph takes the slashed outline and keeps
      its codepoint and width. */
  lemma SlashZeroOverridesProtection(gs: seq<Glyph>, encmap: map<int, int>)
    ensures Protected(0x0030)
    ensures var slot := MapGet(encmap, 0x0030);
            var z := SlotIndex(gs, slot);
            var zalt := NamedIndex(gs, "zero.slash");
            slot != -1 && z.Some? && zalt.Some? && z != zalt && gs[z.value].drawable && gs[zalt.value].drawable ==>
              var r := SlashZeroStep(gs, encmap, 0x0030);
              r[z.value].outline == gs[zalt.value].outline && r[z.value].unicode == gs[z.value].unicode &&
              r[z.value].width == gs[z.value].width
  {
    ProtectedExamples();
  }

  /** The slash-zero step changes at most the glyph in the slot find_slot
      names, and no glyph's name, slot or codepoint. */
  lemma SlashZeroStepEffect(gs: seq<Glyph>, m: map<int, int>, u0: int)
    ensures var r := SlashZeroStep(gs, m, u0);
            (forall k | 0 <= k < |gs| && gs[k].encoding != MapGet(m, u0) :: r[k] == gs[k]) &&
            forall k | 0 <= k < |gs| ::
              r[k].name == gs[k].name && r[k].encoding == gs[k].encoding && r[k].unicode == gs[k].unicode
  {
  }

  /** The slash-zero step on the active slot space; find_slot answers from
      map m, which the step leaves as the one it would consult next. */
  method SlashZeroAt(cache: SlotCache, font: Font, u0: int, ghost m: map<int, int>)
    requires font.Valid() && m == ConsultedMap(font.Current(), font.Count(), CachedEntry(cache, font))
    modifies font`subfonts, font`selection, cache`slotMaps
    ensures font.Valid() && OnlyGlyphs(font, old(font.subfonts), old(font.active))
    ensures font.Glyphs() == SlashZeroStep(old(font.Glyphs()), m, u0)
    ensures m == ConsultedMap(font.Current(), font.Count(), CachedEntry(cache, font))
  {
    var slot := FindSlot(cache, font, u0);
    if slot == -1 {
      return;
    }
    var z := SlotIndex(font.Glyphs(), slot);
    var zalt := NamedIndex(font.Glyphs(), "zero.slash");
    if z.Some? && zalt.Some? && font.Glyphs()[z.value].drawable && font.Glyphs()[zalt.value].drawable {
      Overwrite(font, z.value, zalt.value);
    }
  }

  // ---------------------------------------------------------------------
  // The suffix pass
  // ---------------------------------------------------------------------

  /** One suffix probe on glyph k: the glyph named name.tag overwrites k
      when it draws. */
  function TagStep(gs: seq<Glyph>, k: nat, name: string, tag: string): (r: (seq<Glyph>, bool))
    requires k < |gs|
    ensures |r.0| == |gs|
  {
    var alt := NamedIndex(gs, name + "." + tag);
    if alt.Some? && gs[alt.value].drawable then (OverwriteIn(gs, k, alt.value), true) else (gs, false)
  }

  /** The probes of glyph k, in suffix order, with the number baked. */
  function TagsPass(gs: seq<Glyph>, k: nat, name: string, tags: seq<string>): (r: (seq<Glyph>, nat))
    requires k < |gs|
    ensures |r.0| == |gs| && r.1 <= |tags|
  {
    if tags == [] then (gs, 0)
    else
      var (mid, n) := TagsPass(gs, k, name, tags[..|tags| - 1]);
      var (out, hit) := TagStep(mid, k, name, tags[|tags| - 1]);
      (out, if hit then n + 1 else n)
  }

  /** The alternate the last drawable probe finds, if any. */
  function LastHit(gs: seq<Glyph>, name: string, tags: seq<string>): (r: Option<nat>)
    ensures r.Some? ==> r.value < |gs| && gs[r.value].drawable
  {
    if tags == [] then None
    else
      var alt := NamedIndex(gs, name + "." + tags[|tags| - 1]);
      if alt.Some? && gs[alt.value].drawable then alt else LastHit(gs, name, tags[..|tags| - 1])
  }

  /** Glyph lists that agree on every name find the same glyph by name. */
  lemma {:induction false} NamedIndexSameNames(a: seq<Glyph>, b: seq<Glyph>, x: string)
    requires |a| == |b| && forall k | 0 <= k < |a| :: a[k].name == b[k].name
    ensures NamedIndex(a, x) == NamedIndex(b, x)
  {
    if a != [] {
      NamedIndexSameNames(a[1..], b[1..], x);
    }
  }

  /** The probes of glyph k change only glyph k, never its name, codepoint
      or width; the last drawable alternate wins, and with none glyph k is
      untouched. */
  lemma {:induction false} TagsPassEffect(gs: seq<Glyph>, k: nat, tags: seq<string>)
    requires k < |gs|
    ensures var r := TagsPass(gs, k, gs[k].name, tags).0;
            var hit := LastHit(gs, gs[k].name, tags);
            (forall j | 0 <= j < |gs| && j != k :: r[j] == gs[j]) &&
            r[k].name == gs[k].name && r[k].unicode == gs[k].unicode && r[k].width == gs[k].width &&
            (hit.None? ==> r[k] == gs[k]) &&
            (hit.Some? ==> hit.value != k && r[k].outline == gs[hit.value].outline && r[k].drawable && r[k].altuni == [])
  {
    if tags != [] {
      var name := gs[k].name;
      var init := tags[..|tags| - 1];
      var tag := tags[|tags| - 1];
      TagsPassEffect(gs, k, init);
      var mid := TagsPass(gs, k, name, init).0;
      NamedIndexSameNames(mid, gs, name + "." + tag);
      var alt := NamedIndex(gs, name + "." + tag);
      if alt.Some? {
        assert gs[alt.value].name == name + "." + tag;
        assert |gs[alt.value].name| > |name|;
        assert alt.value != k;
        assert mid[alt.value] == gs[alt.value];
      }
    }
  }

  /** Skipped by the suffix pass: a glyph that does not draw, is unmapped,
      is a digit (features.py only, through isDigit) or has no name. */
  predicate SuffixSkips(g: Glyph, isDigit: int -> bool)
  {
    !g.drawable || g.unicode == -1 || isDigit(g.unicode) || g.name == ""
  }

  function SuffixGlyph(gs: seq<Glyph>, k: nat, tags: seq<string>, isDigit: int -> bool): (r: (seq<Glyph>, nat))
    requires k < |gs|
    ensures |r.0| == |gs|
  {
    if SuffixSkips(gs[k], isDigit) then (gs, 0) else TagsPass(gs, k, gs[k].name, tags)
  }

  /** The suffix pass over the first i glyphs, in glyph order. */
  function SuffixPass(gs: seq<Glyph>, i: nat, tags: seq<string>, isDigit: int -> bool): (r: (seq<Glyph>, nat))
    requires i <= |gs|
    ensures |r.0| == |gs|
  {
    if i == 0 then (gs, 0)
    else
      var (mid, n) := SuffixPass(gs, i - 1, tags, isDigit);
      var (out, m) := SuffixGlyph(mid, i - 1, tags, isDigit);
      (out, n + m)
  }

  /** Two glyph lists that agree on names and codepoints everywhere, and
      entirely on every glyph isDigit marks. */
  predicate KeepsDigits(gs: seq<Glyph>, r: seq<Glyph>, isDigit: int -> bool)
  {
    |r| == |gs| &&
    (forall k | 0 <= k < |gs| :: r[k].name == gs[k].name && r[k].unicode == gs[k].unicode) &&
    forall k | 0 <= k < |gs| && isDigit(gs[k].unicode) :: r[k] == gs[k]
  }

  /** One glyph of the suffix pass keeps names, codepoints and digits. */
  lemma SuffixGlyphKeepsDigits(gs: seq<Glyph>, k: nat, tags: seq<string>, isDigit: int -> bool)
    requires k < |gs|
    ensures KeepsDigits(gs, SuffixGlyph(gs, k, tags, isDigit).0, isDigit)
  {
    if !SuffixSkips(gs[k], isDigit) {
      TagsPassEffect(gs, k, tags);
    }
  }

  lemma KeepsDigitsTrans(a: seq<Glyph>, b: seq<Glyph>, c: seq<Glyph>, isDigit: int -> bool)
    requires KeepsDigits(a, b, isDigit) && KeepsDigits(b, c, isDigit)
    ensures KeepsDigits(a, c, isDigit)
  {
  }

  /** The suffix pass keeps every name and codepoint and never touches a
      glyph it skips for being a digit, whatever the other glyphs do. */
  lemma {:induction false} SuffixPassKeepsDigits(gs: seq<Glyph>, i: nat, tags: seq<string>, isDigit: int -> bool)
    requires i <= |gs|
    ensures KeepsDigits(gs, SuffixPass(gs, i, tags, isDigit).0, isDigit)
  {
    if i > 0 {
      SuffixPassKeepsDigits(gs, i - 1, tags, isDigit);
      var mid := SuffixPass(gs, i - 1, tags, isDigit).0;
      SuffixGlyphKeepsDigits(mid, i - 1, tags, isDigit);
      KeepsDigitsTrans(gs, mid, SuffixGlyph(mid, i - 1, tags, isDigit).0, isDigit);
    }
  }

  /** One probe of glyph k on the active slot space. */
  method BakeTag(font: Font, k: nat, name: string, tag: string) returns (hit: bool)
    requires font.Valid() && k < |font.Glyphs()|
    modifies font`subfonts, font`selection
    ensures font.Valid() && OnlyGlyphs(font, old(font.subfonts), old(font.active))
    ensures font.Glyphs() == TagStep(old(font.Glyphs()), k, name, tag).0 && hit == TagStep(old(font.Glyphs()), k, name, tag).1
  {
    var alt := NamedIndex(font.Glyphs(), name + "." + tag);
    hit := false;
    if alt.Some? && font.Glyphs()[alt.value].drawable {
      Overwrite(font, k, alt.value);
      hit := true;
    }
  }

  /** The probes of glyph k, in suffix order. */
  method BakeTags(font: Font, k: nat, name: string, tags: seq<string>) returns (n: nat)
    requires font.Valid() && k < |font.Glyphs()|
    modifies font`subfonts, font`selection
    ensures font.Valid() && OnlyGlyphs(font, old(font.subfonts), old(font.active))
    ensures font.Glyphs() == TagsPass(old(font.Glyphs()), k, name, tags).0 && n == TagsPass(old(font.Glyphs()), k, name, tags).1
  {
    ghost var gs0 := font.Glyphs();
    n := 0;
    var t := 0;
    while t < |tags|
      invariant 0 <= t <= |tags| && font.Valid() && OnlyGlyphs(font, old(font.subfonts), old(font.active))
      invariant |font.Glyphs()| == |gs0|
      invariant font.Glyphs() == TagsPass(gs0, k, name, tags[..t]).0 && n == TagsPass(gs0, k, name, tags[..t]).1
    {
      assert tags[..t + 1][..t] == tags[..t];
      var hit := BakeTag(font, k, name, tags[t]);
      if hit {
        n := n + 1;
      }
      t := t + 1;
    }
    assert tags[..t] == tags;
  }

  /** One glyph of the suffix pass: the pass over the first i glyphs
      becomes the pass over the first i + 1. */
  method SuffixNext(font: Font, i: nat, tags: seq<string>, isDigit: int -> bool, ghost gs0: seq<Glyph>, n0: nat)
    returns (n: nat)
    requires font.Valid() && i < |gs0| && |font.Glyphs()| == |gs0|
    requires font.Glyphs() == SuffixPass(gs0, i, tags, isDigit).0 && n0 == SuffixPass(gs0, i, tags, isDigit).1
    modifies font`subfonts, font`selection
    ensures font.Valid() && OnlyGlyphs(font, old(font.subfonts), old(font.active))
    ensures font.Glyphs() == SuffixPass(gs0, i + 1, tags, isDigit).0 && n == SuffixPass(gs0, i + 1, tags, isDigit).1
  {
    n := n0;
    var g := font.Glyphs()[i];
    if !SuffixSkips(g, isDigit) {
      var m := BakeTags(font, i, g.name, tags);
      n := n + m;
    } else {
      assert old(font.subfonts)[font.active := old(font.Current())] == old(font.subfonts);
    }
  }

  /** The suffix pass of bake_single_glyph_alternates over every glyph. */
  method BakeSuffixes(font: Font, tags: seq<string>, isDigit: int -> bool) returns (n: nat)
    requires font.Valid()
    modifies font`subfonts, font`selection
    ensures font.Valid() && OnlyGlyphs(font, old(font.subfonts), old(font.active))
    ensures font.Glyphs() == SuffixPass(old(font.Glyphs()), |old(font.Glyphs())|, tags, isDigit).0
    ensures n == SuffixPass(old(font.Glyphs()), |old(font.Glyphs())|, tags, isDigit).1
  {
    ghost var gs0 := font.Glyphs();
    n := 0;
    var i := 0;
    while i < |font.Glyphs()|
      invariant 0 <= i <= |gs0| && font.Valid() && OnlyGlyphs(font, old(font.subfonts), old(font.active))
      invariant |font.Glyphs()| == |gs0|
      invariant font.Glyphs() == SuffixPass(gs0, i, tags, isDigit).0 && n == SuffixPass(gs0, i, tags, isDigit).1
    {
      n := SuffixNext(font, i, tags, isDigit, gs0, n);
      i := i + 1;
    }
  }

  // ---------------------------------------------------------------------
  // bake_single_glyph_alternates
  // ---------------------------------------------------------------------

  /** The two versions: features.py's runs the coverage pass, skips digits
      in the suffix pass and returns its counts; build.py's has neither
      pass 1 nor the digit skip. */
  datatype AltsBaker = Modular | Monolithic

  /** The digit test of the suffix pass. */
  function DigitTest(v: AltsBaker): int -> bool
  {
    if v.Modular? then u => InAny(u, DigitRanges()) else u => false
  }

  /** Pass 1: the coverage pass, run by features.py only. */
  function CoverageStage(gs: seq<Glyph>, lks: seq<Lookup>, v: AltsBaker): (r: (seq<Glyph>, nat))
    ensures |r.0| == |gs|
    ensures v.Monolithic? ==> r == (gs, 0)
  {
    if v.Modular? then ApplyNamed(gs, CoveragePairs(lks, AlwaysTags), Protection()) else (gs, 0)
  }

  /** The map the slash-zero pass consults: it is fixed by the cache entry
      present on entry, or else by the glyphs as pass 1 leaves them. */
  function ZeroMap(sf: Subfont, count: nat, cached: Option<map<int, int>>, lks: seq<Lookup>, v: AltsBaker): map<int, int>
  {
    ConsultedMap(sf.(glyphs := CoverageStage(sf.glyphs, lks, v).0), count, cached)
  }

  /** bake_single_glyph_alternates on slot space sf: the glyphs after the
      three passes, the coverage-pass count and the suffix-pass count. */
  function BakeAlternatesSpec(sf: Subfont, count: nat, cached: Option<map<int, int>>, lks: seq<Lookup>, v: AltsBaker): (r: (seq<Glyph>, nat, nat))
  {
    var (g1, n1) := CoverageStage(sf.glyphs, lks, v);
    var g2 := SlashZeroPass(g1, ZeroMap(sf, count, cached, lks, v));
    var (g3, n3) := SuffixPass(g2, |g2|, Suffixes, DigitTest(v));
    (g3, n1, n3)
  }

  /** A digit codepoint is protected in the GSUB passes. */
  lemma DigitIsProtected(u: int)
    requires InAny(u, DigitRanges())
    ensures Protection()(UnicodeOrUnmapped(u))
  {
    InAnyIff(u, DigitRanges());
  }

  /** Baking alternates never renames, moves or remaps a glyph: each one
      keeps its name, slot and codepoint, in either version. */
  lemma BakeAlternatesKeepsIdentity(sf: Subfont, count: nat, cached: Option<map<int, int>>, lks: seq<Lookup>, v: AltsBaker)
    ensures var r := BakeAlternatesSpec(sf, count, cached, lks, v);
            |r.0| == |sf.glyphs| && (v.Monolithic? ==> r.1 == 0) &&
            forall k | 0 <= k < |sf.glyphs| ::
              r.0[k].name == sf.glyphs[k].name && r.0[k].unicode == sf.glyphs[k].unicode
  {
    var gs := sf.glyphs;
    var g1 := CoverageStage(gs, lks, v).0;
    var m := ZeroMap(sf, count, cached, lks, v);
    if v.Modular? {
      ApplyNamedKeepsProtected(gs, CoveragePairs(lks, AlwaysTags), Protection());
    }
    var g15 := SlashZeroStep(g1, m, 0x0030);
    SlashZeroStepEffect(g1, m, 0x0030);
    SlashZeroStepEffect(g15, m, 0xFF10);
    var g2 := SlashZeroPass(g1, m);
    SuffixPassKeepsDigits(g2, |g2|, Suffixes, DigitTest(v));
  }

  /** In features.py's version a digit glyph ends as it started unless it
      sits in the slot find_slot gives for U+0030 or U+FF10: both GSUB
      passes skip digits, and only the slash-zero pass may touch them. */
  lemma ModularKeepsDigits(sf: Subfont, count: nat, cached: Option<map<int, int>>, lks: seq<Lookup>)
    ensures var r := BakeAlternatesSpec(sf, count, cached, lks, Modular).0;
            var m := ZeroMap(sf, count, cached, lks, Modular);
            forall k | 0 <= k < |sf.glyphs| && InAny(sf.glyphs[k].unicode, DigitRanges()) &&
                       sf.glyphs[k].encoding != MapGet(m, 0x0030) && sf.glyphs[k].encoding != MapGet(m, 0xFF10) ::
              r[k] == sf.glyphs[k]
  {
    var gs := sf.glyphs;
    var pairs := CoveragePairs(lks, AlwaysTags);
    var g1 := ApplyNamed(gs, pairs, Protection()).0;
    var m := ZeroMap(sf, count, cached, lks, Modular);
    ApplyNamedKeepsProtected(gs, pairs, Protection());
    forall k | 0 <= k < |gs| && InAny(gs[k].unicode, DigitRanges())
      ensures g1[k] == gs[k]
    {
      DigitIsProtected(gs[k].unicode);
    }
    var g15 := SlashZeroStep(g1, m, 0x0030);
    SlashZeroStepEffect(g1, m, 0x0030);
    SlashZeroStepEffect(g15, m, 0xFF10);
    var g2 := SlashZeroPass(g1, m);
    SuffixPassKeepsDigits(g2, |g2|, Suffixes, DigitTest(Modular));
  }

  /** bake_single_glyph_alternates(dst_font), in either version. The
      slash-zero pass asks find_slot, whose cached map for a font with
      several subfonts may predate pass 1. */
  method BakeSingleGlyphAlternates(cache: SlotCache, font: Font, v: AltsBaker) returns (bakedGsub: nat, bakedSuffix: nat)
    requires font.Valid()
    modifies font`subfonts, font`selection, cache`slotMaps
    ensures font.Valid() && OnlyGlyphs(font, old(font.subfonts), old(font.active))
    ensures (font.Glyphs(), bakedGsub, bakedSuffix) ==
            BakeAlternatesSpec(old(font.Current()), font.Count(), old(CachedEntry(cache, font)), font.lookups, v)
  {
    ghost var sf0 := font.Current();
    ghost var cached0 := CachedEntry(cache, font);
    bakedGsub := 0;
    if v.Modular? {
      bakedGsub := BakeCoverage(font, AlwaysTags, Protection());
    }
    assert font.Glyphs() == CoverageStage(sf0.glyphs, font.lookups, v).0;
    assert font.Current() == sf0.(glyphs := font.Glyphs());
    ghost var m := ZeroMap(sf0, font.Count(), cached0, font.lookups, v);
    SlashZeros(cache, font, m);
    bakedSuffix := BakeSuffixes(font, Suffixes, DigitTest(v));
  }

  /** The slashed-zero pass, both zeros consulting the same map. */
  method SlashZeros(cache: SlotCache, font: Font, ghost m: map<int, int>)
    requires font.Valid() && m == ConsultedMap(font.Current(), font.Count(), CachedEntry(cache, font))
    modifies font`subfonts, font`selection, cache`slotMaps
    ensures font.Valid() && OnlyGlyphs(font, old(font.subfonts), old(font.active))
    ensures font.Glyphs() == SlashZeroPass(old(font.Glyphs()), m)
  {
    if AlwaysOnSlashZero {
      SlashZeroAt(cache, font, 0x0030, m);
      SlashZeroAt(cache, font, 0xFF10, m);
    }
  }

  // ---------------------------------------------------------------------
  // remove_gsub_lookups_by_feature_tags and list_gsub_feature_tags
  // ---------------------------------------------------------------------

  /** REMOVE_GSUB_FEATURES: the same tags the baker bakes. */
  const RemoveGsubFeatures: set<string> := AlwaysTags

  /** A lookup the removal drops: it matches and removeLookup succeeds. */
  predicate Dropped(lk: Lookup, tags: set<string>)
  {
    Matches(lk, tags) && lk.removable
  }

  /** The lookups left after the removal, in their order. */
  function KeptLookups(lks: seq<Lookup>, tags: set<string>): seq<Lookup>
  {
    if lks == [] then []
    else KeptLookups(lks[..|lks| - 1], tags) + (if Dropped(lks[|lks| - 1], tags) then [] else [lks[|lks| - 1]])
  }

  /** The removal count: the successful removeLookup calls. */
  function RemovedCount(lks: seq<Lookup>, tags: set<string>): nat
  {
    if lks == [] then 0
    else RemovedCount(lks[..|lks| - 1], tags) + (if Dropped(lks[|lks| - 1], tags) then 1 else 0)
  }

  /** A lookup survives exactly when it was there and is not dropped; every
      lookup is either kept or counted, and a lookup whose tags miss the set
      (a raising getLookupInfo included) is always kept. */
  lemma {:induction false} KeptLookupsIff(lks: seq<Lookup>, tags: set<string>)
    ensures forall lk :: lk in KeptLookups(lks, tags) <==> lk in lks && !Dropped(lk, tags)
    ensures |KeptLookups(lks, tags)| + RemovedCount(lks, tags) == |lks|
    ensures forall lk | lk in lks && lk.tags.None? :: lk in KeptLookups(lks, tags)
  {
    if lks != [] {
      var init := lks[..|lks| - 1];
      KeptLookupsIff(init, tags);
      assert lks == init + [lks[|lks| - 1]];
    }
  }

  /** A second removal with the same tags keeps everything and counts no
      more: a dropped lookup is gone and a failed removal fails again. */
  lemma {:induction false} RemovalIdempotent(lks: seq<Lookup>, tags: set<string>)
    ensures KeptLookups(KeptLookups(lks, tags), tags) == KeptLookups(lks, tags)
    ensures RemovedCount(KeptLookups(lks, tags), tags) == 0
  {
    if lks != [] {
      var init := lks[..|lks| - 1];
      var x := lks[|lks| - 1];
      RemovalIdempotent(init, tags);
      var ki := KeptLookups(init, tags);
      if Dropped(x, tags) {
        assert KeptLookups(lks, tags) == ki;
      } else {
        assert KeptLookups(lks, tags) == ki + [x];
        KeptSnoc(ki, x, tags);
      }
    }
  }

  lemma KeptSnoc(lks: seq<Lookup>, x: Lookup, tags: set<string>)
    ensures KeptLookups(lks + [x], tags) == KeptLookups(lks, tags) + (if Dropped(x, tags) then [] else [x])
    ensures RemovedCount(lks + [x], tags) == RemovedCount(lks, tags) + (if Dropped(x, tags) then 1 else 0)
  {
    assert (lks + [x])[..|lks|] == lks;
  }

  /** One lookup of the removal loop: with the lookups before i already
      filtered, dropping lookup i (when it is dropped) filters one more. */
  lemma RemoveStep(lks: seq<Lookup>, i: nat, tags: set<string>, cur: seq<Lookup>)
    requires i < |lks| && cur == KeptLookups(lks[..i], tags) + lks[i..]
    ensures var k := |KeptLookups(lks[..i], tags)|;
            k < |cur| && cur[k] == lks[i] &&
            (if Dropped(lks[i], tags) then cur[..k] + cur[k + 1..] else cur) == KeptLookups(lks[..i + 1], tags) + lks[i + 1..] &&
            RemovedCount(lks[..i + 1], tags) == RemovedCount(lks[..i], tags) + (if Dropped(lks[i], tags) then 1 else 0)
  {
    assert lks[..i + 1] == lks[..i] + [lks[i]];
    KeptSnoc(lks[..i], lks[i], tags);
    var ki := KeptLookups(lks[..i], tags);
    assert lks[i..] == [lks[i]] + lks[i + 1..];
    if Dropped(lks[i], tags) {
      assert cur[..|ki|] == ki;
      assert cur[|ki| + 1..] == lks[i + 1..];
    }
  }

  /** One lookup of remove_gsub_lookups_by_feature_tags: lookup i is
      removed, and counted, when its tags meet the set and removeLookup
      succeeds. */
  method RemoveNext(font: Font, lks: seq<Lookup>, i: nat, removeTags: set<string>, removed0: nat) returns (removed: nat)
    requires i < |lks| && font.lookups == KeptLookups(lks[..i], removeTags) + lks[i..]
    requires removed0 == RemovedCount(lks[..i], removeTags)
    modifies font`lookups
    ensures font.lookups == KeptLookups(lks[..i + 1], removeTags) + lks[i + 1..]
    ensures removed == RemovedCount(lks[..i + 1], removeTags)
  {
    RemoveStep(lks, i, removeTags, font.lookups);
    removed := removed0;
    var tags := TagSet(lks[i]);
    var k := |KeptLookups(lks[..i], removeTags)|;
    if tags * removeTags != {} && lks[i].removable {
      assert Dropped(lks[i], removeTags);
      font.lookups := font.lookups[..k] + font.lookups[k + 1..];
      removed := removed + 1;
    } else {
      assert !Dropped(lks[i], removeTags);
    }
  }

  /** remove_gsub_lookups_by_feature_tags(font, remove_tags). */
  method RemoveGsubLookupsByFeatureTags(font: Font, removeTags: set<string>) returns (removed: nat)
    modifies font`lookups
    ensures font.lookups == KeptLookups(old(font.lookups), removeTags)
    ensures removed == RemovedCount(old(font.lookups), removeTags)
  {
    var lks := font.lookups;
    removed := 0;
    var i := 0;
    while i < |lks|
      invariant 0 <= i <= |lks|
      invariant font.lookups == KeptLookups(lks[..i], removeTags) + lks[i..]
      invariant removed == RemovedCount(lks[..i], removeTags)
    {
      removed := RemoveNext(font, lks, i, removeTags, removed);
      i := i + 1;
    }
    assert lks[..i] == lks;
  }

  /** Every feature tag of the font's GSUB lookups. */
  function AllTags(lks: seq<Lookup>): set<string>
  {
    if lks == [] then {} else AllTags(lks[..|lks| - 1]) + TagSet(lks[|lks| - 1])
  }

  /** A tag is listed exactly when some lookup reports it. */
  lemma {:induction false} AllTagsIff(lks: seq<Lookup>, t: string)
    ensures t in AllTags(lks) <==> exists k :: 0 <= k < |lks| && t in TagSet(lks[k])
  {
    if lks != [] {
      var init := lks[..|lks| - 1];
      AllTagsIff(init, t);
      if t in AllTags(init) {
        var k :| 0 <= k < |init| && t in TagSet(init[k]);
        assert lks[k] == init[k];
      }
      if exists k :: 0 <= k < |lks| && t in TagSet(lks[k]) {
        var k :| 0 <= k < |lks| && t in TagSet(lks[k]);
        if k < |init| {
          assert init[k] == lks[k];
        }
      }
    }
  }

  /** The removal finds something to drop only when the listing meets the
      tags: a removal with tags the listing misses keeps every lookup. */
  lemma {:induction false} ListingPredictsRemoval(lks: seq<Lookup>, tags: set<string>)
    ensures AllTags(lks) * tags == {} ==> KeptLookups(lks, tags) == lks && RemovedCount(lks, tags) == 0
  {
    if lks != [] {
      var init := lks[..|lks| - 1];
      ListingPredictsRemoval(init, tags);
      if AllTags(lks) * tags == {} {
        assert AllTags(init) * tags == {} by {
          assert AllTags(init) <= AllTags(lks);
        }
        assert TagSet(lks[|lks| - 1]) * tags == {} by {
          assert TagSet(lks[|lks| - 1]) <= AllTags(lks);
        }
        assert lks == init + [lks[|lks| - 1]];
      }
    }
  }

  /** list_gsub_feature_tags(font). */
  method ListGsubFeatureTags(font: Font) returns (tags: set<string>)
    ensures tags == AllTags(font.lookups)
  {
    var lks := font.lookups;
    tags := {};
    var i := 0;
    while i < |lks|
      invariant 0 <= i <= |lks| && tags == AllTags(lks[..i])
    {
      assert lks[..i + 1][..i] == lks[..i];
      tags := tags + TagSet(lks[i]);
      i := i + 1;
    }
    assert lks[..i] == lks;
  }
}
