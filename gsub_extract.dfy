/** The extraction half of load_feature_substitutions (features.py): from
    a parsed font's GSUB table, the (source, destination, tag) triples of
    the wanted feature tags, the tags present, the per-tag counts, and the
    glyph-order and cmap name indices. Parsing itself is not modelled: the
    parsed structures are inputs. */
module GsubExtract {
  import opened Wrappers

  /** One GSUB subtable as fontTools exposes it: its single-substitution
      mapping and its alternate sets, each None where reading the attribute
      raises. Dictionaries are in iteration order. */
  datatype SubTable = SubTable(mapping: Option<seq<(string, string)>>, alternates: Option<seq<(string, seq<string>)>>)

  datatype GsubLookup = GsubLookup(lookupType: int, subTables: seq<SubTable>)

  datatype FeatureRecord = FeatureRecord(featureTag: string, lookupListIndex: seq<nat>)

  /** A missing FeatureList or LookupList reads as an empty list. */
  datatype GsubTable = GsubTable(featureRecords: seq<FeatureRecord>, lookupList: seq<GsubLookup>)

  /** A parsed font: its GSUB table if it has one, its glyph order and its
      best cmap in iteration order, empty when reading it raises. */
  datatype TtFont = TtFont(gsub: Option<GsubTable>, glyphOrder: seq<string>, cmap: seq<(int, string)>)

  datatype Substitution = Substitution(src: string, dst: string, tag: string)

  /** The five results; the dictionaries keyed by tag are association
      lists in insertion order. */
  datatype Extraction = Extraction(
    subs: seq<Substitution>,
    presentTags: set<string>,
    perTagCounts: seq<(string, nat)>,
    nameToIdx: map<string, nat>,
    nameToUni: map<string, int>)

  // ---------------------------------------------------------------------
  // The name indices
  // ---------------------------------------------------------------------

  /** `{n: i for i, n in enumerate(glyph_order)}`: a repeated name keeps
      its last position. */
  function NameToIdx(order: seq<string>): map<string, nat>
  {
    if order == [] then map[]
    else NameToIdx(order[..|order| - 1])[order[|order| - 1] := |order| - 1]
  }

  /** Every name of the glyph order is indexed, at the last position
      carrying it, and nothing else is. */
  lemma {:induction false} NameToIdxIff(order: seq<string>, n: string)
    ensures n in NameToIdx(order) <==> n in order
    ensures n in NameToIdx(order) ==>
              var i := NameToIdx(order)[n];
              i < |order| && order[i] == n && forall j | i < j < |order| :: order[j] != n
  {
    if order != [] {
      var init := order[..|order| - 1];
      NameToIdxIff(init, n);
      assert order == init + [order[|order| - 1]];
    }
  }

  /** name_to_uni after `setdefault` over the first k cmap entries: the
      first codepoint mapped to a name wins. */
  function NameToUni(cmap: seq<(int, string)>): map<string, int>
  {
    if cmap == [] then map[]
    else
      var m := NameToUni(cmap[..|cmap| - 1]);
      var (u, g) := cmap[|cmap| - 1];
      if g in m then m else m[g := u]
  }

  /** The position of the first cmap entry naming g, if any. */
  function FirstNamed(cmap: seq<(int, string)>, g: string): (r: Option<nat>)
    ensures r.Some? ==> r.value < |cmap| && cmap[r.value].1 == g && forall j | 0 <= j < r.value :: cmap[j].1 != g
    ensures r.None? ==> forall j | 0 <= j < |cmap| :: cmap[j].1 != g
  {
    if cmap == [] then None
    else if cmap[0].1 == g then Some(0)
    else
      var r := FirstNamed(cmap[1..], g);
      assert forall j | 1 <= j < |cmap| :: cmap[j] == cmap[1..][j - 1];
      if r.Some? then Some(r.value + 1) else None
  }

  /** name_to_uni holds g exactly when some entry names it, and then maps
      it to the codepoint of the first such entry. */
  lemma {:induction false} NameToUniAt(cmap: seq<(int, string)>, g: string)
    ensures g in NameToUni(cmap) <==> FirstNamed(cmap, g).Some?
    ensures g in NameToUni(cmap) ==> NameToUni(cmap)[g] == cmap[FirstNamed(cmap, g).value].0
  {
    if cmap != [] {
      var init := cmap[..|cmap| - 1];
      NameToUniAt(init, g);
      var f := FirstNamed(cmap, g);
      var fi := FirstNamed(init, g);
      if fi.Some? {
        assert cmap[fi.value] == init[fi.value];
        forall j | 0 <= j < fi.value
          ensures cmap[j].1 != g
        {
          assert init[j] == cmap[j];
        }
        assert f == fi;
      } else {
        forall j | 0 <= j < |init|
          ensures cmap[j].1 != g
        {
          assert init[j] == cmap[j];
        }
        if cmap[|cmap| - 1].1 == g {
          assert f == Some(|cmap| - 1);
        } else {
          assert f.None?;
        }
      }
    }
  }

  /** A glyph name is indexed exactly when some cmap entry names it, and
      then by the first such entry's codepoint. */
  lemma NameToUniFirst(cmap: seq<(int, string)>, g: string)
    ensures g in NameToUni(cmap) <==> exists i :: 0 <= i < |cmap| && cmap[i].1 == g
    ensures g in NameToUni(cmap) ==>
              exists i :: 0 <= i < |cmap| && cmap[i].1 == g && NameToUni(cmap)[g] == cmap[i].0 &&
                          forall j | 0 <= j < i :: cmap[j].1 != g
  {
    NameToUniAt(cmap, g);
    var f := FirstNamed(cmap, g);
    if f.Some? {
      var i := f.value;
      assert 0 <= i < |cmap| && cmap[i].1 == g && NameToUni(cmap)[g] == cmap[i].0;
    }
  }

  /** The loop filling name_to_uni. */
  method BuildNameToUni(cmap: seq<(int, string)>) returns (m: map<string, int>)
    ensures m == NameToUni(cmap)
  {
    m := map[];
    var i := 0;
    while i < |cmap|
      invariant 0 <= i <= |cmap| && m == NameToUni(cmap[..i])
    {
      assert cmap[..i + 1][..i] == cmap[..i];
      var (u, g) := cmap[i];
      if g !in m {
        m := m[g := u];
      }
      i := i + 1;
    }
    assert cmap[..i] == cmap;
  }

  // ---------------------------------------------------------------------
  // tag_to_lookups
  // ---------------------------------------------------------------------

  /** The position of key t in an association list. */
  function KeyIndex<V>(entries: seq<(string, V)>, t: string): (r: Option<nat>)
    ensures r.Some? ==> r.value < |entries| && entries[r.value].0 == t
    ensures r.Some? ==> forall k | 0 <= k < r.value :: entries[k].0 != t
    ensures r.None? ==> forall k | 0 <= k < |entries| :: entries[k].0 != t
  {
    if entries == [] then None
    else if entries[0].0 == t then Some(0)
    else match KeyIndex(entries[1..], t)
      case None => None
      case Some(k) => Some(k + 1)
  }

  /** `tag_to_lookups.setdefault(tag, []).extend(lookups)`. */
  function Extend(acc: seq<(string, seq<nat>)>, tag: string, lks: seq<nat>): seq<(string, seq<nat>)>
  {
    match KeyIndex(acc, tag)
      case Some(k) => acc[k := (tag, acc[k].1 + lks)]
      case None => acc + [(tag, lks)]
  }

  /** tag_to_lookups over the feature records: the wanted tags in the order
      of their first record. */
  function TagToLookups(frs: seq<FeatureRecord>, targets: set<string>): seq<(string, seq<nat>)>
  {
    if frs == [] then []
    else
      var acc := TagToLookups(frs[..|frs| - 1], targets);
      var fr := frs[|frs| - 1];
      if fr.featureTag in targets then Extend(acc, fr.featureTag, fr.lookupListIndex) else acc
  }

  /** The lookup indices of every record with tag t, record by record. */
  function LookupsOfTag(frs: seq<FeatureRecord>, t: string): seq<nat>
  {
    if frs == [] then []
    else LookupsOfTag(frs[..|frs| - 1], t) + (if frs[|frs| - 1].featureTag == t then frs[|frs| - 1].lookupListIndex else [])
  }

  predicate DistinctKeys<V>(entries: seq<(string, V)>)
  {
    forall i, j | 0 <= i < j < |entries| :: entries[i].0 != entries[j].0
  }

  /** tag_to_lookups has no tag twice, and each tag's list is the
      concatenation of its records' lookup lists in record order. */
  lemma {:induction false} TagToLookupsShape(frs: seq<FeatureRecord>, targets: set<string>)
    ensures DistinctKeys(TagToLookups(frs, targets))
    ensures forall k | 0 <= k < |TagToLookups(frs, targets)| :: TagToLookups(frs, targets)[k].0 in targets
    ensures forall k | 0 <= k < |TagToLookups(frs, targets)| ::
              TagToLookups(frs, targets)[k].1 == LookupsOfTag(frs, TagToLookups(frs, targets)[k].0)
  {
    if frs != [] {
      var init := frs[..|frs| - 1];
      var fr := frs[|frs| - 1];
      TagToLookupsShape(init, targets);
      var acc := TagToLookups(init, targets);
      if fr.featureTag in targets {
        ExtendShape(acc, fr.featureTag, fr.lookupListIndex);
      }
      forall k | 0 <= k < |TagToLookups(frs, targets)|
        ensures TagToLookups(frs, targets)[k].1 == LookupsOfTag(frs, TagToLookups(frs, targets)[k].0)
      {
        var r := TagToLookups(frs, targets);
        var t := r[k].0;
        if fr.featureTag != t {
          assert LookupsOfTag(frs, t) == LookupsOfTag(init, t);
          if fr.featureTag in targets {
            assert k < |acc| && r[k] == acc[k];
          }
        } else {
          assert fr.featureTag in targets;
          assert LookupsOfTag(frs, t) == LookupsOfTag(init, t) + fr.lookupListIndex;
          var ka := KeyIndex(acc, t);
          if ka.Some? {
            assert k == ka.value;
          } else {
            TagToLookupsKeys(init, targets, t);
            NoRecordNoLookups(init, t);
            assert k == |acc|;
          }
        }
      }
    }
  }

  /** tag_to_lookups has an entry for t exactly when t is wanted and some
      record carries it. */
  lemma {:induction false} TagToLookupsKeys(frs: seq<FeatureRecord>, targets: set<string>, t: string)
    ensures KeyIndex(TagToLookups(frs, targets), t).Some? <==>
            t in targets && exists i :: 0 <= i < |frs| && frs[i].featureTag == t
  {
    if frs != [] {
      var init := frs[..|frs| - 1];
      var fr := frs[|frs| - 1];
      TagToLookupsKeys(init, targets, t);
      TagToLookupsShape(init, targets);
      var acc := TagToLookups(init, targets);
      if fr.featureTag in targets {
        ExtendShape(acc, fr.featureTag, fr.lookupListIndex);
      }
      if exists i :: 0 <= i < |frs| && frs[i].featureTag == t {
        var i :| 0 <= i < |frs| && frs[i].featureTag == t;
        if i < |init| {
          assert init[i] == frs[i];
        }
      }
      if exists i :: 0 <= i < |init| && init[i].featureTag == t {
        var i :| 0 <= i < |init| && init[i].featureTag == t;
        assert frs[i] == init[i];
      }
    }
  }

  /** Extend keeps keys distinct, adds key tag, and only extends tag's list. */
  lemma ExtendShape(acc: seq<(string, seq<nat>)>, tag: string, lks: seq<nat>)
    requires DistinctKeys(acc)
    ensures var r := Extend(acc, tag, lks);
            DistinctKeys(r) && KeyIndex(r, tag).Some? &&
            (forall t | t != tag :: KeyIndex(r, t) == KeyIndex(acc, t)) &&
            (forall k | 0 <= k < |acc| && acc[k].0 != tag :: r[k] == acc[k]) &&
            (KeyIndex(acc, tag).Some? ==> |r| == |acc| && r[KeyIndex(acc, tag).value] == (tag, acc[KeyIndex(acc, tag).value].1 + lks)) &&
            (KeyIndex(acc, tag).None? ==> r == acc + [(tag, lks)])
  {
    var r := Extend(acc, tag, lks);
    forall t | t != tag
      ensures KeyIndex(r, t) == KeyIndex(acc, t)
    {
      KeyIndexSameKeys(acc, r, t);
    }
    assert KeyIndex(r, tag).Some? by {
      KeyIndexSome(r, tag, if KeyIndex(acc, tag).Some? then KeyIndex(acc, tag).value else |acc|);
    }
  }

  lemma KeyIndexSome<V>(entries: seq<(string, V)>, t: string, k: nat)
    requires k < |entries| && entries[k].0 == t
    ensures KeyIndex(entries, t).Some?
  {
  }

  /** Two association lists with the same key at every shared position,
      and no key t beyond the shorter one, find t at the same position. */
  lemma {:induction false} KeyIndexSameKeys(acc: seq<(string, seq<nat>)>, r: seq<(string, seq<nat>)>, t: string)
    requires |acc| <= |r|
    requires forall k | 0 <= k < |acc| :: (acc[k].0 == t <==> r[k].0 == t)
    requires forall k | |acc| <= k < |r| :: r[k].0 != t
    ensures KeyIndex(r, t) == KeyIndex(acc, t)
  {
    if acc != [] && acc[0].0 != t {
      assert r[0].0 != t;
      assert forall k | 0 <= k < |acc| - 1 :: acc[1..][k] == acc[k + 1] && r[1..][k] == r[k + 1];
      assert forall k | |acc| - 1 <= k < |r| - 1 :: r[1..][k] == r[k + 1];
      KeyIndexSameKeys(acc[1..], r[1..], t);
    }
  }

  lemma {:induction false} NoRecordNoLookups(frs: seq<FeatureRecord>, t: string)
    requires forall i | 0 <= i < |frs| :: frs[i].featureTag != t
    ensures LookupsOfTag(frs, t) == []
  {
    if frs != [] {
      NoRecordNoLookups(frs[..|frs| - 1], t);
    }
  }

  /** The loop filling tag_to_lookups. */
  method BuildTagToLookups(frs: seq<FeatureRecord>, targets: set<string>) returns (acc: seq<(string, seq<nat>)>)
    ensures acc == TagToLookups(frs, targets)
  {
    acc := [];
    var i := 0;
    while i < |frs|
      invariant 0 <= i <= |frs| && acc == TagToLookups(frs[..i], targets)
    {
      assert frs[..i + 1][..i] == frs[..i];
      var tag := frs[i].featureTag;
      if tag in targets {
        var k := KeyIndex(acc, tag);
        if k.Some? {
          acc := acc[k.value := (tag, acc[k.value].1 + frs[i].lookupListIndex)];
        } else {
          acc := acc + [(tag, frs[i].lookupListIndex)];
        }
      }
      i := i + 1;
    }
    assert frs[..i] == frs;
  }

  // ---------------------------------------------------------------------
  // The substitutions
  // ---------------------------------------------------------------------

  /** A type-1 subtable: every (src, dst) pair of its mapping. */
  function MappingSubs(ps: seq<(string, string)>, tag: string): (r: seq<Substitution>)
    ensures |r| == |ps|
  {
    if ps == [] then []
    else MappingSubs(ps[..|ps| - 1], tag) + [Substitution(ps[|ps| - 1].0, ps[|ps| - 1].1, tag)]
  }

  /** A type-3 subtable: (src, first alternate) for every non-empty list. */
  function AlternateSubs(alts: seq<(string, seq<string>)>, tag: string): seq<Substitution>
  {
    if alts == [] then []
    else
      var (src, dsts) := alts[|alts| - 1];
      AlternateSubs(alts[..|alts| - 1], tag) + (if dsts != [] then [Substitution(src, dsts[0], tag)] else [])
  }

  /** One subtable of a lookup of type lt; a subtable whose attribute
      raises, and every lookup type other than 1 and 3, yield nothing. */
  function SubTableSubs(st: SubTable, lt: int, tag: string): seq<Substitution>
  {
    if lt == 1 then (if st.mapping.Some? then MappingSubs(st.mapping.value, tag) else [])
    else if lt == 3 then (if st.alternates.Some? then AlternateSubs(st.alternates.value, tag) else [])
    else []
  }

  function SubTablesSubs(sts: seq<SubTable>, lt: int, tag: string): seq<Substitution>
  {
    if sts == [] then [] else SubTablesSubs(sts[..|sts| - 1], lt, tag) + SubTableSubs(sts[|sts| - 1], lt, tag)
  }

  /** One lookup index of a tag; an index past the lookup list yields
      nothing. */
  function LookupSubs(lookups: seq<GsubLookup>, idx: nat, tag: string): seq<Substitution>
  {
    if idx >= |lookups| then [] else SubTablesSubs(lookups[idx].subTables, lookups[idx].lookupType, tag)
  }

  function IndicesSubs(lookups: seq<GsubLookup>, idxs: seq<nat>, tag: string): seq<Substitution>
  {
    if idxs == [] then [] else IndicesSubs(lookups, idxs[..|idxs| - 1], tag) + LookupSubs(lookups, idxs[|idxs| - 1], tag)
  }

  /** The substitutions of tag_to_lookups, tag by tag in its order. */
  function EntriesSubs(lookups: seq<GsubLookup>, entries: seq<(string, seq<nat>)>): seq<Substitution>
  {
    if entries == [] then []
    else EntriesSubs(lookups, entries[..|entries| - 1]) + IndicesSubs(lookups, entries[|entries| - 1].1, entries[|entries| - 1].0)
  }

  /** per_tag_counts: every tag of tag_to_lookups with its emitted count. */
  function EntryCounts(lookups: seq<GsubLookup>, entries: seq<(string, seq<nat>)>): (r: seq<(string, nat)>)
    ensures |r| == |entries| && forall k | 0 <= k < |r| :: r[k].0 == entries[k].0
  {
    if entries == [] then []
    else
      var (t, l) := entries[|entries| - 1];
      var init := entries[..|entries| - 1];
      var r := EntryCounts(lookups, init);
      assert forall k | 0 <= k < |r| :: r[k].0 == init[k].0 == entries[k].0;
      r + [(t, |IndicesSubs(lookups, l, t)|)]
  }

  /** The number of substitutions tagged t. */
  function CountTag(subs: seq<Substitution>, t: string): nat
  {
    if subs == [] then 0 else CountTag(subs[..|subs| - 1], t) + (if subs[|subs| - 1].tag == t then 1 else 0)
  }

  /** The tags of the feature records. */
  function PresentTags(frs: seq<FeatureRecord>): set<string>
  {
    set i | 0 <= i < |frs| :: frs[i].featureTag
  }

  /** load_feature_substitutions over a parsed font, None when opening it
      raised: subs, present tags, per-tag counts, name_to_idx, name_to_uni. */
  function ExtractionSpec(tt: Option<TtFont>, targets: set<string>): Extraction
  {
    if tt.None? || tt.value.gsub.None? then Extraction([], {}, [], map[], map[])
    else
      var g := tt.value.gsub.value;
      var entries := TagToLookups(g.featureRecords, targets);
      var idx := NameToIdx(tt.value.glyphOrder);
      var uni := NameToUni(tt.value.cmap);
      if entries == [] then Extraction([], PresentTags(g.featureRecords), [], idx, uni)
      else Extraction(EntriesSubs(g.lookupList, entries), PresentTags(g.featureRecords), EntryCounts(g.lookupList, entries), idx, uni)
  }

  // ---------------------------------------------------------------------
  // What the extraction promises
  // ---------------------------------------------------------------------

  /** A type-1 subtable yields exactly its pairs; a type-3 subtable yields
      (src, first alternate) exactly for its non-empty lists; a subtable
      whose attribute raises or of any other type yields nothing. Every
      result carries the tag. */
  lemma SubTableSubsIff(st: SubTable, lt: int, tag: string, x: Substitution)
    ensures x in SubTableSubs(st, lt, tag) <==>
              x.tag == tag &&
              ((lt == 1 && st.mapping.Some? && (x.src, x.dst) in st.mapping.value) ||
               (lt == 3 && st.alternates.Some? &&
                exists i :: 0 <= i < |st.alternates.value| && st.alternates.value[i].0 == x.src &&
                            st.alternates.value[i].1 != [] && st.alternates.value[i].1[0] == x.dst))
  {
    if lt == 1 && st.mapping.Some? {
      MappingSubsIff(st.mapping.value, tag, x);
    } else if lt == 3 && st.alternates.Some? {
      AlternateSubsIff(st.alternates.value, tag, x);
    }
  }

  lemma {:induction false} MappingSubsIff(ps: seq<(string, string)>, tag: string, x: Substitution)
    ensures x in MappingSubs(ps, tag) <==> x.tag == tag && (x.src, x.dst) in ps
  {
    if ps != [] {
      var init := ps[..|ps| - 1];
      MappingSubsIff(init, tag, x);
      assert ps == init + [ps[|ps| - 1]];
    }
  }

  lemma {:induction false} AlternateSubsIff(alts: seq<(string, seq<string>)>, tag: string, x: Substitution)
    ensures x in AlternateSubs(alts, tag) <==>
              x.tag == tag &&
              exists i :: 0 <= i < |alts| && alts[i].0 == x.src && alts[i].1 != [] && alts[i].1[0] == x.dst
  {
    if alts != [] {
      var init := alts[..|alts| - 1];
      AlternateSubsIff(init, tag, x);
      if exists i :: 0 <= i < |init| && init[i].0 == x.src && init[i].1 != [] && init[i].1[0] == x.dst {
        var i :| 0 <= i < |init| && init[i].0 == x.src && init[i].1 != [] && init[i].1[0] == x.dst;
        assert alts[i] == init[i];
      }
      if exists i :: 0 <= i < |alts| && alts[i].0 == x.src && alts[i].1 != [] && alts[i].1[0] == x.dst {
        var i :| 0 <= i < |alts| && alts[i].0 == x.src && alts[i].1 != [] && alts[i].1[0] == x.dst;
        if i < |init| {
          assert init[i] == alts[i];
        }
      }
    }
  }

  /** A lookup index yields exactly the substitutions of its subtables, and
      nothing when it lies past the lookup list. */
  lemma {:induction false} LookupSubsIff(lookups: seq<GsubLookup>, idx: nat, tag: string, x: Substitution)
    ensures x in LookupSubs(lookups, idx, tag) <==>
              idx < |lookups| &&
              exists j :: 0 <= j < |lookups[idx].subTables| &&
                          x in SubTableSubs(lookups[idx].subTables[j], lookups[idx].lookupType, tag)
  {
    if idx < |lookups| {
      SubTablesSubsIff(lookups[idx].subTables, lookups[idx].lookupType, tag, x);
    }
  }

  lemma SubTablesSubsIff(sts: seq<SubTable>, lt: int, tag: string, x: Substitution)
    ensures x in SubTablesSubs(sts, lt, tag) <==> exists j :: 0 <= j < |sts| && x in SubTableSubs(sts[j], lt, tag)
  {
    if x in SubTablesSubs(sts, lt, tag) {
      SubTablesSubsSound(sts, lt, tag, x);
    }
    if exists j :: 0 <= j < |sts| && x in SubTableSubs(sts[j], lt, tag) {
      var j :| 0 <= j < |sts| && x in SubTableSubs(sts[j], lt, tag);
      SubTablesSubsComplete(sts, lt, tag, x, j);
    }
  }

  lemma {:induction false} SubTablesSubsSound(sts: seq<SubTable>, lt: int, tag: string, x: Substitution)
    requires x in SubTablesSubs(sts, lt, tag)
    ensures exists j :: 0 <= j < |sts| && x in SubTableSubs(sts[j], lt, tag)
  {
    var init := sts[..|sts| - 1];
    if x in SubTablesSubs(init, lt, tag) {
      SubTablesSubsSound(init, lt, tag, x);
      var j :| 0 <= j < |init| && x in SubTableSubs(init[j], lt, tag);
      assert sts[j] == init[j];
    } else {
      assert x in SubTableSubs(sts[|sts| - 1], lt, tag);
    }
  }

  lemma {:induction false} SubTablesSubsComplete(sts: seq<SubTable>, lt: int, tag: string, x: Substitution, j: nat)
    requires j < |sts| && x in SubTableSubs(sts[j], lt, tag)
    ensures x in SubTablesSubs(sts, lt, tag)
  {
    var init := sts[..|sts| - 1];
    if j < |sts| - 1 {
      assert init[j] == sts[j];
      SubTablesSubsComplete(init, lt, tag, x, j);
    }
  }

  predicate AllTagged(subs: seq<Substitution>, t: string)
  {
    forall i | 0 <= i < |subs| :: subs[i].tag == t
  }

  lemma {:induction false} IndicesSubsTagged(lookups: seq<GsubLookup>, idxs: seq<nat>, t: string)
    ensures AllTagged(IndicesSubs(lookups, idxs, t), t)
  {
    if idxs != [] {
      IndicesSubsTagged(lookups, idxs[..|idxs| - 1], t);
      var idx := idxs[|idxs| - 1];
      forall x | x in LookupSubs(lookups, idx, t)
        ensures x.tag == t
      {
        LookupSubsIff(lookups, idx, t, x);
        var j :| 0 <= j < |lookups[idx].subTables| && x in SubTableSubs(lookups[idx].subTables[j], lookups[idx].lookupType, t);
        SubTableSubsIff(lookups[idx].subTables[j], lookups[idx].lookupType, t, x);
      }
    }
  }

  lemma {:induction false} CountTagConcat(a: seq<Substitution>, b: seq<Substitution>, t: string)
    ensures CountTag(a + b, t) == CountTag(a, t) + CountTag(b, t)
  {
    if b == [] {
      assert a + b == a;
    } else {
      CountTagConcat(a, b[..|b| - 1], t);
      assert (a + b)[..|a + b| - 1] == a + b[..|b| - 1];
    }
  }

  lemma {:induction false} CountTagAllTagged(subs: seq<Substitution>, u: string, t: string)
    requires AllTagged(subs, u)
    ensures CountTag(subs, t) == if u == t then |subs| else 0
  {
    if subs != [] {
      CountTagAllTagged(subs[..|subs| - 1], u, t);
    }
  }

  /** Appending an entry finds a key where the shorter list did, or else
      at the new entry. */
  lemma KeyIndexSnoc<V>(init: seq<(string, V)>, e: (string, V), t: string)
    ensures KeyIndex(init + [e], t) ==
            if KeyIndex(init, t).Some? then KeyIndex(init, t) else if e.0 == t then Some(|init|) else None
  {
    var entries := init + [e];
    assert forall k | 0 <= k < |init| :: entries[k] == init[k];
    if KeyIndex(init, t).Some? {
      KeyIndexSome(entries, t, KeyIndex(init, t).value);
    } else if e.0 == t {
      KeyIndexSome(entries, t, |init|);
    }
  }

  /** Over tag_to_lookups with distinct tags, the substitutions tagged t
      number what t's own lookups emit, and none when t has no entry. */
  lemma {:induction false} EntriesCount(lookups: seq<GsubLookup>, entries: seq<(string, seq<nat>)>, t: string)
    requires DistinctKeys(entries)
    ensures KeyIndex(entries, t).None? ==> CountTag(EntriesSubs(lookups, entries), t) == 0
    ensures KeyIndex(entries, t).Some? ==>
              CountTag(EntriesSubs(lookups, entries), t) == |IndicesSubs(lookups, entries[KeyIndex(entries, t).value].1, t)|
  {
    if entries != [] {
      var init := entries[..|entries| - 1];
      var (u, l) := entries[|entries| - 1];
      assert entries == init + [(u, l)];
      EntriesCount(lookups, init, t);
      CountTagConcat(EntriesSubs(lookups, init), IndicesSubs(lookups, l, u), t);
      IndicesSubsTagged(lookups, l, u);
      CountTagAllTagged(IndicesSubs(lookups, l, u), u, t);
      KeyIndexSnoc(init, (u, l), t);
      if u == t {
        assert KeyIndex(init, t).None?;
      }
    }
  }

  /** Every substitution carries the tag of one of the entries. */
  lemma {:induction false} EntriesSubsTags(lookups: seq<GsubLookup>, entries: seq<(string, seq<nat>)>, x: Substitution)
    requires x in EntriesSubs(lookups, entries)
    ensures KeyIndex(entries, x.tag).Some?
  {
    var init := entries[..|entries| - 1];
    var (u, l) := entries[|entries| - 1];
    if x in EntriesSubs(lookups, init) {
      EntriesSubsTags(lookups, init, x);
      KeyIndexSome(entries, x.tag, KeyIndex(init, x.tag).value);
    } else {
      IndicesSubsTagged(lookups, l, u);
      KeyIndexSome(entries, x.tag, |init|);
    }
  }

  /** The extraction's promises: a font that fails to open or has no GSUB
      yields nothing at all; every substitution has a wanted tag that some
      feature record carries; per_tag_counts lists each wanted present tag
      once, with the number of substitutions carrying it. */
  lemma ExtractionFacts(tt: Option<TtFont>, targets: set<string>)
    ensures var e := ExtractionSpec(tt, targets);
            (tt.None? || tt.value.gsub.None? ==> e == Extraction([], {}, [], map[], map[])) &&
            (forall x | x in e.subs :: x.tag in targets && x.tag in e.presentTags) &&
            DistinctKeys(e.perTagCounts) &&
            (forall k | 0 <= k < |e.perTagCounts| :: e.perTagCounts[k].1 == CountTag(e.subs, e.perTagCounts[k].0)) &&
            (forall t :: KeyIndex(e.perTagCounts, t).Some? <==> t in targets && t in e.presentTags)
  {
    if tt.Some? && tt.value.gsub.Some? {
      var g := tt.value.gsub.value;
      var entries := TagToLookups(g.featureRecords, targets);
      EntriesKeys(g.featureRecords, targets);
      if entries != [] {
        EntryCountsFacts(g.lookupList, entries);
      }
    }
  }

  /** The tag-to-lookups list has distinct keys, and a key for t exactly
      when t is a target tag some feature record carries. */
  lemma EntriesKeys(frs: seq<FeatureRecord>, targets: set<string>)
    ensures DistinctKeys(TagToLookups(frs, targets))
    ensures forall t :: KeyIndex(TagToLookups(frs, targets), t).Some? <==> t in targets && t in PresentTags(frs)
  {
    TagToLookupsShape(frs, targets);
    forall t
      ensures KeyIndex(TagToLookups(frs, targets), t).Some? <==> t in targets && t in PresentTags(frs)
    {
      TagToLookupsKeys(frs, targets, t);
      if t in PresentTags(frs) {
        var i :| 0 <= i < |frs| && frs[i].featureTag == t;
      }
    }
  }

  /** The per-tag counts have the keys of the entries, and each counts the
      substitutions the entries yield with that tag; every substitution's
      tag is a key. */
  lemma EntryCountsFacts(lookups: seq<GsubLookup>, entries: seq<(string, seq<nat>)>)
    requires DistinctKeys(entries)
    ensures var counts := EntryCounts(lookups, entries);
            DistinctKeys(counts) &&
            (forall t :: KeyIndex(counts, t) == KeyIndex(entries, t)) &&
            (forall x | x in EntriesSubs(lookups, entries) :: KeyIndex(entries, x.tag).Some?) &&
            (forall k | 0 <= k < |counts| :: counts[k].1 == CountTag(EntriesSubs(lookups, entries), counts[k].0))
  {
    var counts := EntryCounts(lookups, entries);
    forall t
      ensures KeyIndex(counts, t) == KeyIndex(entries, t)
    {
      KeyIndexSameKeysAny(entries, counts, t);
    }
    forall x | x in EntriesSubs(lookups, entries)
      ensures KeyIndex(entries, x.tag).Some?
    {
      EntriesSubsTags(lookups, entries, x);
    }
    forall k | 0 <= k < |counts|
      ensures counts[k].1 == CountTag(EntriesSubs(lookups, entries), counts[k].0)
    {
      EntryCountAt(lookups, entries, k);
    }
  }

  /** Entry k's count is the number of substitutions tagged with its key. */
  lemma EntryCountAt(lookups: seq<GsubLookup>, entries: seq<(string, seq<nat>)>, k: nat)
    requires DistinctKeys(entries) && k < |entries|
    ensures EntryCounts(lookups, entries)[k].1 == CountTag(EntriesSubs(lookups, entries), entries[k].0)
  {
    EntriesCount(lookups, entries, entries[k].0);
    EntryCountsAt(lookups, entries, k);
    assert KeyIndex(entries, entries[k].0) == Some(k);
  }

  lemma {:induction false} EntryCountsAt(lookups: seq<GsubLookup>, entries: seq<(string, seq<nat>)>, k: nat)
    requires k < |entries|
    ensures EntryCounts(lookups, entries)[k] == (entries[k].0, |IndicesSubs(lookups, entries[k].1, entries[k].0)|)
  {
    if k < |entries| - 1 {
      EntryCountsAt(lookups, entries[..|entries| - 1], k);
    }
  }

  /** Two association lists with the same keys in the same order find every
      key at the same position. */
  lemma KeyIndexSameKeysAny<V, W>(a: seq<(string, V)>, b: seq<(string, W)>, t: string)
    requires |a| == |b| && forall k | 0 <= k < |a| :: a[k].0 == b[k].0
    ensures KeyIndex(a, t) == KeyIndex(b, t)
  {
    if KeyIndex(a, t).Some? {
      KeyIndexSome(b, t, KeyIndex(a, t).value);
    } else if KeyIndex(b, t).Some? {
      KeyIndexSome(a, t, KeyIndex(b, t).value);
    }
  }

  // ---------------------------------------------------------------------
  // The loops
  // ---------------------------------------------------------------------

  method CollectMapping(ps: seq<(string, string)>, tag: string) returns (subs: seq<Substitution>)
    ensures subs == MappingSubs(ps, tag)
  {
    subs := [];
    var i := 0;
    while i < |ps|
      invariant 0 <= i <= |ps| && subs == MappingSubs(ps[..i], tag)
    {
      assert ps[..i + 1][..i] == ps[..i];
      subs := subs + [Substitution(ps[i].0, ps[i].1, tag)];
      i := i + 1;
    }
    assert ps[..i] == ps;
  }

  method CollectAlternates(alts: seq<(string, seq<string>)>, tag: string) returns (subs: seq<Substitution>)
    ensures subs == AlternateSubs(alts, tag)
  {
    subs := [];
    var i := 0;
    while i < |alts|
      invariant 0 <= i <= |alts| && subs == AlternateSubs(alts[..i], tag)
    {
      assert alts[..i + 1][..i] == alts[..i];
      var (src, dsts) := alts[i];
      if dsts != [] {
        subs := subs + [Substitution(src, dsts[0], tag)];
      }
      i := i + 1;
    }
    assert alts[..i] == alts;
  }

  /** The subtables of lookup idx, or nothing when idx is out of range. */
  method CollectLookup(lookups: seq<GsubLookup>, idx: nat, tag: string) returns (subs: seq<Substitution>)
    ensures subs == LookupSubs(lookups, idx, tag)
  {
    subs := [];
    if idx >= |lookups| {
      return;
    }
    var lk := lookups[idx];
    var sts := lk.subTables;
    var j := 0;
    while j < |sts|
      invariant 0 <= j <= |sts| && subs == SubTablesSubs(sts[..j], lk.lookupType, tag)
    {
      assert sts[..j + 1][..j] == sts[..j];
      var more: seq<Substitution> := [];
      if lk.lookupType == 1 {
        if sts[j].mapping.Some? {
          more := CollectMapping(sts[j].mapping.value, tag);
        }
      } else if lk.lookupType == 3 {
        if sts[j].alternates.Some? {
          more := CollectAlternates(sts[j].alternates.value, tag);
        }
      }
      subs := subs + more;
      j := j + 1;
    }
    assert sts[..j] == sts;
  }

  method CollectTag(lookups: seq<GsubLookup>, idxs: seq<nat>, tag: string) returns (subs: seq<Substitution>)
    ensures subs == IndicesSubs(lookups, idxs, tag)
  {
    subs := [];
    var i := 0;
    while i < |idxs|
      invariant 0 <= i <= |idxs| && subs == IndicesSubs(lookups, idxs[..i], tag)
    {
      assert idxs[..i + 1][..i] == idxs[..i];
      var more := CollectLookup(lookups, idxs[i], tag);
      subs := subs + more;
      i := i + 1;
    }
    assert idxs[..i] == idxs;
  }

  /** The tag loop: substitutions and per-tag counts together. */
  method CollectSubstitutions(lookups: seq<GsubLookup>, entries: seq<(string, seq<nat>)>)
    returns (subs: seq<Substitution>, counts: seq<(string, nat)>)
    ensures subs == EntriesSubs(lookups, entries) && counts == EntryCounts(lookups, entries)
  {
    subs, counts := [], [];
    var i := 0;
    while i < |entries|
      invariant 0 <= i <= |entries|
      invariant subs == EntriesSubs(lookups, entries[..i]) && counts == EntryCounts(lookups, entries[..i])
    {
      assert entries[..i + 1][..i] == entries[..i];
      var (tag, lks) := entries[i];
      var more := CollectTag(lookups, lks, tag);
      subs := subs + more;
      counts := counts + [(tag, |more|)];
      i := i + 1;
    }
    assert entries[..i] == entries;
  }

  /** load_feature_substitutions(tt_path, target_tags) after parsing. */
  method LoadFeatureSubstitutions(tt: Option<TtFont>, targets: set<string>) returns (e: Extraction)
    ensures e == ExtractionSpec(tt, targets)
  {
    if tt.None? || tt.value.gsub.None? {
      return Extraction([], {}, [], map[], map[]);
    }
    var g := tt.value.gsub.value;
    var present := PresentTags(g.featureRecords);
    var nameToIdx := NameToIdx(tt.value.glyphOrder);
    var nameToUni := BuildNameToUni(tt.value.cmap);
    var entries := BuildTagToLookups(g.featureRecords, targets);
    if entries == [] {
      return Extraction([], present, [], nameToIdx, nameToUni);
    }
    var subs, counts := CollectSubstitutions(g.lookupList, entries);
    e := Extraction(subs, present, counts, nameToIdx, nameToUni);
  }
}
