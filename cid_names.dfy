/** Subfont naming and ranking for CID-keyed donors: the (index, name) list
    of get_cid_subfont_names, the name index of build_cid_name_index (a
    Python dict, kept here as an association list in insertion order), the
    pattern picker and the per-category preference of cid_preferred_indices
    in its three releases. */
module CidNames {
  import opened Wrappers
  import opened FontData
  import opened FontModel
  import opened Text
  import opened Ranges
  import opened UnicodeTables

  // ---------------------------------------------------------------------
  // get_cid_subfont_names
  // ---------------------------------------------------------------------

  /** The name reported for subfont i: a non-empty fontname, else the
      fullname (possibly empty), else "subfont#i" when reading the fullname
      raises. A fontname that raises counts as empty. */
  function DisplayName(sf: Subfont, i: nat): (n: string)
    ensures sf.fontname.Value? && sf.fontname.s != [] ==> n == sf.fontname.s
    ensures (sf.fontname.Raises? || sf.fontname.s == []) && sf.fullname.Value? ==> n == sf.fullname.s
    ensures (sf.fontname.Raises? || sf.fontname.s == []) && sf.fullname.Raises? ==> n == "subfont#" + NatToString(i)
  {
    if sf.fontname.Value? && sf.fontname.s != [] then sf.fontname.s
    else if sf.fullname.Value? then sf.fullname.s
    else "subfont#" + NatToString(i)
  }

  /** Visits every subfont in index order, reading each name with that
      subfont active, and puts the active subfont back afterwards. A flat
      font (count 0) yields nothing and is not touched. */
  method SubfontNames(font: Font) returns (out: seq<(nat, string)>)
    requires font.Valid()
    modifies font`active
    ensures font.Valid() && font.active == old(font.active)
    ensures |out| == font.Count()
    ensures forall i | 0 <= i < |out| :: out[i] == (i, DisplayName(font.subfonts[i], i))
  {
    out := [];
    if font.Count() <= 0 {
      return;
    }
    var saved := font.active;
    var i := 0;
    while i < font.Count()
      invariant font.Valid() && 0 <= i <= font.Count() && font.Count() == |font.subfonts|
      invariant |out| == i
      invariant forall k | 0 <= k < i :: out[k] == (k, DisplayName(font.subfonts[k], k))
    {
      var ok := font.SetActive(i);
      assert ok;
      out := out + [(i, DisplayName(font.Current(), i))];
      i := i + 1;
    }
    var restored := font.SetActive(saved);
    assert restored;
  }

  // ---------------------------------------------------------------------
  // build_cid_name_index: an insertion-ordered dict name -> index
  // ---------------------------------------------------------------------

  type NameIndex = seq<(string, int)>

  /** The names of an index, in dictionary order. */
  function Keys(idx: NameIndex): (ks: seq<string>)
    ensures |ks| == |idx| && forall k | 0 <= k < |idx| :: ks[k] == idx[k].0
  {
    if idx == [] then [] else [idx[0].0] + Keys(idx[1..])
  }

  predicate NoDuplicates<T(==)>(xs: seq<T>)
  {
    forall j, k | 0 <= j < k < |xs| :: xs[j] != xs[k]
  }

  /** `idx.get(n)`. */
  function Get(idx: NameIndex, n: string): (r: Option<int>)
    ensures r.None? <==> n !in Keys(idx)
  {
    if idx == [] then None
    else if idx[0].0 == n then Some(idx[0].1)
    else Get(idx[1..], n)
  }

  /** `idx[n] = i`: an existing name keeps its position and takes the new
      value; a new name goes at the end. */
  function Put(idx: NameIndex, n: string, i: int): NameIndex
  {
    if idx == [] then [(n, i)]
    else if idx[0].0 == n then [(n, i)] + idx[1..]
    else [idx[0]] + Put(idx[1..], n, i)
  }

  lemma {:induction false} PutEffect(idx: NameIndex, n: string, i: int)
    ensures forall m :: Get(Put(idx, n, i), m) == if m == n then Some(i) else Get(idx, m)
    ensures Keys(Put(idx, n, i)) == if n in Keys(idx) then Keys(idx) else Keys(idx) + [n]
    ensures NoDuplicates(Keys(idx)) ==> NoDuplicates(Keys(Put(idx, n, i)))
  {
    forall m {
      PutGet(idx, n, i, m);
    }
    PutKeys(idx, n, i);
  }

  lemma {:induction false} PutGet(idx: NameIndex, n: string, i: int, m: string)
    ensures Get(Put(idx, n, i), m) == if m == n then Some(i) else Get(idx, m)
  {
    if idx != [] && idx[0].0 != n {
      PutGet(idx[1..], n, i, m);
    }
  }

  lemma {:induction false} PutKeys(idx: NameIndex, n: string, i: int)
    ensures Keys(Put(idx, n, i)) == if n in Keys(idx) then Keys(idx) else Keys(idx) + [n]
  {
    if idx != [] && idx[0].0 != n {
      PutKeys(idx[1..], n, i);
      assert Keys(idx) == [idx[0].0] + Keys(idx[1..]);
      assert Keys(Put(idx, n, i)) == [idx[0].0] + Keys(Put(idx[1..], n, i));
    } else if idx != [] {
      assert Keys(Put(idx, n, i)) == [n] + Keys(idx[1..]);
      assert Keys(idx) == [n] + Keys(idx[1..]);
    }
  }

  /** The dict built by storing the entries in list order. */
  function IndexOf(names: seq<(nat, string)>): NameIndex
  {
    if names == [] then []
    else Put(IndexOf(names[..|names| - 1]), names[|names| - 1].1, names[|names| - 1].0)
  }

  /** The index of the last entry called n, if any. */
  function LastWithName(names: seq<(nat, string)>, n: string): (r: Option<nat>)
    ensures r.Some? ==> exists k | 0 <= k < |names| ::
                          (names[k] == (r.value, n) && forall j | k < j < |names| :: names[j].1 != n)
    ensures r.None? ==> forall k | 0 <= k < |names| :: names[k].1 != n
  {
    if names == [] then None
    else if names[|names| - 1].1 == n then Some(names[|names| - 1].0)
    else LastWithName(names[..|names| - 1], n)
  }

  /** A later subfont with a duplicate name overwrites the earlier index;
      names are never repeated in the index. */
  lemma {:induction false} IndexOfLastWins(names: seq<(nat, string)>, n: string)
    ensures Get(IndexOf(names), n) == match LastWithName(names, n)
                                        case None => None
                                        case Some(i) => Some(i as int)
    ensures NoDuplicates(Keys(IndexOf(names)))
  {
    if names != [] {
      var init := names[..|names| - 1];
      IndexOfLastWins(init, n);
      PutEffect(IndexOf(init), names[|names| - 1].1, names[|names| - 1].0);
    }
  }

  /** The dict of build_cid_name_index, filled from SubfontNames. */
  method BuildCidNameIndex(font: Font) returns (idx: NameIndex)
    requires font.Valid()
    modifies font`active
    ensures font.Valid() && font.active == old(font.active)
    ensures exists names: seq<(nat, string)> ::
              |names| == font.Count() &&
              (forall i | 0 <= i < |names| :: names[i] == (i, DisplayName(font.subfonts[i], i))) &&
              idx == IndexOf(names)
  {
    var names := SubfontNames(font);
    idx := [];
    var i := 0;
    while i < |names|
      invariant 0 <= i <= |names|
      invariant idx == IndexOf(names[..i])
    {
      assert names[..i + 1][..i] == names[..i];
      idx := Put(idx, names[i].1, names[i].0);
      i := i + 1;
    }
    assert names[..i] == names;
  }

  // ---------------------------------------------------------------------
  // pick_cid_indices_by_patterns
  // ---------------------------------------------------------------------

  /** The indices whose names contain pat, in dictionary order. */
  function HitsOne(idx: NameIndex, pat: string): seq<int>
  {
    if idx == [] then []
    else HitsOne(idx[..|idx| - 1], pat) + (if Contains(idx[|idx| - 1].0, pat) then [idx[|idx| - 1].1] else [])
  }

  /** The unfiltered `out` list: pattern by pattern, the hits of each. */
  function Hits(idx: NameIndex, pats: seq<string>): seq<int>
  {
    if pats == [] then [] else Hits(idx, pats[..|pats| - 1]) + HitsOne(idx, pats[|pats| - 1])
  }

  /** Keeps the first occurrence of each element, in order. */
  function Dedup(xs: seq<int>): seq<int>
  {
    if xs == [] then []
    else
      var d := Dedup(xs[..|xs| - 1]);
      if xs[|xs| - 1] in d then d else d + [xs[|xs| - 1]]
  }

  lemma {:induction false} DedupFacts(xs: seq<int>)
    ensures NoDuplicates(Dedup(xs))
    ensures forall x :: x in Dedup(xs) <==> x in xs
  {
    if xs != [] {
      DedupFacts(xs[..|xs| - 1]);
      assert xs == xs[..|xs| - 1] + [xs[|xs| - 1]];
    }
  }

  lemma {:induction false} HitsOneMembers(idx: NameIndex, pat: string, i: int)
    ensures i in HitsOne(idx, pat) <==> exists k | 0 <= k < |idx| :: idx[k].1 == i && Contains(idx[k].0, pat)
  {
    if idx != [] {
      var init := idx[..|idx| - 1];
      HitsOneMembers(init, pat, i);
      assert forall k | 0 <= k < |init| :: init[k] == idx[k];
    }
  }

  lemma {:induction false} HitsMembers(idx: NameIndex, pats: seq<string>, i: int)
    ensures i in Hits(idx, pats) <==>
            exists p, k | 0 <= p < |pats| && 0 <= k < |idx| :: idx[k].1 == i && Contains(idx[k].0, pats[p])
  {
    if pats != [] {
      var init := pats[..|pats| - 1];
      var last := |pats| - 1;
      HitsMembers(idx, init, i);
      HitsOneMembers(idx, pats[last], i);
      if i in Hits(idx, init) {
        var p, k :| 0 <= p < |init| && 0 <= k < |idx| && idx[k].1 == i && Contains(idx[k].0, init[p]);
        assert init[p] == pats[p];
      }
      if exists p, k | 0 <= p < |pats| && 0 <= k < |idx| :: idx[k].1 == i && Contains(idx[k].0, pats[p]) {
        var p, k :| 0 <= p < |pats| && 0 <= k < |idx| && idx[k].1 == i && Contains(idx[k].0, pats[p]);
        if p < last {
          assert init[p] == pats[p];
        }
      }
    }
  }

  /** The picker's answer: no duplicates, and i appears exactly when some
      name stored under i contains some pattern. */
  lemma PickedMembers(idx: NameIndex, pats: seq<string>, i: int)
    ensures NoDuplicates(Dedup(Hits(idx, pats)))
    ensures i in Dedup(Hits(idx, pats)) <==>
            exists p, k | 0 <= p < |pats| && 0 <= k < |idx| :: idx[k].1 == i && Contains(idx[k].0, pats[p])
  {
    DedupFacts(Hits(idx, pats));
    HitsMembers(idx, pats, i);
  }

  /** The inner loop: the names of the index visited in order. */
  method HitsOfPattern(idx: NameIndex, pat: string) returns (hs: seq<int>)
    ensures hs == HitsOne(idx, pat)
  {
    hs := [];
    var k := 0;
    while k < |idx|
      invariant 0 <= k <= |idx|
      invariant hs == HitsOne(idx[..k], pat)
    {
      assert idx[..k + 1][..k] == idx[..k];
      if Contains(idx[k].0, pat) {
        hs := hs + [idx[k].1];
      }
      k := k + 1;
    }
    assert idx[..k] == idx;
  }

  /** The de-duplicating pass with a `seen` set. */
  method DedupInOrder(out: seq<int>) returns (uniq: seq<int>)
    ensures uniq == Dedup(out)
  {
    var seen: set<int> := {};
    uniq := [];
    var i := 0;
    while i < |out|
      invariant 0 <= i <= |out|
      invariant uniq == Dedup(out[..i])
      invariant forall x :: x in seen <==> x in uniq
    {
      assert out[..i + 1][..i] == out[..i] && out[..i + 1][i] == out[i];
      assert Dedup(out[..i + 1]) == if out[i] in uniq then uniq else uniq + [out[i]];
      if out[i] !in seen {
        uniq := uniq + [out[i]];
        seen := seen + {out[i]};
      }
      i := i + 1;
    }
    assert out[..i] == out;
  }

  /** The accumulation loops pattern by pattern, then the de-duplication. */
  method PickByPatterns(idx: NameIndex, pats: seq<string>) returns (uniq: seq<int>)
    ensures uniq == Dedup(Hits(idx, pats))
  {
    var out: seq<int> := [];
    var p := 0;
    while p < |pats|
      invariant 0 <= p <= |pats|
      invariant out == Hits(idx, pats[..p])
    {
      assert pats[..p + 1][..p] == pats[..p];
      var hs := HitsOfPattern(idx, pats[p]);
      out := out + hs;
      p := p + 1;
    }
    assert pats[..p] == pats;
    uniq := DedupInOrder(out);
  }

  // ---------------------------------------------------------------------
  // cid_preferred_indices
  // ---------------------------------------------------------------------

  /** The three copies of the resolver: build.py (Monolith), cid.py (Split)
      and src/cid.py (Packaged). The first two read the BMP-only tables. */
  datatype Release = Monolith | Split | Packaged

  function TablesOf(rel: Release): RangeTables
  {
    if rel == Packaged then Current else Legacy
  }

  function IdeographPatterns(rel: Release): seq<string>
  {
    if rel == Monolith then ["Ideographs", "ProportionalCJK", "HWidthCJK", "Generic"]
    else ["Ideographs", "ProportionalCJK"]
  }

  /** The pattern list for u's category: halfwidth block, then kana, then
      CJK ideographs, then everything else. */
  function PreferredPatterns(rel: Release, u: int): seq<string>
  {
    if 0xFF65 <= u <= 0xFF9F then ["HWidth", "HKana", "Kana", "Generic"]
    else if InAny(u, TablesOf(rel).kana) then ["HKana", "Kana", "VKana", "Generic"]
    else if InAny(u, TablesOf(rel).cjk) then IdeographPatterns(rel)
    else ["Generic"]
  }

  /** (preferred indices, only_preferred). */
  function PreferredIndices(rel: Release, idx: NameIndex, u: int): (r: (seq<int>, bool))
    ensures !r.1
    ensures NoDuplicates(r.0)
    ensures forall i :: i in r.0 <==>
              exists p, k | 0 <= p < |PreferredPatterns(rel, u)| && 0 <= k < |idx| ::
                idx[k].1 == i && Contains(idx[k].0, PreferredPatterns(rel, u)[p])
  {
    var pats := PreferredPatterns(rel, u);
    forall i ensures i in Dedup(Hits(idx, pats)) <==>
              exists p, k | 0 <= p < |pats| && 0 <= k < |idx| :: idx[k].1 == i && Contains(idx[k].0, pats[p])
    {
      PickedMembers(idx, pats, i);
    }
    DedupFacts(Hits(idx, pats));
    (Dedup(Hits(idx, pats)), false)
  }

  /** Ideographs: build.py falls back to "HWidthCJK" and "Generic" subfonts
      in its preferred list; the two later releases rank only "Ideographs"
      and "ProportionalCJK", leaving the rest to the fallback scan. */
  lemma IdeographRanking(rel: Release, u: int)
    requires InAny(u, TablesOf(rel).cjk)
    ensures rel == Monolith ==> PreferredPatterns(rel, u) == ["Ideographs", "ProportionalCJK", "HWidthCJK", "Generic"]
    ensures rel != Monolith ==> PreferredPatterns(rel, u) == ["Ideographs", "ProportionalCJK"]
  {
    KanaCjkDisjoint(TablesOf(rel), u);
  }

  /** No codepoint is both kana and a CJK ideograph, under either table set:
      the kana sit below U+3200, in U+FF65..U+FF9F or in U+1B000..U+1B16F,
      the ideographs in U+3400..U+FAFF or from U+20000 on. */
  lemma KanaCjkDisjoint(t: RangeTables, u: int)
    requires t == Current || t == Legacy
    requires InAny(u, t.cjk)
    ensures !InAny(u, t.kana) && !(0xFF65 <= u <= 0xFF9F)
  {
    InAnyIff(u, t.cjk);
    InAnyIff(u, t.kana);
    assert forall k | 0 <= k < |t.cjk| ::
      (0x3400 <= t.cjk[k].0 && t.cjk[k].1 <= 0xFAFF) || 0x20000 <= t.cjk[k].0;
    assert forall j | 0 <= j < |t.kana| ::
      t.kana[j].1 <= 0x31FF || (0xFF65 <= t.kana[j].0 && t.kana[j].1 <= 0x1B16F);
  }
}
