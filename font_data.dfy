/** The stock optional value. */
module Wrappers {
  datatype Option<+T> = None | Some(value: T)
}

/** Values the font engine exposes: glyph records, subfonts, lookups and
    name records. Outlines are uninterpreted tokens with the transforms applied to
    them recorded in order. */
module FontData {
  import opened Wrappers
  import opened Text

  /** An affine transform applied to an outline (psMat.scale / psMat.translate). */
  datatype Op = Scale(sx: real, sy: real) | Translate(dx: real, dy: real)

  /** A glyph outline: empty after clear(), otherwise an uninterpreted drawing with
      the transforms applied since it was pasted. */
  datatype Outline = Empty | Drawn(token: nat, ops: seq<Op>)

  function Transformed(o: Outline, op: Op): (r: Outline)
    ensures o.Empty? ==> r.Empty?
    ensures o.Drawn? ==> r.Drawn? && r.token == o.token && r.ops == o.ops + [op]
  {
    match o
    case Empty => Empty
    case Drawn(t, ops) => Drawn(t, ops + [op])
  }

  /** A glyph record. `unicode` is -1 when unmapped; `altuni` lists the
      alternate codepoints (the empty list stands for None); `drawable` is
      FontForge's isWorthOutputting(); `anchors` records whether anchor points
      are attached. */
  datatype Glyph = Glyph(
    name: string,
    encoding: int,
    unicode: int,
    altuni: seq<int>,
    width: int,
    outline: Outline,
    drawable: bool,
    anchors: bool)

  /** A font attribute read that either yields a value or raises. */
  datatype Attribute = Value(s: string) | Raises

  /** One slot space: the whole glyph set of a flat font, or one subfont of a
      CID-keyed font. `encmap` is the engine's own codepoint-to-slot table,
      the one findEncodingSlot consults. */
  datatype Subfont = Subfont(
    fontname: Attribute,
    fullname: Attribute,
    glyphs: seq<Glyph>,
    encmap: map<int, int>)

  /** An in-memory GSUB lookup: its feature tags (None when getLookupInfo
      raises), the coverage of each subtable as a source-name to target-name
      list in dictionary order (None when the coverage is not a dictionary),
      and whether removeLookup succeeds on it. */
  datatype Lookup = Lookup(
    name: string,
    tags: Option<seq<string>>,
    coverage: seq<Option<seq<(string, string)>>>,
    removable: bool)

  /** An SFNT name-table record. */
  datatype NameRecord = NameRecord(language: string, nameId: nat, text: string)

  /** A whole-font transform as recorded by the model: with or without the
      combined rounding and positioning-table adjustment. */
  datatype FontTransform = Combined(sx: real, sy: real) | Plain(sx: real, sy: real)

  function MapGet(m: map<int, int>, u: int): int
  {
    if u in m then m[u] else -1
  }

  /** `font[slot]`: the first glyph whose encoding is `slot`, if any. */
  function SlotIndex(gs: seq<Glyph>, slot: int): (r: Option<nat>)
    ensures r.Some? ==> r.value < |gs| && gs[r.value].encoding == slot
    ensures r.Some? ==> forall k :: 0 <= k < r.value ==> gs[k].encoding != slot
    ensures r.None? ==> forall k :: 0 <= k < |gs| ==> gs[k].encoding != slot
  {
    if gs == [] then None
    else if gs[0].encoding == slot then Some(0)
    else match SlotIndex(gs[1..], slot)
      case None => None
      case Some(k) => Some(k + 1)
  }

  /** `font[name]`: the first glyph called `name`, if any. */
  function NamedIndex(gs: seq<Glyph>, name: string): (r: Option<nat>)
    ensures r.Some? ==> r.value < |gs| && gs[r.value].name == name
    ensures r.None? ==> forall k :: 0 <= k < |gs| ==> gs[k].name != name
  {
    if gs == [] then None
    else if gs[0].name == name then Some(0)
    else match NamedIndex(gs[1..], name)
      case None => None
      case Some(k) => Some(k + 1)
  }

  /** geometry.worth: a present glyph that is worth outputting. */
  predicate Worth(gs: seq<Glyph>, k: Option<nat>)
  {
    k.Some? && k.value < |gs| && gs[k.value].drawable
  }

  /** glyph.clear(): the outline is emptied and the glyph no longer draws. */
  function Cleared(g: Glyph): Glyph
  {
    g.(outline := Empty, drawable := false)
  }

  /** One past every slot in use (0 for an empty glyph set). */
  function FreshSlot(gs: seq<Glyph>): (e: int)
    ensures e >= 0 && forall k | 0 <= k < |gs| :: gs[k].encoding < e
  {
    if gs == [] then 0
    else
      var rest := FreshSlot(gs[1..]);
      assert forall k | 1 <= k < |gs| :: gs[k] == gs[1..][k - 1];
      if gs[0].encoding + 1 > rest then gs[0].encoding + 1 else rest
  }

  /** The name FontForge gives a glyph it creates for a codepoint: "uniXXXX"
      in the Basic Multilingual Plane, "uXXXXX" beyond it, and a placeholder
      for a negative codepoint. Never empty. */
  function DefaultName(u: int): (r: string)
    ensures r != []
    ensures 0 <= u < 0x10000 ==> |r| == 7 && r[..3] == "uni" && AllHex(r[3..]) && HexValue(r[3..]) == u
    ensures u >= 0x10000 ==> |r| >= 6 && r[..1] == "u" && AllHex(r[1..]) && HexValue(r[1..]) == u
  {
    if u < 0 then "NameMe"
    else
      HexRoundTrip(u, 4);
      if u < 0x10000 then
        HexWidth(u, 4);
        var r := "uni" + Hex(u, 4);
        assert r[3..] == Hex(u, 4);
        r
      else
        HexWidth(u, 4);
        var r := "u" + Hex(u, 4);
        assert r[1..] == Hex(u, 4);
        r
  }

  /** The glyph createChar adds for a codepoint the slot space lacks: the
      default name, no outline, nothing to draw, width 0. */
  function NewGlyph(slot: int, u: int): Glyph
  {
    Glyph(DefaultName(u), slot, u, [], 0, Empty, false, false)
  }

  /** font.createChar(u) on one slot space: the glyph the engine's table
      gives for u when there is one, else a new glyph in a fresh slot that
      the table then records. Returns the new slot space and the glyph's
      position. */
  function CreateCharIn(sf: Subfont, u: int): (r: (Subfont, nat))
    ensures r.1 < |r.0.glyphs|
    ensures r.0.fontname == sf.fontname && r.0.fullname == sf.fullname
    ensures r.1 < |sf.glyphs| ==> r.0 == sf
    ensures r.1 == |sf.glyphs| ==> var g := r.0.glyphs[r.1];
              g.name == DefaultName(u) && g.name != [] && g.unicode == u && !g.drawable && g.outline.Empty?
  {
    var slot := MapGet(sf.encmap, u);
    var k := if slot != -1 then SlotIndex(sf.glyphs, slot) else None;
    if k.Some? then (sf, k.value)
    else
      var e := FreshSlot(sf.glyphs);
      (sf.(glyphs := sf.glyphs + [NewGlyph(e, u)], encmap := sf.encmap[u := e]), |sf.glyphs|)
  }

  /** After createChar, the engine's table leads from u to the glyph it
      returned, and every glyph that was there before is still there. */
  lemma CreateCharFindable(sf: Subfont, u: int)
    ensures var (sf', k) := CreateCharIn(sf, u);
            MapGet(sf'.encmap, u) == sf'.glyphs[k].encoding &&
            SlotIndex(sf'.glyphs, sf'.glyphs[k].encoding) == Some(k) &&
            sf'.glyphs[..|sf.glyphs|] == sf.glyphs
  {
    var (sf', k) := CreateCharIn(sf, u);
    var slot := MapGet(sf.encmap, u);
    if !(slot != -1 && SlotIndex(sf.glyphs, slot).Some?) {
      var e := FreshSlot(sf.glyphs);
      assert sf'.glyphs[k].encoding == e;
      SlotIndexAppend(sf.glyphs, NewGlyph(e, u));
    }
  }

  lemma {:induction false} SlotIndexAppend(gs: seq<Glyph>, g: Glyph)
    requires forall k | 0 <= k < |gs| :: gs[k].encoding != g.encoding
    ensures SlotIndex(gs + [g], g.encoding) == Some(|gs|)
  {
    if gs != [] {
      assert (gs + [g])[1..] == gs[1..] + [g];
      SlotIndexAppend(gs[1..], g);
    }
  }
}
