/** The font handle: a sequence of slot spaces (one for a flat font, one per
    subfont for a CID-keyed font), the active subfont, the GSUB lookups, the
    selection and the naming fields. Everything the build changes in place. */
module FontModel {
  import opened FontData

  class Font {
    /** A handle-scoped identity that keys the per-font caches. */
    const handle: nat
    const cidKeyed: bool
    var subfonts: seq<Subfont>
    /** cidsubfont: which subfont the handle currently exposes. */
    var active: int
    var lookups: seq<Lookup>
    var selection: set<int>
    var transforms: seq<FontTransform>
    var familyName: string
    var fullName: string
    var fontName: string
    var sfntNames: seq<NameRecord>

    ghost predicate Valid()
      reads this
    {
      |subfonts| >= 1 && (!cidKeyed ==> |subfonts| == 1) && 0 <= active < |subfonts|
    }

    /** cidsubfontcnt: 0 for a flat font. */
    function Count(): nat
      reads this
    {
      if cidKeyed then |subfonts| else 0
    }

    function Current(): Subfont
      reads this
      requires Valid()
    {
      subfonts[active]
    }

    /** font.glyphs() of the active slot space. */
    function Glyphs(): seq<Glyph>
      reads this
      requires Valid()
    {
      subfonts[active].glyphs
    }

    constructor (handle: nat, cidKeyed: bool, subfonts: seq<Subfont>, lookups: seq<Lookup>)
      requires |subfonts| >= 1 && (!cidKeyed ==> |subfonts| == 1)
      ensures Valid()
      ensures this.handle == handle && this.cidKeyed == cidKeyed
      ensures this.subfonts == subfonts && this.lookups == lookups && active == 0
      ensures selection == {} && transforms == [] && sfntNames == []
    {
      this.handle := handle;
      this.cidKeyed := cidKeyed;
      this.subfonts := subfonts;
      this.lookups := lookups;
      active := 0;
      selection := {};
      transforms := [];
      familyName, fullName, fontName := "", "", "";
      sfntNames := [];
    }

    /** `font.cidsubfont = i`: raises unless i names one of the subfonts. */
    method SetActive(i: int) returns (ok: bool)
      requires Valid()
      modifies this`active
      ensures Valid()
      ensures ok <==> 0 <= i < Count()
      ensures active == if ok then i else old(active)
    {
      ok := 0 <= i < Count();
      if ok {
        active := i;
      }
    }

    /** Replaces glyph k of the active slot space; nothing else changes. */
    method PutGlyph(k: nat, g: Glyph)
      requires Valid() && k < |Glyphs()|
      modifies this`subfonts
      ensures Valid()
      ensures subfonts == old(subfonts[active := subfonts[active].(glyphs := Glyphs()[k := g])])
    {
      subfonts := subfonts[active := subfonts[active].(glyphs := Glyphs()[k := g])];
    }

    /** createChar(u) on the active slot space; returns the glyph's
        position. No other slot space changes. */
    method CreateChar(u: int) returns (k: nat)
      requires Valid()
      modifies this`subfonts
      ensures Valid() && k < |Glyphs()|
      ensures (Current(), k) == CreateCharIn(old(Current()), u)
      ensures subfonts == old(subfonts)[active := Current()]
    {
      var (sf, pos) := CreateCharIn(Current(), u);
      subfonts := subfonts[active := sf];
      k := pos;
    }
  }

  /** Only the glyphs of the active slot space differ from sfs; the
      active index and every other slot space are as they were. */
  ghost predicate OnlyGlyphs(font: Font, sfs: seq<Subfont>, active: int)
    reads font
  {
    0 <= active < |sfs| && font.active == active && |font.subfonts| == |sfs| && font.subfonts == sfs[active := sfs[active].(glyphs := font.subfonts[active].glyphs)]
  }
}
