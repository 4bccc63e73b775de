/** Output naming (font_io.py): the PostScript-name sanitiser and the SFNT
    name records written on the output font. */
module FontIo {
  import opened Wrappers
  import opened FontData
  import opened FontModel

  /** OUT_FAMILY_NAME and OUT_VERSION_STR (config.py). */
  const OutFamilyName: string := "Yonhwa Magazine Sans"
  const OutVersionStr: string := "25w51e"
  const NameLanguage: string := "English (US)"

  /** A character the regex class [A-Za-z0-9-] admits. */
  predicate PsSafe(c: char)
  {
    ('A' <= c <= 'Z') || ('a' <= c <= 'z') || ('0' <= c <= '9') || c == '-'
  }

  predicate AllSafe(s: string)
  {
    forall i | 0 <= i < |s| :: PsSafe(s[i])
  }

  /** name.replace(" ", ""). */
  function RemoveSpaces(s: string): string
  {
    if s == [] then [] else (if s[0] == ' ' then [] else [s[0]]) + RemoveSpaces(s[1..])
  }

  /** re.sub(r"[^A-Za-z0-9-]", "", s). */
  function KeepSafe(s: string): string
  {
    if s == [] then [] else (if PsSafe(s[0]) then [s[0]] else []) + KeepSafe(s[1..])
  }

  /** ps_sanitize: spaces removed, then every character outside the class,
      and "Font" when nothing survives. */
  function PsSanitize(name: string): (r: string)
    ensures r != [] && AllSafe(r)
  {
    var s := KeepSafe(RemoveSpaces(name));
    KeepSafeAllSafe(RemoveSpaces(name));
    if s != [] then s else "Font"
  }

  lemma {:induction false} KeepSafeAllSafe(s: string)
    ensures AllSafe(KeepSafe(s))
  {
    if s != [] {
      KeepSafeAllSafe(s[1..]);
    }
  }

  /** The filters distribute over concatenation: order is kept. */
  lemma {:induction false} KeepSafeConcat(a: string, b: string)
    ensures KeepSafe(a + b) == KeepSafe(a) + KeepSafe(b)
  {
    if a != [] {
      assert (a + b)[0] == a[0] && (a + b)[1..] == a[1..] + b;
      KeepSafeConcat(a[1..], b);
    } else {
      assert a + b == b;
    }
  }

  lemma {:induction false} RemoveSpacesConcat(a: string, b: string)
    ensures RemoveSpaces(a + b) == RemoveSpaces(a) + RemoveSpaces(b)
  {
    if a != [] {
      assert (a + b)[0] == a[0] && (a + b)[1..] == a[1..] + b;
      RemoveSpacesConcat(a[1..], b);
    } else {
      assert a + b == b;
    }
  }

  /** Removing spaces first changes nothing: a space is outside the class. */
  lemma {:induction false} SpacesAreUnsafe(s: string)
    ensures KeepSafe(RemoveSpaces(s)) == KeepSafe(s)
  {
    if s != [] {
      SpacesAreUnsafe(s[1..]);
      KeepSafeConcat(if s[0] == ' ' then [] else [s[0]], RemoveSpaces(s[1..]));
    }
  }

  /** A string of admitted characters passes the filter unchanged. */
  lemma {:induction false} KeepSafeIdentity(s: string)
    requires AllSafe(s)
    ensures KeepSafe(s) == s
  {
    if s != [] {
      KeepSafeIdentity(s[1..]);
    }
  }

  /** The filter keeps exactly the admitted characters, each as often as
      the input has it. */
  lemma {:induction false} KeepSafeCounts(s: string, c: char)
    ensures multiset(KeepSafe(s))[c] == if PsSafe(c) then multiset(s)[c] else 0
  {
    if s != [] {
      KeepSafeCounts(s[1..], c);
      assert s == [s[0]] + s[1..];
    }
  }

  /** ps_sanitize is the input with every character outside [A-Za-z0-9-]
      removed, in order, or "Font" when that is empty. */
  lemma PsSanitizeIsFilter(name: string)
    ensures PsSanitize(name) == if KeepSafe(name) != [] then KeepSafe(name) else "Font"
    ensures forall a, b | name == a + b && KeepSafe(name) != [] ::
              PsSanitize(name) == KeepSafe(a) + KeepSafe(b)
  {
    SpacesAreUnsafe(name);
    forall a, b | name == a + b && KeepSafe(name) != []
      ensures PsSanitize(name) == KeepSafe(a) + KeepSafe(b)
    {
      KeepSafeConcat(a, b);
    }
  }

  /** ps_sanitize is idempotent. */
  lemma PsSanitizeIdempotent(name: string)
    ensures PsSanitize(PsSanitize(name)) == PsSanitize(name)
  {
    var r := PsSanitize(name);
    SpacesAreUnsafe(r);
    KeepSafeIdentity(r);
  }

  /** The naming fields read from the variant dictionary. */
  datatype Variant = Variant(outPsName: string, outStyleName: string, legacyStyleName: string)

  function VersionLabel(): string
  {
    "Version " + OutVersionStr
  }

  /** family + " " + style: the fullname and name ID 4. */
  function FullName(v: Variant): string
  {
    OutFamilyName + " " + v.outStyleName
  }

  /** The records set_names appends, in order. */
  function NameRecords(v: Variant): (r: seq<NameRecord>)
    ensures |r| == 8
  {
    var ps := PsSanitize(v.outPsName);
    [NameRecord(NameLanguage, 1, OutFamilyName),
     NameRecord(NameLanguage, 2, v.legacyStyleName),
     NameRecord(NameLanguage, 3, ps + ";" + VersionLabel()),
     NameRecord(NameLanguage, 4, FullName(v)),
     NameRecord(NameLanguage, 5, VersionLabel()),
     NameRecord(NameLanguage, 6, ps),
     NameRecord(NameLanguage, 16, OutFamilyName),
     NameRecord(NameLanguage, 17, v.outStyleName)]
  }

  /** The text of the first record with name ID id, if any. */
  function NameText(rs: seq<NameRecord>, id: nat): (r: Option<string>)
    ensures r.Some? <==> exists k | 0 <= k < |rs| :: rs[k].nameId == id
  {
    if rs == [] then None
    else if rs[0].nameId == id then Some(rs[0].text)
    else
      var t := NameText(rs[1..], id);
      assert forall k | 1 <= k < |rs| :: rs[k] == rs[1..][k - 1];
      t
  }

  /** A record whose ID no earlier record has is the one NameText finds. */
  lemma {:induction false} NameTextAt(rs: seq<NameRecord>, k: nat, id: nat)
    requires k < |rs| && rs[k].nameId == id && forall j | 0 <= j < k :: rs[j].nameId != id
    ensures NameText(rs, id) == Some(rs[k].text)
  {
    if k > 0 {
      NameTextAt(rs[1..], k - 1, id);
    }
  }

  function Ids(rs: seq<NameRecord>): (r: seq<nat>)
    ensures |r| == |rs| && forall k | 0 <= k < |rs| :: r[k] == rs[k].nameId
  {
    if rs == [] then [] else [rs[0].nameId] + Ids(rs[1..])
  }

  /** The name table set_names leaves holds IDs 1, 2, 3, 4, 5, 6, 16, 17
      once each and in that order, all in US English. */
  lemma NameRecordsIds(v: Variant)
    ensures var rs := NameRecords(v);
            Ids(rs) == [1, 2, 3, 4, 5, 6, 16, 17] &&
            (forall k | 0 <= k < |rs| :: rs[k].language == NameLanguage) &&
            NameText(rs, 7).None?
  {
    var rs := NameRecords(v);
    assert Ids(rs) == [1, 2, 3, 4, 5, 6, 16, 17];
  }

  /** The unique ID is the PostScript name joined to the version label by
      ';', and the version record is the version label. */
  lemma NameRecordsVersion(v: Variant)
    ensures var rs := NameRecords(v);
            NameText(rs, 3) == Some(PsSanitize(v.outPsName) + ";Version " + OutVersionStr) &&
            NameText(rs, 5) == Some("Version " + OutVersionStr)
  {
    var rs := NameRecords(v);
    NameTextAt(rs, 2, 3);
    NameTextAt(rs, 4, 5);
    assert PsSanitize(v.outPsName) + ";" + VersionLabel() == PsSanitize(v.outPsName) + ";Version " + OutVersionStr;
  }

  /** The PostScript-name record is the sanitised name, the same as the
      fontname field, and the full-name record is the same text as the
      fullname field. */
  lemma NameRecordsNames(v: Variant)
    ensures var rs := NameRecords(v);
            NameText(rs, 4) == Some(FullName(v)) &&
            NameText(rs, 6) == Some(PsSanitize(v.outPsName))
  {
    var rs := NameRecords(v);
    NameTextAt(rs, 3, 4);
    NameTextAt(rs, 5, 6);
  }

  /** The family records (IDs 1 and 16) name OUT_FAMILY_NAME; the style
      records are the legacy style (ID 2) and the output style (ID 17). */
  lemma NameRecordsFamily(v: Variant)
    ensures var rs := NameRecords(v);
            NameText(rs, 1) == Some(OutFamilyName) && NameText(rs, 16) == Some(OutFamilyName) &&
            NameText(rs, 2) == Some(v.legacyStyleName) && NameText(rs, 17) == Some(v.outStyleName)
  {
    var rs := NameRecords(v);
    NameTextAt(rs, 0, 1);
    NameTextAt(rs, 1, 2);
    NameTextAt(rs, 6, 16);
    NameTextAt(rs, 7, 17);
  }

  /** set_names(f, variant): the three name fields are assigned, and the
      SFNT names are cleared and refilled with the eight records. */
  method SetNames(font: Font, v: Variant)
    modifies font`familyName, font`fullName, font`fontName, font`sfntNames
    ensures font.familyName == OutFamilyName
    ensures font.fullName == FullName(v)
    ensures font.fontName == PsSanitize(v.outPsName)
    ensures font.sfntNames == NameRecords(v)
  {
    var outFontName := PsSanitize(v.outPsName);
    var versionLabel := "Version " + OutVersionStr;
    font.familyName := OutFamilyName;
    font.fullName := OutFamilyName + " " + v.outStyleName;
    font.fontName := outFontName;
    font.sfntNames := [];
    var uid := outFontName + ";" + versionLabel;
    font.sfntNames := font.sfntNames + [NameRecord(NameLanguage, 1, OutFamilyName)];
    font.sfntNames := font.sfntNames + [NameRecord(NameLanguage, 2, v.legacyStyleName)];
    font.sfntNames := font.sfntNames + [NameRecord(NameLanguage, 3, uid)];
    font.sfntNames := font.sfntNames + [NameRecord(NameLanguage, 4, OutFamilyName + " " + v.outStyleName)];
    font.sfntNames := font.sfntNames + [NameRecord(NameLanguage, 5, versionLabel)];
    font.sfntNames := font.sfntNames + [NameRecord(NameLanguage, 6, outFontName)];
    font.sfntNames := font.sfntNames + [NameRecord(NameLanguage, 16, OutFamilyName)];
    font.sfntNames := font.sfntNames + [NameRecord(NameLanguage, 17, v.outStyleName)];
  }
}
