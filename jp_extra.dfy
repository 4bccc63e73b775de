/** build_jp_extra_set: the whitelist of extra Japanese codepoints, built
    from an exact string plus every named codepoint of the enclosed CJK
    letters and CJK compatibility blocks (U+3200..U+33FF). The same code
    appears in src/unicode_ranges.py and unicode_ranges.py. Whether a
    codepoint has a Unicode character name is the predicate parameter `named`. */
module JpExtra {

  /** Python's str.isspace: the characters of bidirectional class WS, B or S,
      or of category Zs. */
  predicate IsSpace(c: char)
  {
    var n := c as int;
    (0x09 <= n <= 0x0D) || (0x1C <= n <= 0x20) || n == 0x85 || n == 0xA0 ||
    n == 0x1680 || (0x2000 <= n <= 0x200A) || n == 0x2028 || n == 0x2029 ||
    n == 0x202F || n == 0x205F || n == 0x3000
  }

  /** The `exact` comprehension: codepoints of the non-whitespace characters. */
  function ExactCodepoints(s: string): set<int>
  {
    set c | c in s && !IsSpace(c) :: c as int
  }

  /** The named codepoints of the half-open interval [lo, hi). */
  function NamedIn(lo: int, hi: int, named: int -> bool): set<int>
  {
    set v | lo <= v < hi && named(v)
  }

  lemma NamedInStep(lo: int, u: int, named: int -> bool)
    requires lo <= u
    ensures NamedIn(lo, u + 1, named) == NamedIn(lo, u, named) + (if named(u) then {u} else {})
  {
  }

  /** Builds the whitelist: the exact characters, then the named codepoints of
      U+3300..U+33FF and of U+3200..U+32FF, each scanned in ascending order. */
  method BuildJpExtraSet(exact: string, named: int -> bool) returns (r: set<int>)
    ensures r == ExactCodepoints(exact) + NamedIn(0x3200, 0x3400, named)
    ensures forall c | c in exact && !IsSpace(c) :: c as int in r
    ensures forall u | u in r ::
              (exists c | c in exact :: !IsSpace(c) && u == c as int) ||
              (0x3200 <= u <= 0x33FF && named(u))
  {
    var ex := set c | c in exact && !IsSpace(c) :: c as int;
    var similar: set<int> := {};
    var u := 0x3300;
    while u < 0x3400
      invariant 0x3300 <= u <= 0x3400
      invariant similar == NamedIn(0x3300, u, named)
    {
      NamedInStep(0x3300, u, named);
      if named(u) {
        similar := similar + {u};
      }
      u := u + 1;
    }
    u := 0x3200;
    while u < 0x3300
      invariant 0x3200 <= u <= 0x3300
      invariant similar == NamedIn(0x3300, 0x3400, named) + NamedIn(0x3200, u, named)
    {
      NamedInStep(0x3200, u, named);
      if named(u) {
        similar := similar + {u};
      }
      u := u + 1;
    }
    assert NamedIn(0x3300, 0x3400, named) + NamedIn(0x3200, 0x3300, named)
        == NamedIn(0x3200, 0x3400, named);
    r := ex + similar;
  }
}
