/** apply_case_baseline_offsets (features.py): math symbols, brackets and
    dashes are shifted vertically by a percentage of the em, each glyph as
    often as a target codepoint leads find_slot to it. */
module CaseOffsets {
  import opened Wrappers
  import opened FontData
  import opened FontModel
  import opened CidSlots
  import opened Geometry
  import opened Features

  datatype Category = Math | Bracket | Dash

  /** The applied counts, one per category. */
  datatype Applied = Applied(math: nat, bracket: nat, dash: nat)

  function Get(a: Applied, c: Category): nat
  {
    match c
    case Math => a.math
    case Bracket => a.bracket
    case Dash => a.dash
  }

  function Incr(a: Applied, c: Category): (r: Applied)
    ensures forall d :: Get(r, d) == Get(a, d) + (if d == c then 1 else 0)
  {
    match c
    case Math => a.(math := a.math + 1)
    case Bracket => a.(bracket := a.bracket + 1)
    case Dash => a.(dash := a.dash + 1)
  }

  /** int(round((pct / 100.0) * base_upm)). */
  function Offset(pct: real, upm: int): int
  {
    RoundHalfEven((pct / 100.0) * upm as real)
  }

  // ---------------------------------------------------------------------
  // The targets dictionary
  // ---------------------------------------------------------------------

  /** A target: codepoint, vertical offset, category. */
  type Target = (int, (int, Category))

  function Find(ts: seq<Target>, u: int): (r: Option<nat>)
    ensures r.Some? ==> r.value < |ts| && ts[r.value].0 == u
    ensures r.None? ==> forall k | 0 <= k < |ts| :: ts[k].0 != u
  {
    if ts == [] then None
    else if ts[0].0 == u then Some(0)
    else match Find(ts[1..], u)
      case None => None
      case Some(k) => Some(k + 1)
  }

  /** `targets[u] = v`: a new key goes last, an existing one keeps its
      position and takes the new value. */
  function Put(ts: seq<Target>, u: int, v: (int, Category)): seq<Target>
  {
    match Find(ts, u)
      case Some(k) => ts[k := (u, v)]
      case None => ts + [(u, v)]
  }

  /** `for u in us: targets[u] = (dy, c)`. */
  function PutAll(ts: seq<Target>, us: seq<int>, dy: int, c: Category): seq<Target>
  {
    if us == [] then ts else Put(PutAll(ts, us[..|us| - 1], dy, c), us[|us| - 1], (dy, c))
  }

  /** The targets dictionary after the math loop. */
  function MathTargets(mo: int): seq<Target>
  {
    if mo != 0 then PutAll([], MathCaseCodepoints, mo, Math) else []
  }

  /** The targets dictionary after the bracket loop. */
  function BracketTargets(mo: int, bo: int): seq<Target>
  {
    var t1 := MathTargets(mo);
    if bo != 0 then PutAll(t1, BracketCaseCodepoints, bo, Bracket) else t1
  }

  /** The targets dictionary: math, then bracket, then dash, each only when
      its offset is nonzero; later categories overwrite earlier ones. */
  function Targets(mo: int, bo: int, dOff: int): seq<Target>
  {
    var t2 := BracketTargets(mo, bo);
    if dOff != 0 then PutAll(t2, DashCaseCodepoints, dOff, Dash) else t2
  }

  /** The number of targets of category c. */
  function CountCat(ts: seq<Target>, c: Category): nat
  {
    if ts == [] then 0 else CountCat(ts[..|ts| - 1], c) + (if ts[|ts| - 1].1.1 == c then 1 else 0)
  }

  predicate DistinctTargets(ts: seq<Target>)
  {
    forall i, j | 0 <= i < j < |ts| :: ts[i].0 != ts[j].0
  }

  lemma CountCatSnoc(ts: seq<Target>, e: Target, c: Category)
    ensures CountCat(ts + [e], c) == CountCat(ts, c) + (if e.1.1 == c then 1 else 0)
  {
    assert (ts + [e])[..|ts|] == ts;
  }

  lemma {:induction false} CountCatUpdate(ts: seq<Target>, k: nat, e: Target, c: Category)
    requires k < |ts|
    ensures CountCat(ts[k := e], c) == CountCat(ts, c) - (if ts[k].1.1 == c then 1 else 0) + (if e.1.1 == c then 1 else 0)
  {
    var init := ts[..|ts| - 1];
    if k < |ts| - 1 {
      CountCatUpdate(init, k, e, c);
      assert ts[k := e][..|ts| - 1] == init[k := e];
    } else {
      assert ts[k := e][..|ts| - 1] == init;
    }
  }

  /** Put keeps keys distinct, finds u at the value put, and keeps every
      other key's entry; it raises the count of v's category by at most
      one and lowers no other category's count by more than the entry it
      replaced. */
  lemma PutEffect(ts: seq<Target>, u: int, v: (int, Category))
    requires DistinctTargets(ts)
    ensures var r := Put(ts, u, v);
            DistinctTargets(r) && Find(r, u).Some? && r[Find(r, u).value] == (u, v) &&
            (forall w | w != u :: Find(r, w) == Find(ts, w) && (Find(ts, w).Some? ==> r[Find(ts, w).value] == ts[Find(ts, w).value])) &&
            (forall c | c != v.1 :: CountCat(r, c) <= CountCat(ts, c)) &&
            CountCat(r, v.1) <= CountCat(ts, v.1) + 1
  {
    var r := Put(ts, u, v);
    match Find(ts, u)
    case Some(k) =>
      forall c
        ensures CountCat(r, c) == CountCat(ts, c) - (if ts[k].1.1 == c then 1 else 0) + (if v.1 == c then 1 else 0)
      {
        CountCatUpdate(ts, k, (u, v), c);
      }
      forall w | w != u
        ensures Find(r, w) == Find(ts, w)
      {
        FindSameKeys(ts, r, w);
      }
      FindSome(r, u, k);
    case None =>
      forall c
        ensures CountCat(r, c) == CountCat(ts, c) + (if v.1 == c then 1 else 0)
      {
        CountCatSnoc(ts, (u, v), c);
      }
      forall w | w != u
        ensures Find(r, w) == Find(ts, w)
      {
        FindSameKeys(ts, r, w);
      }
      FindSome(r, u, |ts|);
  }

  lemma {:induction false} FindSome(ts: seq<Target>, u: int, k: nat)
    requires k < |ts| && ts[k].0 == u
    ensures Find(ts, u).Some? && Find(ts, u).value <= k
  {
    if ts[0].0 != u {
      FindSome(ts[1..], u, k - 1);
    }
  }

  lemma {:induction false} FindFirst(ts: seq<Target>, u: int)
    requires Find(ts, u).Some?
    ensures forall k | 0 <= k < Find(ts, u).value :: ts[k].0 != u
  {
    if ts[0].0 != u {
      FindFirst(ts[1..], u);
    }
  }

  /** Lists whose keys agree up to the shorter length, with no key w past
      it, find w at the same position. */
  lemma {:induction false} FindSameKeys(a: seq<Target>, b: seq<Target>, w: int)
    requires |a| <= |b|
    requires forall k | 0 <= k < |a| :: (a[k].0 == w <==> b[k].0 == w)
    requires forall k | |a| <= k < |b| :: b[k].0 != w
    ensures Find(b, w) == Find(a, w)
  {
    if a != [] && a[0].0 != w {
      assert b[0].0 != w;
      assert forall k | 0 <= k < |a| - 1 :: a[1..][k] == a[k + 1] && b[1..][k] == b[k + 1];
      assert forall k | |a| - 1 <= k < |b| - 1 :: b[1..][k] == b[k + 1];
      FindSameKeys(a[1..], b[1..], w);
    }
  }

  /** PutAll of category c over distinct keys: keys stay distinct, c's
      count grows by at most |us| and every other category's count does
      not grow. */
  lemma {:induction false} PutAllEffect(ts: seq<Target>, us: seq<int>, dy: int, c: Category)
    requires DistinctTargets(ts)
    ensures var r := PutAll(ts, us, dy, c);
            DistinctTargets(r) &&
            CountCat(r, c) <= CountCat(ts, c) + |us| &&
            (forall d | d != c :: CountCat(r, d) <= CountCat(ts, d))
  {
    if us != [] {
      PutAllEffect(ts, us[..|us| - 1], dy, c);
      PutEffect(PutAll(ts, us[..|us| - 1], dy, c), us[|us| - 1], (dy, c));
    }
  }

  /** Every codepoint PutAll puts ends with value (dy, c). */
  lemma {:induction false} PutAllHit(ts: seq<Target>, us: seq<int>, dy: int, c: Category, w: int)
    requires DistinctTargets(ts) && w in us
    ensures var r := PutAll(ts, us, dy, c);
            Find(r, w).Some? && r[Find(r, w).value].1 == (dy, c)
  {
    var init := us[..|us| - 1];
    var mid := PutAll(ts, init, dy, c);
    PutAllEffect(ts, init, dy, c);
    PutEffect(mid, us[|us| - 1], (dy, c));
    if w != us[|us| - 1] {
      assert w in init;
      PutAllHit(ts, init, dy, c, w);
    }
  }

  /** A codepoint PutAll does not put keeps its position and entry. */
  lemma {:induction false} PutAllOther(ts: seq<Target>, us: seq<int>, dy: int, c: Category, w: int)
    requires DistinctTargets(ts) && w !in us
    ensures var r := PutAll(ts, us, dy, c);
            Find(r, w) == Find(ts, w) && (Find(ts, w).Some? ==> r[Find(ts, w).value] == ts[Find(ts, w).value])
  {
    if us != [] {
      var init := us[..|us| - 1];
      assert w !in init;
      PutAllOther(ts, init, dy, c, w);
      PutAllEffect(ts, init, dy, c);
      PutEffect(PutAll(ts, init, dy, c), us[|us| - 1], (dy, c));
    }
  }

  // ---------------------------------------------------------------------
  // The shift loop
  // ---------------------------------------------------------------------

  /** One target: find_slot through map m; a missing slot or a glyph that
      does not draw is skipped; otherwise the glyph is moved up by dy and
      the category counts. */
  function ShiftStep(gs: seq<Glyph>, m: map<int, int>, t: Target): (r: (seq<Glyph>, Option<Category>))
    ensures |r.0| == |gs|
  {
    var (u, (dy, c)) := t;
    var slot := MapGet(m, u);
    var k := SlotIndex(gs, slot);
    if slot == -1 || k.None? || !gs[k.value].drawable then (gs, None)
    else (gs[k.value := gs[k.value].(outline := Transformed(gs[k.value].outline, Translate(0.0, dy as real)))], Some(c))
  }

  function ShiftAll(gs: seq<Glyph>, m: map<int, int>, ts: seq<Target>): (r: (seq<Glyph>, Applied))
    ensures |r.0| == |gs|
  {
    if ts == [] then (gs, Applied(0, 0, 0))
    else
      var (mid, a) := ShiftAll(gs, m, ts[..|ts| - 1]);
      var (out, hit) := ShiftStep(mid, m, ts[|ts| - 1]);
      (out, if hit.Some? then Incr(a, hit.value) else a)
  }

  /** apply_case_baseline_offsets on a slot space whose find_slot answers
      from m: nothing when all three percentages are zero. */
  function CaseOffsetsSpec(gs: seq<Glyph>, m: map<int, int>, upm: int, mp: real, bp: real, dp: real): (r: (seq<Glyph>, Applied))
    ensures |r.0| == |gs|
  {
    if mp == 0.0 && bp == 0.0 && dp == 0.0 then (gs, Applied(0, 0, 0))
    else ShiftAll(gs, m, Targets(Offset(mp, upm), Offset(bp, upm), Offset(dp, upm)))
  }

  /** A shift touches only the glyph find_slot names, only in its outline,
      and only by a vertical move of dy; each category counts no more than
      its targets. */
  lemma {:induction false} ShiftAllEffect(gs: seq<Glyph>, m: map<int, int>, ts: seq<Target>)
    ensures var r := ShiftAll(gs, m, ts);
            (forall c :: Get(r.1, c) <= CountCat(ts, c)) &&
            forall k | 0 <= k < |gs| ::
              r.0[k] == gs[k].(outline := r.0[k].outline) &&
              (gs[k].outline.Empty? ==> r.0[k].outline.Empty?) &&
              (gs[k].outline.Drawn? ==> r.0[k].outline.Drawn? && r.0[k].outline.token == gs[k].outline.token &&
                                        gs[k].outline.ops <= r.0[k].outline.ops &&
                                        forall j | |gs[k].outline.ops| <= j < |r.0[k].outline.ops| ::
                                          r.0[k].outline.ops[j].Translate? && r.0[k].outline.ops[j].dx == 0.0)
  {
    if ts != [] {
      var init := ts[..|ts| - 1];
      ShiftAllEffect(gs, m, init);
      var mid := ShiftAll(gs, m, init).0;
      var (u, (dy, c)) := ts[|ts| - 1];
      forall d
        ensures CountCat(ts, d) == CountCat(init, d) + (if c == d then 1 else 0)
      {
      }
    }
  }

  /** The glyph target t lands on: the one in the slot find_slot gives
      through m, when there is one and it draws. */
  function Landing(gs: seq<Glyph>, m: map<int, int>, t: Target): (r: Option<nat>)
    ensures r.Some? ==> r.value < |gs| && gs[r.value].drawable && gs[r.value].encoding == MapGet(m, t.0) != -1
    ensures r.None? ==> MapGet(m, t.0) == -1 || SlotIndex(gs, MapGet(m, t.0)).None? ||
                        !gs[SlotIndex(gs, MapGet(m, t.0)).value].drawable
  {
    var slot := MapGet(m, t.0);
    var k := SlotIndex(gs, slot);
    if slot == -1 || k.None? || !gs[k.value].drawable then None else k
  }

  /** The targets of category c that land on a glyph of gs. */
  function Hits(gs: seq<Glyph>, m: map<int, int>, ts: seq<Target>, c: Category): (r: nat)
    ensures r <= CountCat(ts, c)
  {
    if ts == [] then 0
    else
      Hits(gs, m, ts[..|ts| - 1], c) +
      (if ts[|ts| - 1].1.1 == c && Landing(gs, m, ts[|ts| - 1]).Some? then 1 else 0)
  }

  /** The moves glyph k receives: translate(0, dy) for each target that
      lands on it, in target order. */
  function MovesOf(gs: seq<Glyph>, m: map<int, int>, ts: seq<Target>, k: nat): (r: seq<Op>)
    ensures forall j | 0 <= j < |r| :: r[j].Translate? && r[j].dx == 0.0
  {
    if ts == [] then []
    else
      MovesOf(gs, m, ts[..|ts| - 1], k) +
      (if Landing(gs, m, ts[|ts| - 1]) == Some(k) then [Translate(0.0, ts[|ts| - 1].1.0 as real)] else [])
  }

  /** A target that lands on a glyph moves it up by the target's own dy and
      counts for its category; every other glyph is left alone. A target
      that does not land changes nothing and counts nothing. */
  lemma ShiftStepHit(gs: seq<Glyph>, m: map<int, int>, t: Target)
    ensures var r := ShiftStep(gs, m, t);
            (Landing(gs, m, t).None? ==> r == (gs, None)) &&
            (Landing(gs, m, t).Some? ==>
               var k := Landing(gs, m, t).value;
               r.1 == Some(t.1.1) &&
               r.0[k] == gs[k].(outline := Transformed(gs[k].outline, Translate(0.0, t.1.0 as real))) &&
               forall j | 0 <= j < |gs| && j != k :: r.0[j] == gs[j])
  {
  }

  /** The whole loop: each category counts exactly its targets that land
      on a drawable glyph, and each drawn glyph gains exactly the moves of
      the targets that land on it, in order; nothing but outlines changes. */
  lemma {:induction false} ShiftAllExact(gs: seq<Glyph>, m: map<int, int>, ts: seq<Target>)
    ensures var r := ShiftAll(gs, m, ts);
            (forall c :: Get(r.1, c) == Hits(gs, m, ts, c)) &&
            forall k | 0 <= k < |gs| ::
              r.0[k] == gs[k].(outline := r.0[k].outline) &&
              (gs[k].outline.Empty? ==> r.0[k].outline.Empty?) &&
              (gs[k].outline.Drawn? ==>
                 r.0[k].outline == Drawn(gs[k].outline.token, gs[k].outline.ops + MovesOf(gs, m, ts, k)))
  {
    if ts == [] {
      forall k | 0 <= k < |gs| && gs[k].outline.Drawn?
        ensures gs[k].outline == Drawn(gs[k].outline.token, gs[k].outline.ops + MovesOf(gs, m, ts, k))
      {
        assert gs[k].outline.ops + [] == gs[k].outline.ops;
      }
    } else {
      var init := ts[..|ts| - 1];
      var t := ts[|ts| - 1];
      ShiftAllExact(gs, m, init);
      var (mid, a) := ShiftAll(gs, m, init);
      assert SameKeys(gs, mid);
      SameKeysSlotIndex(gs, mid, MapGet(m, t.0));
      assert Landing(mid, m, t) == Landing(gs, m, t);
      ShiftStepHit(mid, m, t);
      forall k | 0 <= k < |gs| && gs[k].outline.Drawn?
        ensures ShiftAll(gs, m, ts).0[k].outline == Drawn(gs[k].outline.token, gs[k].outline.ops + MovesOf(gs, m, ts, k))
      {
        if Landing(gs, m, t) == Some(k) {
          assert gs[k].outline.ops + MovesOf(gs, m, ts, k) ==
                 (gs[k].outline.ops + MovesOf(gs, m, init, k)) + [Translate(0.0, t.1.0 as real)];
        } else {
          assert MovesOf(gs, m, ts, k) == MovesOf(gs, m, init, k);
        }
      }
    }
  }

  /** apply_case_baseline_offsets, past its early return: the counts are
      exactly the landing targets of each category, and each drawn glyph is
      moved by the offsets of the targets that land on it. */
  lemma CaseOffsetsExact(gs: seq<Glyph>, m: map<int, int>, upm: int, mp: real, bp: real, dp: real)
    requires !(mp == 0.0 && bp == 0.0 && dp == 0.0)
    ensures var ts := Targets(Offset(mp, upm), Offset(bp, upm), Offset(dp, upm));
            var r := CaseOffsetsSpec(gs, m, upm, mp, bp, dp);
            r.1 == Applied(Hits(gs, m, ts, Math), Hits(gs, m, ts, Bracket), Hits(gs, m, ts, Dash)) &&
            forall k | 0 <= k < |gs| && gs[k].outline.Drawn? ::
              r.0[k].outline == Drawn(gs[k].outline.token, gs[k].outline.ops + MovesOf(gs, m, ts, k))
  {
    var ts := Targets(Offset(mp, upm), Offset(bp, upm), Offset(dp, upm));
    ShiftAllExact(gs, m, ts);
    var a := ShiftAll(gs, m, ts).1;
    assert Get(a, Math) == a.math && Get(a, Bracket) == a.bracket && Get(a, Dash) == a.dash;
  }

  lemma MathTargetsFacts(mo: int)
    ensures var t := MathTargets(mo);
            DistinctTargets(t) && CountCat(t, Math) <= (if mo != 0 then |MathCaseCodepoints| else 0) &&
            CountCat(t, Bracket) == 0 && CountCat(t, Dash) == 0
  {
    if mo != 0 {
      PutAllEffect([], MathCaseCodepoints, mo, Math);
    }
  }

  lemma BracketTargetsFacts(mo: int, bo: int)
    ensures var t := BracketTargets(mo, bo);
            DistinctTargets(t) && CountCat(t, Math) <= (if mo != 0 then |MathCaseCodepoints| else 0) &&
            CountCat(t, Bracket) <= (if bo != 0 then |BracketCaseCodepoints| else 0) && CountCat(t, Dash) == 0
  {
    MathTargetsFacts(mo);
    if bo != 0 {
      PutAllEffect(MathTargets(mo), BracketCaseCodepoints, bo, Bracket);
    }
  }

  /** Keys stay distinct, and each category has at most as many targets as
      its codepoint list, none when its rounded offset is zero. */
  lemma TargetsFacts(mo: int, bo: int, dOff: int)
    ensures var ts := Targets(mo, bo, dOff);
            DistinctTargets(ts) &&
            CountCat(ts, Math) <= (if mo != 0 then |MathCaseCodepoints| else 0) &&
            CountCat(ts, Bracket) <= (if bo != 0 then |BracketCaseCodepoints| else 0) &&
            CountCat(ts, Dash) <= (if dOff != 0 then |DashCaseCodepoints| else 0)
  {
    BracketTargetsFacts(mo, bo);
    if dOff != 0 {
      PutAllEffect(BracketTargets(mo, bo), DashCaseCodepoints, dOff, Dash);
    }
  }

  /** After the bracket loop, '<' and '>' carry the bracket offset. */
  lemma AnglesAfterBrackets(mo: int, bo: int, w: int)
    requires bo != 0 && (w == 0x003C || w == 0x003E)
    ensures var t2 := BracketTargets(mo, bo);
            Find(t2, w).Some? && t2[Find(t2, w).value].1 == (bo, Bracket)
  {
    MathTargetsFacts(mo);
    assert w in BracketCaseCodepoints by {
      assert BracketCaseCodepoints[2] == 0x003C && BracketCaseCodepoints[3] == 0x003E;
    }
    PutAllHit(MathTargets(mo), BracketCaseCodepoints, bo, Bracket, w);
  }

  /** When the bracket offset is nonzero, '<' and '>' move by it as
      brackets, never as math: the bracket loop overwrites the math entry
      and the dash loop does not touch them. */
  lemma BracketWinsAngles(mo: int, bo: int, dOff: int, w: int)
    requires bo != 0 && (w == 0x003C || w == 0x003E)
    ensures var ts := Targets(mo, bo, dOff);
            Find(ts, w).Some? && ts[Find(ts, w).value].1 == (bo, Bracket)
  {
    AnglesAfterBrackets(mo, bo, w);
    if dOff != 0 {
      BracketTargetsFacts(mo, bo);
      assert w !in DashCaseCodepoints;
      PutAllOther(BracketTargets(mo, bo), DashCaseCodepoints, dOff, Dash, w);
    }
  }

  /** The counts apply_case_baseline_offsets returns stay within the sizes
      of the three codepoint lists, and are all zero when every percentage
      is zero. */
  lemma CaseOffsetsBounds(gs: seq<Glyph>, m: map<int, int>, upm: int, mp: real, bp: real, dp: real)
    ensures var r := CaseOffsetsSpec(gs, m, upm, mp, bp, dp);
            (mp == 0.0 && bp == 0.0 && dp == 0.0 ==> r == (gs, Applied(0, 0, 0))) &&
            r.1.math <= |MathCaseCodepoints| && r.1.bracket <= |BracketCaseCodepoints| && r.1.dash <= |DashCaseCodepoints| &&
            (Offset(mp, upm) == 0 ==> r.1.math == 0) && (Offset(bp, upm) == 0 ==> r.1.bracket == 0) &&
            (Offset(dp, upm) == 0 ==> r.1.dash == 0)
  {
    if !(mp == 0.0 && bp == 0.0 && dp == 0.0) {
      var ts := Targets(Offset(mp, upm), Offset(bp, upm), Offset(dp, upm));
      TargetsFacts(Offset(mp, upm), Offset(bp, upm), Offset(dp, upm));
      ShiftAllEffect(gs, m, ts);
      assert Get(ShiftAll(gs, m, ts).1, Math) <= CountCat(ts, Math);
      assert Get(ShiftAll(gs, m, ts).1, Bracket) <= CountCat(ts, Bracket);
      assert Get(ShiftAll(gs, m, ts).1, Dash) <= CountCat(ts, Dash);
    }
  }

  // ---------------------------------------------------------------------
  // The methods
  // ---------------------------------------------------------------------

  /** The targets loops. */
  method BuildTargets(mo: int, bo: int, dOff: int) returns (ts: seq<Target>)
    ensures ts == Targets(mo, bo, dOff)
  {
    ts := [];
    if mo != 0 {
      ts := PutLoop(ts, MathCaseCodepoints, mo, Math);
    }
    if bo != 0 {
      ts := PutLoop(ts, BracketCaseCodepoints, bo, Bracket);
    }
    if dOff != 0 {
      ts := PutLoop(ts, DashCaseCodepoints, dOff, Dash);
    }
  }

  method PutLoop(ts0: seq<Target>, us: seq<int>, dy: int, c: Category) returns (ts: seq<Target>)
    ensures ts == PutAll(ts0, us, dy, c)
  {
    ts := ts0;
    var i := 0;
    while i < |us|
      invariant 0 <= i <= |us| && ts == PutAll(ts0, us[..i], dy, c)
    {
      assert us[..i + 1][..i] == us[..i];
      var k := Find(ts, us[i]);
      if k.Some? {
        ts := ts[k.value := (us[i], (dy, c))];
      } else {
        ts := ts + [(us[i], (dy, c))];
      }
      i := i + 1;
    }
    assert us[..i] == us;
  }

  /** One target on the active slot space. */
  method ShiftTarget(cache: SlotCache, font: Font, t: Target, ghost m: map<int, int>) returns (hit: Option<Category>)
    requires font.Valid() && m == ConsultedMap(font.Current(), font.Count(), CachedEntry(cache, font))
    modifies font`subfonts, cache`slotMaps
    ensures font.Valid() && OnlyGlyphs(font, old(font.subfonts), old(font.active))
    ensures m == ConsultedMap(font.Current(), font.Count(), CachedEntry(cache, font))
    ensures (font.Glyphs(), hit) == ShiftStep(old(font.Glyphs()), m, t)
  {
    var (u, (dy, c)) := t;
    hit := None;
    var slot := FindSlot(cache, font, u);
    if slot == -1 {
      return;
    }
    var k := SlotIndex(font.Glyphs(), slot);
    if k.None? || !font.Glyphs()[k.value].drawable {
      assert old(font.subfonts)[font.active := old(font.Current())] == old(font.subfonts);
      return;
    }
    var g := font.Glyphs()[k.value];
    font.PutGlyph(k.value, g.(outline := Transformed(g.outline, Translate(0.0, dy as real))));
    hit := Some(c);
  }

  /** apply_case_baseline_offsets(font, base_upm, math_pct, bracket_pct,
      dash_pct); find_slot answers from the map it consults on entry. */
  method ApplyCaseBaselineOffsets(cache: SlotCache, font: Font, upm: int, mp: real, bp: real, dp: real) returns (applied: Applied)
    requires font.Valid()
    modifies font`subfonts, cache`slotMaps
    ensures font.Valid() && OnlyGlyphs(font, old(font.subfonts), old(font.active))
    ensures (font.Glyphs(), applied) ==
            CaseOffsetsSpec(old(font.Glyphs()), ConsultedMap(old(font.Current()), font.Count(), old(CachedEntry(cache, font))), upm, mp, bp, dp)
  {
    ghost var m := ConsultedMap(font.Current(), font.Count(), CachedEntry(cache, font));
    applied := Applied(0, 0, 0);
    if mp == 0.0 && bp == 0.0 && dp == 0.0 {
      assert old(font.subfonts)[font.active := old(font.Current())] == old(font.subfonts);
      return;
    }
    var ts := BuildTargets(Offset(mp, upm), Offset(bp, upm), Offset(dp, upm));
    applied := ShiftTargets(cache, font, ts, m);
  }

  /** The loop over the targets, in order. */
  method ShiftTargets(cache: SlotCache, font: Font, ts: seq<Target>, ghost m: map<int, int>) returns (applied: Applied)
    requires font.Valid() && m == ConsultedMap(font.Current(), font.Count(), CachedEntry(cache, font))
    modifies font`subfonts, cache`slotMaps
    ensures font.Valid() && OnlyGlyphs(font, old(font.subfonts), old(font.active))
    ensures (font.Glyphs(), applied) == ShiftAll(old(font.Glyphs()), m, ts)
  {
    ghost var gs0 := font.Glyphs();
    applied := Applied(0, 0, 0);
    var i := 0;
    while i < |ts|
      invariant 0 <= i <= |ts| && font.Valid() && OnlyGlyphs(font, old(font.subfonts), old(font.active))
      invariant m == ConsultedMap(font.Current(), font.Count(), CachedEntry(cache, font))
      invariant (font.Glyphs(), applied) == ShiftAll(gs0, m, ts[..i])
    {
      applied := ShiftNext(cache, font, ts, i, m, gs0, applied);
      i := i + 1;
    }
    assert ts[..i] == ts;
  }

  /** Target i of the loop, with the targets before it already shifted:
      a hit adds one to its category's count. */
  method ShiftNext(cache: SlotCache, font: Font, ts: seq<Target>, i: nat, ghost m: map<int, int>,
                   ghost gs0: seq<Glyph>, applied0: Applied) returns (applied: Applied)
    requires font.Valid() && i < |ts| && m == ConsultedMap(font.Current(), font.Count(), CachedEntry(cache, font))
    requires (font.Glyphs(), applied0) == ShiftAll(gs0, m, ts[..i])
    modifies font`subfonts, cache`slotMaps
    ensures font.Valid() && OnlyGlyphs(font, old(font.subfonts), old(font.active))
    ensures m == ConsultedMap(font.Current(), font.Count(), CachedEntry(cache, font))
    ensures (font.Glyphs(), applied) == ShiftAll(gs0, m, ts[..i + 1])
  {
    assert ts[..i + 1][..i] == ts[..i];
    var hit := ShiftTarget(cache, font, ts[i], m);
    applied := if hit.Some? then Incr(applied0, hit.value) else applied0;
  }
}
