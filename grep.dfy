/** `matches(s, p)`: grep's policy for anchors, start offsets and top-level
    alternation, on top of the traces of `gen`. An `Err` stands for the
    exception `matches` lets escape. */
module Grep {
  import opened Common
  import opened Scanner
  import opened Engine

  /** The hit `any(...)` is looking for: with `$`, one that used up the line. */
  predicate Qualifies(h: Hit, needEmpty: bool)
  {
    !needEmpty || h.rest == []
  }

  /** `any(...)` over a generator: it stops at the first qualifying hit, so an
      exception is seen only when no qualifying hit was yielded before it. */
  function AnyHit(t: Trace, needEmpty: bool): (r: Result<bool>)
    decreases |t.hits|
    ensures r == Ok(true) <==> exists h :: h in t.hits && Qualifies(h, needEmpty)
    ensures r.Err? <==> t.raised.Some? && forall h :: h in t.hits ==> !Qualifies(h, needEmpty)
    ensures r.Err? ==> r.error == t.raised.value
  {
    if t.hits == [] then
      if t.raised.Some? then Err(t.raised.value) else Ok(false)
    else if Qualifies(t.hits[0], needEmpty) then Ok(true)
    else
      var r := AnyHit(Trace(t.hits[1..], t.raised), needEmpty);
      assert forall h :: h in t.hits <==> h == t.hits[0] || h in t.hits[1..];
      r
  }

  /** The outcome of trying the start offset `i`. */
  function AtOffset(s: string, core: string, i: nat, needEmpty: bool): Result<bool>
    requires i <= |s|
  {
    AnyHit(Gen(s[i..], core, [], 0), needEmpty)
  }

  /** The loop over start offsets, from `i` up to `len(s)`: the first offset whose
      outcome is not `False` decides; if there is none, the answer is `False`. */
  function TryOffsets(s: string, core: string, i: nat, needEmpty: bool): (r: Result<bool>)
    requires i <= |s| + 1
    decreases |s| + 1 - i
    ensures r == Ok(false) <==> forall j :: i <= j <= |s| ==> AtOffset(s, core, j, needEmpty) == Ok(false)
    ensures r != Ok(false) ==>
      exists j :: i <= j <= |s| && r == AtOffset(s, core, j, needEmpty) &&
        forall j' :: i <= j' < j ==> AtOffset(s, core, j', needEmpty) == Ok(false)
  {
    if i > |s| then Ok(false)
    else
      var here := AtOffset(s, core, i, needEmpty);
      if here != Ok(false) then here
      else
        var r := TryOffsets(s, core, i + 1, needEmpty);
        assert r != Ok(false) ==>
          exists j :: i + 1 <= j <= |s| && r == AtOffset(s, core, j, needEmpty) &&
            forall j' :: i <= j' < j ==> AtOffset(s, core, j', needEmpty) == Ok(false);
        r
  }

  predicate StartsAnchored(p: string)
  {
    p != [] && p[0] == '^'
  }

  predicate EndsAnchored(p: string)
  {
    p != [] && p[|p| - 1] == '$'
  }

  /** `matches(s, p)`. The empty pattern matches every line. */
  function MatchSpec(s: string, p: string): (r: Result<bool>)
    decreases |p|, 1, 0
    ensures p == [] ==> r == Ok(true)
  {
    var alts := Pieces(p);
    if |alts| > 1 then
      PiecesShorter(p);
      AnyAlt(s, alts, 0, |p|)
    else if StartsAnchored(p) && EndsAnchored(p) then AnyHit(Gen(s, p[1..|p| - 1], [], 0), true)
    else if EndsAnchored(p) then TryOffsets(s, p[..|p| - 1], 0, true)
    else if StartsAnchored(p) then AnyHit(Gen(s, p[1..], [], 0), false)
    else TryOffsets(s, p, 0, false)
  }

  /** Each alternative from the `i`-th on matched on its own, in order: the
      first alternative whose outcome is not `False` decides. */
  function AnyAlt(s: string, alts: seq<string>, i: nat, bound: nat): (r: Result<bool>)
    requires i <= |alts| && forall a :: a in alts ==> |a| < bound
    decreases bound, 0, |alts| - i
    ensures r == Ok(false) <==> forall k :: i <= k < |alts| ==> MatchSpec(s, alts[k]) == Ok(false)
    ensures r != Ok(false) ==>
      exists k :: i <= k < |alts| && r == MatchSpec(s, alts[k]) &&
        forall k' :: i <= k' < k ==> MatchSpec(s, alts[k']) == Ok(false)
  {
    if i == |alts| then Ok(false)
    else
      assert alts[i] in alts;
      var here := MatchSpec(s, alts[i]);
      if here != Ok(false) then here
      else AnyAlt(s, alts, i + 1, bound)
  }

  /** `matches(s, p)`, with its loops over the alternatives and the offsets. */
  method Matches(s: string, p: string) returns (r: Result<bool>)
    decreases |p|, 1
    ensures r == MatchSpec(s, p)
  {
    var alts := SplitAlts(p);
    if |alts| > 1 {
      PiecesShorter(p);
      assert MatchSpec(s, p) == AnyAlt(s, alts, 0, |p|);
      r := MatchAlts(s, alts, |p|);
      return;
    }
    assert |Pieces(p)| == 1;
    if StartsAnchored(p) && EndsAnchored(p) {
      return AnyHit(Gen(s, p[1..|p| - 1], [], 0), true);
    }
    var needEmpty := EndsAnchored(p);
    var core := if needEmpty then p[..|p| - 1] else p;
    if StartsAnchored(p) {
      return AnyHit(Gen(s, p[1..], [], 0), false);
    }
    assert MatchSpec(s, p) == TryOffsets(s, core, 0, needEmpty);
    r := MatchOffsets(s, core, needEmpty);
  }

  /** The loop of `matches` over the alternatives, each matched on its own. */
  method MatchAlts(s: string, alts: seq<string>, bound: nat) returns (r: Result<bool>)
    requires forall a :: a in alts ==> |a| < bound
    decreases bound, 0
    ensures r == AnyAlt(s, alts, 0, bound)
  {
    for k := 0 to |alts|
      invariant AnyAlt(s, alts, k, bound) == AnyAlt(s, alts, 0, bound)
    {
      assert alts[k] in alts;
      r := Matches(s, alts[k]);
      if r != Ok(false) {
        return;
      }
    }
    return Ok(false);
  }

  /** The loop of `matches` over the start offsets `0..len(s)`. */
  method MatchOffsets(s: string, core: string, needEmpty: bool) returns (r: Result<bool>)
    ensures r == TryOffsets(s, core, 0, needEmpty)
  {
    for i := 0 to |s| + 1
      invariant TryOffsets(s, core, i, needEmpty) == TryOffsets(s, core, 0, needEmpty)
    {
      r := AnyHit(Gen(s[i..], core, [], 0), needEmpty);
      if r != Ok(false) {
        return;
      }
    }
    return Ok(false);
  }

  // ---------------------------------------------------------------------------
  // The policy, stated over the hits of `gen`

  /** Over the offsets: a `True` comes from a qualifying hit at some offset,
      and a qualifying hit at any offset rules out `False`. */
  lemma OffsetsMeaning(s: string, core: string, needEmpty: bool)
    ensures TryOffsets(s, core, 0, needEmpty) == Ok(true) ==>
      exists j, h :: 0 <= j <= |s| && h in Gen(s[j..], core, [], 0).hits && Qualifies(h, needEmpty)
    ensures (exists j, h :: 0 <= j <= |s| && h in Gen(s[j..], core, [], 0).hits && Qualifies(h, needEmpty)) ==>
      TryOffsets(s, core, 0, needEmpty) != Ok(false)
  {
    var r := TryOffsets(s, core, 0, needEmpty);
    if r == Ok(true) {
      var j :| 0 <= j <= |s| && r == AtOffset(s, core, j, needEmpty);
      var h :| h in Gen(s[j..], core, [], 0).hits && Qualifies(h, needEmpty);
    }
    if exists j, h :: 0 <= j <= |s| && h in Gen(s[j..], core, [], 0).hits && Qualifies(h, needEmpty) {
      var j, h :| 0 <= j <= |s| && h in Gen(s[j..], core, [], 0).hits && Qualifies(h, needEmpty);
      assert AtOffset(s, core, j, needEmpty) == Ok(true);
    }
  }

  /** Top-level alternation: any branch matching (each with its own anchors)
      makes the line match, unless an earlier branch raised. */
  lemma AlternationMeaning(s: string, p: string)
    requires |Pieces(p)| > 1
    ensures var alts := Pieces(p);
      (MatchSpec(s, p) == Ok(true) ==> exists k :: 0 <= k < |alts| && MatchSpec(s, alts[k]) == Ok(true))
      && (MatchSpec(s, p) == Ok(false) <==> forall k :: 0 <= k < |alts| ==> MatchSpec(s, alts[k]) == Ok(false))
  {
    PiecesShorter(p);
    assert MatchSpec(s, p) == AnyAlt(s, Pieces(p), 0, |p|);
  }

  /** `^...$`: one run from offset 0 that leaves nothing of the line. */
  lemma BothAnchorsMeaning(s: string, p: string)
    requires |Pieces(p)| == 1 && StartsAnchored(p) && EndsAnchored(p)
    ensures |p| >= 2
    ensures MatchSpec(s, p) == Ok(true) <==> exists h :: h in Gen(s, p[1..|p| - 1], [], 0).hits && h.rest == []
  {
  }

  /** `...$`: some offset from 0 to `len(s)` has a run that leaves nothing. */
  lemma EndAnchorMeaning(s: string, p: string)
    requires |Pieces(p)| == 1 && !StartsAnchored(p) && EndsAnchored(p)
    ensures var core := p[..|p| - 1];
      (MatchSpec(s, p) == Ok(true) ==>
         exists j, h :: 0 <= j <= |s| && h in Gen(s[j..], core, [], 0).hits && h.rest == [])
      && ((exists j, h :: 0 <= j <= |s| && h in Gen(s[j..], core, [], 0).hits && h.rest == []) ==>
         MatchSpec(s, p) != Ok(false))
  {
    var core := p[..|p| - 1];
    assert MatchSpec(s, p) == TryOffsets(s, core, 0, true);
    OffsetsMeaning(s, core, true);
    if MatchSpec(s, p) == Ok(true) {
      var j, h :| 0 <= j <= |s| && h in Gen(s[j..], core, [], 0).hits && Qualifies(h, true);
      assert h.rest == [];
    }
    if exists j, h :: 0 <= j <= |s| && h in Gen(s[j..], core, [], 0).hits && h.rest == [] {
      var j, h :| 0 <= j <= |s| && h in Gen(s[j..], core, [], 0).hits && h.rest == [];
      assert Qualifies(h, true);
    }
  }

  /** `^...`: offset 0 only, and any hit will do. */
  lemma StartAnchorMeaning(s: string, p: string)
    requires |Pieces(p)| == 1 && StartsAnchored(p) && !EndsAnchored(p)
    ensures MatchSpec(s, p) == Ok(true) <==> Gen(s, p[1..], [], 0).hits != []
  {
    var t := Gen(s, p[1..], [], 0);
    if t.hits != [] {
      assert Qualifies(t.hits[0], false);
    }
  }

  /** No anchor: some offset from 0 to `len(s)` inclusive has a hit. */
  lemma UnanchoredMeaning(s: string, p: string)
    requires |Pieces(p)| == 1 && !StartsAnchored(p) && !EndsAnchored(p)
    ensures MatchSpec(s, p) == Ok(true) ==> exists j :: 0 <= j <= |s| && Gen(s[j..], p, [], 0).hits != []
    ensures (exists j :: 0 <= j <= |s| && Gen(s[j..], p, [], 0).hits != []) ==> MatchSpec(s, p) != Ok(false)
  {
    OffsetsMeaning(s, p, false);
    if exists j :: 0 <= j <= |s| && Gen(s[j..], p, [], 0).hits != [] {
      var j :| 0 <= j <= |s| && Gen(s[j..], p, [], 0).hits != [];
      assert Gen(s[j..], p, [], 0).hits[0] in Gen(s[j..], p, [], 0).hits;
      assert Qualifies(Gen(s[j..], p, [], 0).hits[0], false);
    }
  }
}
