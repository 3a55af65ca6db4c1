/** What `gen` promises about its quantifiers and groups, stated over the
    traces of the engine. */
module Properties {
  import opened Common
  import opened Scanner
  import opened Atoms
  import opened Backrefs
  import opened Engine

  // ---------------------------------------------------------------------------
  // Traces

  lemma ConcatHits(a: Trace, b: Trace)
    ensures forall h :: h in Concat(a, b).hits <==> h in a.hits || (a.raised.None? && h in b.hits)
    ensures a.hits <= Concat(a, b).hits
  {
  }

  // ---------------------------------------------------------------------------
  // Atoms

  /** The runs of length `n` down to 1: every hit comes from one of the runs of
      length 1..n. */
  lemma {:induction false} RunTracesFrom(s: string, caps: Caps, tail: string, gi: nat, n: nat)
    requires n <= |s|
    ensures forall h :: h in RunTraces(s, caps, tail, gi, n).hits ==>
      exists k :: 1 <= k <= n && h in Gen(s[k..], tail, caps, gi).hits
    decreases n
  {
    if n > 0 {
      var g, r := Gen(s[n..], tail, caps, gi), RunTraces(s, caps, tail, gi, n - 1);
      RunTracesFrom(s, caps, tail, gi, n - 1);
      forall h | h in RunTraces(s, caps, tail, gi, n).hits
        ensures exists k :: 1 <= k <= n && h in Gen(s[k..], tail, caps, gi).hits
      {
        ConcatHits(g, r);
        if h !in g.hits {
          var k :| 1 <= k <= n - 1 && h in Gen(s[k..], tail, caps, gi).hits;
        }
      }
    }
  }

  /** ... and, unless an error cuts the loop short, every one of those runs
      is tried. */
  lemma {:induction false} RunTracesAll(s: string, caps: Caps, tail: string, gi: nat, n: nat)
    requires n <= |s| && RunTraces(s, caps, tail, gi, n).raised.None?
    ensures forall k, h :: 1 <= k <= n && h in Gen(s[k..], tail, caps, gi).hits ==>
      h in RunTraces(s, caps, tail, gi, n).hits
    decreases n
  {
    if n > 0 {
      var g, r := Gen(s[n..], tail, caps, gi), RunTraces(s, caps, tail, gi, n - 1);
      assert RunTraces(s, caps, tail, gi, n) == Concat(g, r);
      assert g.raised.None? && r.raised.None?;
      ConcatHits(g, r);
      RunTracesAll(s, caps, tail, gi, n - 1);
      forall k, h | 1 <= k <= n && h in Gen(s[k..], tail, caps, gi).hits
        ensures h in Concat(g, r).hits
      {
        if k < n {
          assert h in r.hits;
        }
      }
    }
  }

  /** The atom `p` starts with, when it is not a group or a back-reference. */
  predicate AtomCase(p: string)
  {
    p != [] && p[0] != '(' && !StartsWithBackref(p) && NextAtom(p).Ok?
  }

  function AtomOf(p: string): Atom
    requires AtomCase(p)
  {
    NextAtom(p).value.0.value
  }

  function AfterAtom(p: string): string
    requires AtomCase(p)
  {
    NextAtom(p).value.1
  }

  /** Atom `+`: every hit consumed a run of one or more accepted characters
      (at most the maximal run, `RunLength`) before the tail; every such run
      is tried unless an error cuts the trace short; the longest run is tried
      first. The full order, the run lengths from `n` down to 1, is the
      definition of `Engine.RunTraces`. */
  lemma AtomPlus(s: string, p: string, caps: Caps, gi: nat)
    requires AtomCase(p) && var rest := AfterAtom(p); rest != [] && rest[0] == '+'
    ensures var a, tail, t := AtomOf(p), AfterAtom(p)[1..], Gen(s, p, caps, gi);
      var n := RunLength(a, s);
      (forall h :: h in t.hits ==>
         |h.rest| < |s| && exists k :: 1 <= k <= n && h in Gen(s[k..], tail, caps, gi).hits)
      && (t.raised.None? ==>
         forall k, h :: 1 <= k <= n && h in Gen(s[k..], tail, caps, gi).hits ==> h in t.hits)
      && (n > 0 ==> Gen(s[n..], tail, caps, gi).hits <= t.hits)
  {
    var a, tail, t := AtomOf(p), AfterAtom(p)[1..], Gen(s, p, caps, gi);
    var n := RunLength(a, s);
    assert t == AtomGen(s, p, caps, gi);
    if s != [] && Accepts(a, s[0]) {
      assert t == RunTraces(s, caps, tail, gi, n);
      RunTracesFrom(s, caps, tail, gi, n);
      if t.raised.None? {
        RunTracesAll(s, caps, tail, gi, n);
      }
      ConcatHits(Gen(s[n..], tail, caps, gi), RunTraces(s, caps, tail, gi, n - 1));
    } else {
      assert t == Empty;
    }
  }

  /** Atom `?`: the one-character branch is tried before the empty one. */
  lemma AtomOpt(s: string, p: string, caps: Caps, gi: nat)
    requires AtomCase(p) && var rest := AfterAtom(p); rest != [] && rest[0] == '?'
    ensures var a, tail, t := AtomOf(p), AfterAtom(p)[1..], Gen(s, p, caps, gi);
      var one := s != [] && Accepts(a, s[0]);
      (one ==> Gen(s[1..], tail, caps, gi).hits <= t.hits)
      && (forall h :: h in t.hits <==>
           (one && h in Gen(s[1..], tail, caps, gi).hits)
           || ((!one || Gen(s[1..], tail, caps, gi).raised.None?) && h in Gen(s, tail, caps, gi).hits))
  {
    var a, tail, t := AtomOf(p), AfterAtom(p)[1..], Gen(s, p, caps, gi);
    var one := s != [] && Accepts(a, s[0]);
    var t0 := if one then Gen(s[1..], tail, caps, gi) else Empty;
    assert t == AtomGen(s, p, caps, gi) == Concat(t0, Gen(s, tail, caps, gi));
    ConcatHits(t0, Gen(s, tail, caps, gi));
  }

  /** A plain atom consumes exactly one accepted character. */
  lemma AtomOne(s: string, p: string, caps: Caps, gi: nat)
    requires AtomCase(p) && var rest := AfterAtom(p); !(rest != [] && (rest[0] == '+' || rest[0] == '?'))
    ensures var a, t := AtomOf(p), Gen(s, p, caps, gi);
      (s == [] || !Accepts(a, s[0]) ==> t == Empty)
      && (s != [] && Accepts(a, s[0]) ==> t == Gen(s[1..], AfterAtom(p), caps, gi))
  {
    assert Gen(s, p, caps, gi) == AtomGen(s, p, caps, gi);
  }

  // ---------------------------------------------------------------------------
  // Back-references

  /** `\N` matches the text group `N` captured, then goes on after all of the
      digits; a reference that cannot be met ends the branch without a hit. */
  lemma BackrefStep(s: string, p: string, caps: Caps, gi: nat)
    requires StartsWithBackref(p)
    ensures var n, t := GroupNumber(p), Gen(s, p, caps, gi);
      var ok := 1 <= n <= |caps| && caps[n - 1].Some? && IsPrefix(caps[n - 1].value, s);
      (ok ==> t == Gen(s[|caps[n - 1].value|..], p[RefEnd(p)..], caps, gi))
      && (!ok ==> t == Empty)
  {
    var n := GroupNumber(p);
    match Backref(s, p, caps)
    case Matched(s2, p2) =>
      var g := caps[n - 1].value;
      assert s[|g|..] == s2;
      assert p[RefEnd(p)..] == p2;
    case NoMatch =>
    case NotBackref =>
  }

  // ---------------------------------------------------------------------------
  // Groups

  /** Every hit after a group comes from one hit of the body, continued. */
  lemma {:induction false} ContinueHitsFrom(s: string, caps: Caps, gi: nat, hits: seq<Hit>, rest: string, next: nat)
    requires gi <= next
    requires HitsOk(s, caps, gi, hits)
    ensures forall h :: h in ContinueHits(s, caps, gi, hits, rest, next).hits ==>
      exists m :: m in hits && h in Gen(m.rest, rest, m.caps, next).hits
    decreases |hits|
  {
    if hits != [] {
      var g, r := Gen(hits[0].rest, rest, hits[0].caps, next), ContinueHits(s, caps, gi, hits[1..], rest, next);
      ContinueHitsFrom(s, caps, gi, hits[1..], rest, next);
      ConcatHits(g, r);
      forall h | h in ContinueHits(s, caps, gi, hits, rest, next).hits
        ensures exists m :: m in hits && h in Gen(m.rest, rest, m.caps, next).hits
      {
        if h !in g.hits {
          var m :| m in hits[1..] && h in Gen(m.rest, rest, m.caps, next).hits;
          assert m in hits;
        }
      }
    }
  }

  /** After a group at `gi`, slot `gi` holds what the body consumed: on every
      hit `h` there is a hit `m` of the body with `s == h.caps[gi] + m.rest`,
      and `h` came from continuing `m`. Groups after it, numbered from `next`,
      leave the slot alone. */
  lemma ContinueCaptured(s: string, caps: Caps, gi: nat, body: Trace, rest: string, next: nat)
    requires gi < next && Captured(body, s, caps, gi)
    ensures forall h :: h in Continue(s, caps, gi, body, rest, next).hits ==>
      gi < |h.caps| && h.caps[gi].Some? &&
      exists m :: m in body.hits && s == h.caps[gi].value + m.rest && h in Gen(m.rest, rest, m.caps, next).hits
  {
    var c := ContinueHits(s, caps, gi, body.hits, rest, next);
    ConcatHits(c, Trace([], body.raised));
    ContinueHitsFrom(s, caps, gi, body.hits, rest, next);
    forall h | h in Continue(s, caps, gi, body, rest, next).hits
      ensures gi < |h.caps| && h.caps[gi].Some? &&
        exists m :: m in body.hits && s == h.caps[gi].value + m.rest && h in Gen(m.rest, rest, m.caps, next).hits
    {
      var m :| m in body.hits && h in Gen(m.rest, rest, m.caps, next).hits;
      assert Keeps(m.caps, h.caps, next);
      assert h.caps[gi] == m.caps[gi];
    }
  }

  /** The group `p` starts with: its body and what follows its `)`. */
  predicate GroupCase(p: string)
  {
    p != [] && p[0] == '(' && CloseIndex(p, 0).Ok?
  }

  function BodyOf(p: string): string
    requires GroupCase(p)
  {
    p[1..CloseIndex(p, 0).value]
  }

  function AfterGroup(p: string): string
    requires GroupCase(p)
  {
    p[CloseIndex(p, 0).value + 1..]
  }

  /** A `(` with no matching `)` raises before yielding anything. */
  lemma GroupUnbalanced(s: string, p: string, caps: Caps, gi: nat)
    requires p != [] && p[0] == '(' && CloseIndex(p, 0).Err?
    ensures Gen(s, p, caps, gi) == Trace([], Some(Unbalanced))
  {
    GroupDispatch(s, p, caps, gi);
  }

  /** A plain group at `gi`: every hit has slot `gi` set to the text the body
      consumed; the continuation has its groups numbered from
      `gi + 1 + count_groups(body)`. */
  lemma GroupCapture(s: string, p: string, caps: Caps, gi: nat)
    requires GroupCase(p) && var rest := AfterGroup(p); !(rest != [] && (rest[0] == '+' || rest[0] == '?'))
    ensures var body, rest, t := BodyOf(p), AfterGroup(p), Gen(s, p, caps, gi);
      var next := After(body, gi);
      forall h :: h in t.hits ==>
        gi < |h.caps| && h.caps[gi].Some? &&
        exists m :: m in GenBody(s, caps, body, gi).hits && s == h.caps[gi].value + m.rest
                    && h in Gen(m.rest, rest, m.caps, next).hits
  {
    var body, rest := BodyOf(p), AfterGroup(p);
    var next := After(body, gi);
    var b := GenBody(s, caps, body, gi);
    GroupSplit(s, p, caps, gi);
    assert GroupFrom(s, caps, body, rest, gi) == Continue(s, caps, gi, b, rest, next);
    ContinueCaptured(s, caps, gi, b, rest, next);
  }

  /** A pattern that starts with `(` is handled by the group case of `gen`. */
  lemma GroupDispatch(s: string, p: string, caps: Caps, gi: nat)
    requires p != [] && p[0] == '('
    ensures Gen(s, p, caps, gi) == GroupGen(s, p, caps, gi)
  {
    assert Backref(s, p, caps).NotBackref?;
  }

  /** ... which, once the `)` is found, goes on with the body and what follows. */
  lemma GroupSplit(s: string, p: string, caps: Caps, gi: nat)
    requires GroupCase(p)
    ensures Gen(s, p, caps, gi) == GroupFrom(s, caps, BodyOf(p), AfterGroup(p), gi)
  {
    GroupDispatch(s, p, caps, gi);
  }

  /** `h'` is a hit of one of the alternatives `alts` of a group body at `id`,
      run on a copy of the captures padded to `id + 1` slots with its own
      groups numbered from `id + 1`, and then tagged with slot `id`. */
  ghost predicate FromAlternative(s0: string, caps0: Caps, alts: seq<string>, id: nat, h': Hit)
  {
    exists k, h :: 0 <= k < |alts| && h in Gen(s0, alts[k], Pad(caps0, id + 1), id + 1).hits
                   && IsSuffix(h.rest, s0) && h' == Tag(h, s0, id)
  }

  /** The alternatives of a group body number their own groups from `id + 1`. */
  lemma {:induction false} AltTracesNumbered(s0: string, caps0: Caps, body: string, alts: seq<string>, id: nat)
    requires forall a :: a in alts ==> |a| <= |body|
    ensures forall h' :: h' in AltTraces(s0, caps0, body, alts, id).hits ==> FromAlternative(s0, caps0, alts, id, h')
    decreases |alts|
  {
    if alts != [] {
      var t0 := Gen(s0, alts[0], Pad(caps0, id + 1), id + 1);
      var first := Trace(TagAll(t0.hits, s0, id), t0.raised);
      var others := AltTraces(s0, caps0, body, alts[1..], id);
      assert forall a :: a in alts[1..] ==> a in alts;
      AltTracesNumbered(s0, caps0, body, alts[1..], id);
      assert AltTraces(s0, caps0, body, alts, id) == Concat(first, others);
      ConcatHits(first, others);
      forall h' | h' in Concat(first, others).hits
        ensures FromAlternative(s0, caps0, alts, id, h')
      {
        if h' in first.hits {
          var h :| h in t0.hits && h' == Tag(h, s0, id);
        } else {
          assert FromAlternative(s0, caps0, alts[1..], id, h');
          var k, h :| 0 <= k < |alts[1..]| && h in Gen(s0, alts[1..][k], Pad(caps0, id + 1), id + 1).hits
                      && IsSuffix(h.rest, s0) && h' == Tag(h, s0, id);
          assert alts[1..][k] == alts[k + 1];
        }
      }
    }
  }

  /** `gen_body`: every hit is a tagged hit of one top-level alternative of the
      body, whose groups are numbered from `id + 1` (`inner_start`). */
  lemma GenBodyNumbered(s0: string, caps0: Caps, body: string, id: nat)
    ensures forall h' :: h' in GenBody(s0, caps0, body, id).hits ==> FromAlternative(s0, caps0, Pieces(body), id, h')
  {
    var alts := Pieces(body);
    assert forall a :: a in alts ==> |a| <= |body| by { PiecesShorter(body); }
    assert GenBody(s0, caps0, body, id) == AltTraces(s0, caps0, body, alts, id);
    AltTracesNumbered(s0, caps0, body, alts, id);
  }

  /** Group `?`: the body is tried first, and the branch that skips the group
      (numbering the rest as if it had run) comes only after all of it. */
  lemma GroupOpt(s: string, p: string, caps: Caps, gi: nat)
    requires GroupCase(p) && var rest := AfterGroup(p); rest != [] && rest[0] == '?'
    ensures var body, tail, t := BodyOf(p), AfterGroup(p)[1..], Gen(s, p, caps, gi);
      var next := After(body, gi);
      var c := Continue(s, caps, gi, GenBody(s, caps, body, gi), tail, next);
      var z := Gen(s, tail, caps, next);
      c.hits <= t.hits
      && (c.raised.None? ==> t == Trace(c.hits + z.hits, z.raised))
      && (c.raised.Some? ==> t == c)
      && (forall h :: h in c.hits ==> gi < |h.caps| && h.caps[gi].Some? && IsPrefix(h.caps[gi].value, s))
  {
    var body, tail := BodyOf(p), AfterGroup(p)[1..];
    var next := After(body, gi);
    var b := GenBody(s, caps, body, gi);
    var c := Continue(s, caps, gi, b, tail, next);
    GroupSplit(s, p, caps, gi);
    assert GroupFrom(s, caps, body, AfterGroup(p), gi) == Concat(c, Gen(s, tail, caps, next));
    ContinueCaptured(s, caps, gi, b, tail, next);
    forall h | h in c.hits
      ensures gi < |h.caps| && h.caps[gi].Some? && IsPrefix(h.caps[gi].value, s)
    {
      var m :| m in b.hits && s == h.caps[gi].value + m.rest;
      assert s[..|h.caps[gi].value|] == h.caps[gi].value;
    }
  }

  /** `m` is a hit of one iteration of the body, run from some suffix of `s`. */
  ghost predicate Iteration(s: string, body: string, gi: nat, m: Hit)
  {
    exists s0, c0 :: IsSuffix(s0, s) && m in GenBody(s0, c0, body, gi).hits
  }

  /** `h` continues a hit `m` of one iteration of the body that ran from `s0`,
      a suffix of `s`: slot `gi` of `h` is `m`'s, and holds exactly the text
      that iteration consumed, which ends where `m.rest` (and so `h`'s
      continuation) starts. */
  ghost predicate FromIteration(s: string, body: string, rest2: string, gi: nat, next: nat, h: Hit)
  {
    exists m, s0, c0 :: IsSuffix(s0, s) && m in GenBody(s0, c0, body, gi).hits
      && gi < |h.caps| && gi < |m.caps| && h.caps[gi] == m.caps[gi] && h.caps[gi].Some?
      && s0 == h.caps[gi].value + m.rest && h in Gen(m.rest, rest2, m.caps, next).hits
  }

  /** The worklist, run on hits of body iterations, yields only continuations
      of such hits, each carrying that iteration's slot `gi`. */
  lemma {:induction false} ProcessCaptured(s: string, caps: Caps, body: string, rest2: string, gi: nat, next: nat,
                                           stack: seq<Hit>)
    requires gi < next
    requires HitsOk(s, caps, gi, stack) && forall m :: m in stack ==> Iteration(s, body, gi, m)
    ensures forall h :: h in Process(s, caps, body, rest2, gi, next, stack).hits ==>
      FromIteration(s, body, rest2, gi, next, h)
    decreases Weight(stack), |stack|
  {
    if stack != [] {
      var top, below := stack[|stack| - 1], stack[..|stack| - 1];
      assert top in stack;
      var cont := Gen(top.rest, rest2, top.caps, next);
      ProcessCaptured(s, caps, body, rest2, gi, next, below);
      var pb := Process(s, caps, body, rest2, gi, next, below);
      var s0, c0 :| IsSuffix(s0, s) && top in GenBody(s0, c0, body, gi).hits;
      assert s0 == top.caps[gi].value + top.rest;
      forall h | h in cont.hits
        ensures FromIteration(s, body, rest2, gi, next, h)
      {
        assert Keeps(top.caps, h.caps, next);
        assert h.caps[gi] == top.caps[gi];
      }
      if |top.rest| < |s| {
        var more := GenBody(top.rest, top.caps, body, gi);
        var kids := Progress(more.hits, |top.rest|);
        KidsSound(s, caps, gi, top, more);
        forall k | k in kids
          ensures Iteration(s, body, gi, k)
        {
          assert k in more.hits;
        }
        WeightBelow(kids, |top.rest|);
        ProcessCaptured(s, caps, body, rest2, gi, next, kids);
        var pk := Process(s, caps, body, rest2, gi, next, kids);
        ConcatHits(pk, pb);
        ConcatHits(Trace([], more.raised), Concat(pk, pb));
        ConcatHits(cont, Concat(Trace([], more.raised), Concat(pk, pb)));
      } else {
        ConcatHits(cont, pb);
      }
    }
  }

  /** The trace of `+` starting from `s`, before the pattern is taken apart. */
  lemma PlusTraceCaptured(s: string, caps: Caps, body: string, rest2: string, gi: nat, next: nat)
    requires gi < next
    ensures forall h :: h in PlusTrace(s, caps, body, rest2, gi, next).hits ==>
      FromIteration(s, body, rest2, gi, next, h)
  {
    var first := GenBody(s, caps, body, gi);
    if first.raised.None? {
      forall m | m in first.hits
        ensures Iteration(s, body, gi, m)
      {
        assert IsSuffix(s, s);
      }
      WeightBelow(first.hits, |s| + 1);
      ProcessCaptured(s, caps, body, rest2, gi, next, first.hits);
    }
  }

  /** Group `+`: every hit continues a hit `m` of one iteration of the body
      (the last one) that ran from a suffix `s0` of `s`; slot `gi` holds exactly
      what that iteration consumed, `s0 == cc3[gi] + out_s`, and the hit
      continues from right after that text. */
  lemma PlusCaptured(s: string, p: string, caps: Caps, gi: nat)
    requires GroupCase(p) && var rest := AfterGroup(p); rest != [] && rest[0] == '+'
    ensures var body, rest2, t := BodyOf(p), AfterGroup(p)[1..], Gen(s, p, caps, gi);
      var next := After(body, gi);
      forall h :: h in t.hits ==> FromIteration(s, body, rest2, gi, next, h)
  {
    var body, rest2 := BodyOf(p), AfterGroup(p)[1..];
    var next := After(body, gi);
    GroupSplit(s, p, caps, gi);
    assert GroupFrom(s, caps, body, AfterGroup(p), gi) == PlusTrace(s, caps, body, rest2, gi, next);
    PlusTraceCaptured(s, caps, body, rest2, gi, next);
  }

  // ---------------------------------------------------------------------------
  // Plain characters

  /** A character with no meaning of its own in a pattern. */
  predicate Ordinary(c: char)
  {
    c != '.' && c != '[' && c != '\\' && c != '('
  }

  /** An ordinary character not followed by a quantifier consumes itself. */
  lemma LiteralStep(s: string, p: string, caps: Caps, gi: nat)
    requires p != [] && Ordinary(p[0]) && (|p| == 1 || (p[1] != '+' && p[1] != '?'))
    ensures Gen(s, p, caps, gi) == if s != [] && s[0] == p[0] then Gen(s[1..], p[1..], caps, gi) else Empty
  {
    assert AtomCase(p) && AfterAtom(p) == p[1..];
    AtomOne(s, p, caps, gi);
  }

  /** `c?` for an ordinary `c`: one `c` first, then none. */
  lemma OptLiteralStep(s: string, p: string, caps: Caps, gi: nat)
    requires |p| >= 2 && Ordinary(p[0]) && p[1] == '?'
    ensures Gen(s, p, caps, gi) ==
      Concat(if s != [] && s[0] == p[0] then Gen(s[1..], p[2..], caps, gi) else Empty, Gen(s, p[2..], caps, gi))
  {
    assert AtomCase(p) && AfterAtom(p) == p[1..];
    assert Gen(s, p, caps, gi) == AtomGen(s, p, caps, gi);
  }

  /** Position `i` of `p` is an ordinary, unquantified character that `s`
      has at the same position. */
  predicate PlainAt(s: string, p: string, i: nat)
    requires i < |s| && i < |p|
  {
    Ordinary(p[i]) && s[i] == p[i] && (i + 1 < |p| ==> p[i + 1] != '+' && p[i + 1] != '?')
  }

  /** `s[..k]` spells out the first `k` characters of `p`, all ordinary and
      none quantified. */
  predicate Spelled(s: string, p: string, k: nat)
  {
    k <= |s| && k <= |p| && forall i :: 0 <= i < k ==> PlainAt(s, p, i)
  }

  /** A run of ordinary characters matches exactly itself. */
  lemma {:induction false} LiteralRun(s: string, p: string, caps: Caps, gi: nat, k: nat)
    requires Spelled(s, p, k)
    ensures Gen(s, p, caps, gi) == Gen(s[k..], p[k..], caps, gi)
    decreases k
  {
    if k > 0 {
      assert PlainAt(s, p, 0);
      LiteralStep(s, p, caps, gi);
      assert Spelled(s[1..], p[1..], k - 1) by {
        forall i | 0 <= i < k - 1
          ensures PlainAt(s[1..], p[1..], i)
        {
          assert PlainAt(s, p, i + 1);
        }
      }
      LiteralRun(s[1..], p[1..], caps, gi, k - 1);
      assert s[1..][k - 1..] == s[k..] && p[1..][k - 1..] == p[k..];
    }
  }
}
