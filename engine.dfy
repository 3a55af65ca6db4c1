/** `gen`: the backtracking matcher. A Python generator is modelled by the
    trace it produces: the pairs `(remaining subject, captures)` it yields, in
    order, followed by the error it raises, if it raises one. */
module Engine {
  import opened Common
  import opened Scanner
  import opened Atoms
  import opened Backrefs

  datatype Hit = Hit(rest: string, caps: Caps)

  datatype Trace = Trace(hits: seq<Hit>, raised: Option<Error>)

  const Empty: Trace := Trace([], None)

  /** `yield from a` followed by `yield from b`: `b` runs only if `a` returns. */
  function Concat(a: Trace, b: Trace): Trace
  {
    if a.raised.Some? then a else Trace(a.hits + b.hits, b.raised)
  }

  lemma ConcatAssoc(a: Trace, b: Trace, c: Trace)
    ensures Concat(Concat(a, b), c) == Concat(a, Concat(b, c))
  {
  }

  /** `caps'` is at least as long as `caps` and agrees with it below `gi`. */
  predicate Keeps(caps: Caps, caps': Caps, gi: nat)
  {
    |caps| <= |caps'| && forall k :: 0 <= k < gi && k < |caps| ==> caps'[k] == caps[k]
  }

  /** Every hit leaves a suffix of `s` and keeps the caller's slots below `gi`. */
  predicate HitsOk(s: string, caps: Caps, gi: nat, hits: seq<Hit>)
  {
    forall h :: h in hits ==> IsSuffix(h.rest, s) && Keeps(caps, h.caps, gi)
  }

  /** The same, for every hit of a trace. */
  predicate Sound(t: Trace, s: string, caps: Caps, gi: nat)
  {
    HitsOk(s, caps, gi, t.hits)
  }

  /** What a hit of `gen_body(s0, caps0)` at group `id` carries: slot `id`
      holds exactly the prefix of `s0` the body consumed. */
  predicate Captured(t: Trace, s0: string, caps0: Caps, id: nat)
  {
    forall h :: h in t.hits ==>
      IsSuffix(h.rest, s0) && Keeps(caps0, h.caps, id) && id < |h.caps|
      && h.caps[id].Some? && s0 == h.caps[id].value + h.rest
  }

  lemma SoundLift(t: Trace, s': string, caps': Caps, gi': nat, s: string, caps: Caps, gi: nat)
    requires Sound(t, s', caps', gi') && IsSuffix(s', s) && Keeps(caps, caps', gi) && gi <= gi'
    ensures Sound(t, s, caps, gi)
  {
    forall h | h in t.hits
      ensures IsSuffix(h.rest, s) && Keeps(caps, h.caps, gi)
    {
      SuffixTrans(h.rest, s', s);
    }
  }

  /** A copy of `c` extended with empty slots up to length `n`. */
  function Pad(c: Caps, n: nat): (r: Caps)
    ensures |r| == if n > |c| then n else |c|
    ensures forall k :: 0 <= k < |c| ==> r[k] == c[k]
  {
    if n > |c| then c + seq(n - |c|, _ => None) else c
  }

  /** `cc3` in `gen_body`: slot `id` of the padded copy is set to the text the
      body consumed, `s0[:len(s0) - len(out_s)]`. */
  function Tag(h: Hit, s0: string, id: nat): Hit
    requires IsSuffix(h.rest, s0)
  {
    Hit(h.rest, Pad(h.caps, id + 1)[id := Some(s0[..|s0| - |h.rest|])])
  }

  function TagAll(hits: seq<Hit>, s0: string, id: nat): (r: seq<Hit>)
    requires forall h :: h in hits ==> IsSuffix(h.rest, s0)
    ensures forall h' :: h' in r ==> exists h :: h in hits && h' == Tag(h, s0, id)
  {
    if hits == [] then [] else [Tag(hits[0], s0, id)] + TagAll(hits[1..], s0, id)
  }

  lemma TagCaptured(t: Trace, s0: string, caps0: Caps, id: nat)
    requires Sound(t, s0, Pad(caps0, id + 1), id + 1)
    ensures Captured(Trace(TagAll(t.hits, s0, id), t.raised), s0, caps0, id)
  {
    var cc := Pad(caps0, id + 1);
    forall h' | h' in TagAll(t.hits, s0, id)
      ensures IsSuffix(h'.rest, s0) && Keeps(caps0, h'.caps, id) && id < |h'.caps|
              && h'.caps[id].Some? && s0 == h'.caps[id].value + h'.rest
    {
      var h :| h in t.hits && h' == Tag(h, s0, id);
      assert Keeps(cc, h.caps, id + 1);
      assert s0 == s0[..|s0| - |h.rest|] + s0[|s0| - |h.rest|..];
    }
  }

  /** The number of the first group after a group with body `body` at `gi`. */
  function After(body: string, gi: nat): (n: nat)
    ensures n > gi
  {
    gi + 1 + Groups(body)
  }

  /** `gen(s, p, caps, gi)` */
  function Gen(s: string, p: string, caps: Caps, gi: nat): (t: Trace)
    decreases |p|, 2, 0
    ensures Sound(t, s, caps, gi)
  {
    if p == [] then Trace([Hit(s, caps)], None)
    else match Backref(s, p, caps)
      case NoMatch => Empty
      case Matched(s2, p2) =>
        assert IsSuffix(s2, s) by {
          assert s[|s| - |s2|..] == s2;
        }
        var t := Gen(s2, p2, caps, gi);
        SoundLift(t, s2, caps, gi, s, caps, gi);
        t
      case NotBackref =>
        if p[0] == '(' then GroupGen(s, p, caps, gi) else AtomGen(s, p, caps, gi)
  }

  /** `gen` on a pattern that starts with `(`. */
  function GroupGen(s: string, p: string, caps: Caps, gi: nat): (t: Trace)
    requires p != [] && p[0] == '('
    decreases |p|, 1, 0
    ensures Sound(t, s, caps, gi)
  {
    match CloseIndex(p, 0)
    case Err(e) => Trace([], Some(e))
    case Ok(j) => GroupFrom(s, caps, p[1..j], p[j + 1..], gi)
  }

  /** A group with body `body` followed by `rest`, by the quantifier after
      its `)`: `+`, `?` or none. */
  function GroupFrom(s: string, caps: Caps, body: string, rest: string, gi: nat): (t: Trace)
    decreases |body| + |rest| + 2, 0, 0
    ensures Sound(t, s, caps, gi)
  {
    var next := After(body, gi);
    if rest != [] && rest[0] == '+' then PlusTrace(s, caps, body, rest[1..], gi, next)
    else if rest != [] && rest[0] == '?' then
      Concat(Continue(s, caps, gi, GenBody(s, caps, body, gi), rest[1..], next),
             Gen(s, rest[1..], caps, next))
    else Continue(s, caps, gi, GenBody(s, caps, body, gi), rest, next)
  }

  /** `gen_body(s0, caps0)`: every alternative of the body, each numbering
      its groups from `id + 1`, with slot `id` set on every hit. */
  function GenBody(s0: string, caps0: Caps, body: string, id: nat): (t: Trace)
    decreases |body| + 1, 1, 0
    ensures Captured(t, s0, caps0, id)
  {
    PiecesShorter(body);
    AltTraces(s0, caps0, body, Pieces(body), id)
  }

  function AltTraces(s0: string, caps0: Caps, body: string, alts: seq<string>, id: nat): (t: Trace)
    requires forall a :: a in alts ==> |a| <= |body|
    decreases |body| + 1, 0, |alts|
    ensures Captured(t, s0, caps0, id)
  {
    if alts == [] then Empty
    else
      var t0 := Gen(s0, alts[0], Pad(caps0, id + 1), id + 1);
      TagCaptured(t0, s0, caps0, id);
      Concat(Trace(TagAll(t0.hits, s0, id), t0.raised), AltTraces(s0, caps0, body, alts[1..], id))
  }

  /** Every hit of the body, in order, continued with the rest of the pattern
      from group `next` on; then the body's own error, if it raised one. */
  function Continue(s: string, caps: Caps, gi: nat, body: Trace, rest: string, next: nat): (t: Trace)
    requires gi < next && Captured(body, s, caps, gi)
    decreases |rest| + 1, 1, 0
    ensures Sound(t, s, caps, gi)
  {
    Concat(ContinueHits(s, caps, gi, body.hits, rest, next), Trace([], body.raised))
  }

  function ContinueHits(s: string, caps: Caps, gi: nat, hits: seq<Hit>, rest: string, next: nat): (t: Trace)
    requires gi <= next
    requires HitsOk(s, caps, gi, hits)
    decreases |rest| + 1, 0, |hits|
    ensures Sound(t, s, caps, gi)
  {
    if hits == [] then Empty
    else
      var t0 := Gen(hits[0].rest, rest, hits[0].caps, next);
      SoundLift(t0, hits[0].rest, hits[0].caps, next, s, caps, gi);
      Concat(t0, ContinueHits(s, caps, gi, hits[1..], rest, next))
  }

  /** `gen` on a pattern that starts with an atom. */
  function AtomGen(s: string, p: string, caps: Caps, gi: nat): (t: Trace)
    requires p != []
    decreases |p|, 0, 0
    ensures Sound(t, s, caps, gi)
  {
    match NextAtom(p)
    case Err(e) => Trace([], Some(e))
    case Ok((f, rest)) =>
      if f.None? then Empty
      else
        var a := f.value;
        if rest != [] && rest[0] == '+' then
          if s == [] || !Accepts(a, s[0]) then Empty
          else RunTraces(s, caps, rest[1..], gi, RunLength(a, s))
        else if rest != [] && rest[0] == '?' then
          var t0 := if s != [] && Accepts(a, s[0]) then Gen(s[1..], rest[1..], caps, gi) else Empty;
          SoundLift(t0, if s != [] && Accepts(a, s[0]) then s[1..] else s, caps, gi, s, caps, gi);
          Concat(t0, Gen(s, rest[1..], caps, gi))
        else if s == [] || !Accepts(a, s[0]) then Empty
        else
          var t0 := Gen(s[1..], rest, caps, gi);
          SoundLift(t0, s[1..], caps, gi, s, caps, gi);
          t0
  }

  /** The atom `+` runs of length `n`, `n - 1`, ..., 1, each continued with the tail. */
  function RunTraces(s: string, caps: Caps, tail: string, gi: nat, n: nat): (t: Trace)
    requires n <= |s|
    decreases |tail| + 1, 0, n
    ensures Sound(t, s, caps, gi)
  {
    if n == 0 then Empty
    else
      var t0 := Gen(s[n..], tail, caps, gi);
      SoundLift(t0, s[n..], caps, gi, s, caps, gi);
      Concat(t0, RunTraces(s, caps, tail, gi, n - 1))
  }

  // ---------------------------------------------------------------------------
  // Group `+`: the worklist, as the trace it produces

  function Max(a: nat, b: nat): nat
  {
    if a < b then b else a
  }

  /** One more than the longest remainder on the stack; 0 when it is empty. */
  function Weight(stack: seq<Hit>): nat
  {
    if stack == [] then 0 else Max(Weight(stack[..|stack| - 1]), |stack[|stack| - 1].rest| + 1)
  }

  lemma {:induction false} WeightBelow(stack: seq<Hit>, b: nat)
    requires forall h :: h in stack ==> |h.rest| < b
    ensures Weight(stack) <= b
    decreases |stack|
  {
    if stack != [] {
      WeightBelow(stack[..|stack| - 1], b);
    }
  }

  /** The hits `gen_body` found from `out_s` that the worklist pushes: those
      that made progress, `len(out2) != len(out_s)`. */
  function Progress(hits: seq<Hit>, n: nat): (r: seq<Hit>)
    ensures forall h :: h in r <==> h in hits && |h.rest| != n
  {
    if hits == [] then []
    else
      assert hits == hits[..|hits| - 1] + [hits[|hits| - 1]];
      Progress(hits[..|hits| - 1], n) + (if |hits[|hits| - 1].rest| != n then [hits[|hits| - 1]] else [])
  }

  /** The hits pushed after popping `h` make progress and still satisfy the
      stack's invariant. */
  lemma KidsSound(s: string, caps: Caps, gi: nat, h: Hit, more: Trace)
    requires IsSuffix(h.rest, s) && Keeps(caps, h.caps, gi)
    requires Captured(more, h.rest, h.caps, gi)
    ensures forall k :: k in Progress(more.hits, |h.rest|) ==>
      IsSuffix(k.rest, s) && Keeps(caps, k.caps, gi) && |k.rest| < |h.rest|
  {
    forall k | k in Progress(more.hits, |h.rest|)
      ensures IsSuffix(k.rest, s) && Keeps(caps, k.caps, gi) && |k.rest| < |h.rest|
    {
      SuffixTrans(k.rest, h.rest, s);
    }
  }

  /** The group `+` case: all hits of a first iteration of the body become
      the stack (an error there raises before anything is yielded), then the loop. */
  function PlusTrace(s: string, caps: Caps, body: string, rest2: string, gi: nat, next: nat): (t: Trace)
    requires gi < next
    decreases |body| + |rest2| + 2, |s| + 2, 0
    ensures Sound(t, s, caps, gi)
  {
    var first := GenBody(s, caps, body, gi);
    if first.raised.Some? then Trace([], first.raised)
    else
      WeightBelow(first.hits, |s| + 1);
      Process(s, caps, body, rest2, gi, next, first.hits)
  }

  /** The worklist loop run on `stack`: pop the top `h`, yield its
      continuation, then (if `h` consumed something of `s`) push the hits of
      one more iteration of the body that made progress; the pushed hits are
      all processed before what lay below `h`. */
  function Process(s: string, caps: Caps, body: string, rest2: string, gi: nat, next: nat,
                   stack: seq<Hit>): (t: Trace)
    requires gi < next
    requires HitsOk(s, caps, gi, stack)
    decreases |body| + |rest2| + 2, Weight(stack), |stack|
    ensures Sound(t, s, caps, gi)
  {
    if stack == [] then Empty
    else
      var h := stack[|stack| - 1];
      var below := stack[..|stack| - 1];
      var cont := Gen(h.rest, rest2, h.caps, next);
      SoundLift(cont, h.rest, h.caps, next, s, caps, gi);
      if |h.rest| < |s| then
        var more := GenBody(h.rest, h.caps, body, gi);
        var kids := Progress(more.hits, |h.rest|);
        KidsSound(s, caps, gi, h, more);
        WeightBelow(kids, |h.rest|);
        Concat(cont, Concat(Trace([], more.raised),
               Concat(Process(s, caps, body, rest2, gi, next, kids),
                      Process(s, caps, body, rest2, gi, next, below))))
      else
        Concat(cont, Process(s, caps, body, rest2, gi, next, below))
  }
}
