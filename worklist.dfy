/** The group `+` case as the source runs it: an explicit stack that is
    popped and pushed in a `while` loop. */
module Worklist {
  import opened Common
  import opened Engine

  /** How many times the loop pops when it starts from `stack`. */
  ghost function Steps(s: string, body: string, gi: nat, stack: seq<Hit>): nat
    decreases Weight(stack), |stack|
  {
    if stack == [] then 0
    else
      var h := stack[|stack| - 1];
      var below := stack[..|stack| - 1];
      if |h.rest| < |s| then
        var more := GenBody(h.rest, h.caps, body, gi);
        var kids := Progress(more.hits, |h.rest|);
        assert forall k :: k in kids ==> |k.rest| < |h.rest|;
        WeightBelow(kids, |h.rest|);
        1 + Steps(s, body, gi, kids) + Steps(s, body, gi, below)
      else 1 + Steps(s, body, gi, below)
  }

  /** Pushing `B` on top of `A` processes all of `B` first (LIFO). */
  lemma {:induction false} ProcessAppend(s: string, caps: Caps, body: string, rest2: string, gi: nat, next: nat,
                                         a: seq<Hit>, b: seq<Hit>)
    requires gi < next && HitsOk(s, caps, gi, a) && HitsOk(s, caps, gi, b)
    ensures Process(s, caps, body, rest2, gi, next, a + b)
         == Concat(Process(s, caps, body, rest2, gi, next, b), Process(s, caps, body, rest2, gi, next, a))
    ensures Steps(s, body, gi, a + b) == Steps(s, body, gi, b) + Steps(s, body, gi, a)
    decreases |b|
  {
    if b == [] {
      assert a + b == a;
    } else {
      var h := b[|b| - 1];
      var b' := b[..|b| - 1];
      assert (a + b)[..|a + b| - 1] == a + b';
      assert (a + b)[|a + b| - 1] == h;
      ProcessAppend(s, caps, body, rest2, gi, next, a, b');
      var pa := Process(s, caps, body, rest2, gi, next, a);
      var pb' := Process(s, caps, body, rest2, gi, next, b');
      var cont := Gen(h.rest, rest2, h.caps, next);
      if |h.rest| < |s| {
        var more := GenBody(h.rest, h.caps, body, gi);
        var kids := Process(s, caps, body, rest2, gi, next, Progress(more.hits, |h.rest|));
        var e := Trace([], more.raised);
        ConcatAssoc(kids, pb', pa);
        ConcatAssoc(e, Concat(kids, pb'), pa);
        ConcatAssoc(cont, Concat(e, Concat(kids, pb')), pa);
      } else {
        ConcatAssoc(cont, pb', pa);
      }
    }
  }

  /** One pop of the loop: the popped hit's continuation comes first, then
      (if it consumed part of `s`) the error of the next body iteration, then
      the new stack, with the progressing hits on top. */
  lemma Pop(s: string, caps: Caps, body: string, rest2: string, gi: nat, next: nat, stack: seq<Hit>)
    requires gi < next && stack != [] && HitsOk(s, caps, gi, stack)
    ensures var h, below := stack[|stack| - 1], stack[..|stack| - 1];
      var cont := Gen(h.rest, rest2, h.caps, next);
      var more := GenBody(h.rest, h.caps, body, gi);
      var kids := Progress(more.hits, |h.rest|);
      HitsOk(s, caps, gi, below) && HitsOk(s, caps, gi, below + kids) &&
      if |h.rest| < |s| then
        Process(s, caps, body, rest2, gi, next, stack)
          == Concat(cont, Concat(Trace([], more.raised), Process(s, caps, body, rest2, gi, next, below + kids)))
        && Steps(s, body, gi, below + kids) < Steps(s, body, gi, stack)
      else
        Process(s, caps, body, rest2, gi, next, stack) == Concat(cont, Process(s, caps, body, rest2, gi, next, below))
        && Steps(s, body, gi, below) < Steps(s, body, gi, stack)
  {
    var h, below := stack[|stack| - 1], stack[..|stack| - 1];
    var more := GenBody(h.rest, h.caps, body, gi);
    var kids := Progress(more.hits, |h.rest|);
    assert HitsOk(s, caps, gi, below);
    KidsSound(s, caps, gi, h, more);
    assert HitsOk(s, caps, gi, kids);
    ProcessAppend(s, caps, body, rest2, gi, next, below, kids);
  }

  /** Yielding `a` after `acc`: a raise ends the generator there. */
  lemma AccRaise(acc: seq<Hit>, a: Trace, x: Trace)
    requires a.raised.Some?
    ensures Concat(Trace(acc, None), Concat(a, x)) == Trace(acc + a.hits, a.raised)
  {
  }

  /** Yielding `a` after `acc`: when `a` returns, what follows is still to come. */
  lemma AccPass(acc: seq<Hit>, a: Trace, x: Trace)
    requires a.raised.None?
    ensures Concat(Trace(acc, None), Concat(a, x)) == Concat(Trace(acc + a.hits, None), x)
  {
  }

  /** The inner `for` loop: push, in order, the hits that made progress. */
  method PushProgress(below: seq<Hit>, hits: seq<Hit>, n: nat) returns (stack: seq<Hit>)
    ensures stack == below + Progress(hits, n)
  {
    stack := below;
    for k := 0 to |hits|
      invariant stack == below + Progress(hits[..k], n)
    {
      ghost var pre := hits[..k + 1];
      assert pre[..|pre| - 1] == hits[..k] && pre[|pre| - 1] == hits[k];
      if |hits[k].rest| != n {
        stack := stack + [hits[k]];
      }
    }
    assert hits[..|hits|] == hits;
  }

  /** One iteration of the worklist loop: pop the top hit, yield its
      continuation into `acc`, then push the progressing hits of one more
      iteration of the body. `raised` is the error that ends the loop, if any. */
  method PopOnce(s: string, caps: Caps, body: string, rest2: string, gi: nat, next: nat,
                 stack: seq<Hit>, acc: seq<Hit>)
    returns (stack': seq<Hit>, acc': seq<Hit>, raised: Option<Error>)
    requires gi < next && stack != [] && HitsOk(s, caps, gi, stack)
    ensures var before := Concat(Trace(acc, None), Process(s, caps, body, rest2, gi, next, stack));
      if raised.Some? then before == Trace(acc', raised)
      else
        HitsOk(s, caps, gi, stack') && Steps(s, body, gi, stack') < Steps(s, body, gi, stack)
        && before == Concat(Trace(acc', None), Process(s, caps, body, rest2, gi, next, stack'))
  {
    Pop(s, caps, body, rest2, gi, next, stack);
    var h := stack[|stack| - 1];
    var below := stack[..|stack| - 1];
    var cont := Gen(h.rest, rest2, h.caps, next);
    ghost var next_run := GenBody(h.rest, h.caps, body, gi);
    ghost var kids := Progress(next_run.hits, |h.rest|);
    ghost var x := if |h.rest| < |s| then Concat(Trace([], next_run.raised), Process(s, caps, body, rest2, gi, next, below + kids))
                   else Process(s, caps, body, rest2, gi, next, below);
    assert Process(s, caps, body, rest2, gi, next, stack) == Concat(cont, x);
    if cont.raised.Some? {
      AccRaise(acc, cont, x);
      return stack, acc + cont.hits, cont.raised;
    }
    AccPass(acc, cont, x);
    acc' := acc + cont.hits;
    if |h.rest| < |s| {
      var more := GenBody(h.rest, h.caps, body, gi);
      if more.raised.Some? {
        AccRaise(acc', Trace([], more.raised), Process(s, caps, body, rest2, gi, next, below + kids));
        assert acc' + [] == acc';
        return stack, acc', more.raised;
      }
      AccPass(acc', Trace([], more.raised), Process(s, caps, body, rest2, gi, next, below + kids));
      assert acc' + [] == acc';
      stack' := PushProgress(below, more.hits, |h.rest|);
    } else {
      stack' := below;
    }
    raised := None;
  }

  /** The loop of the group `+` case, yielding into `acc`. */
  method GroupPlus(s: string, caps: Caps, body: string, rest2: string, gi: nat, next: nat)
    returns (t: Trace)
    requires gi < next
    ensures t == PlusTrace(s, caps, body, rest2, gi, next)
  {
    var first := GenBody(s, caps, body, gi);
    if first.raised.Some? {
      return Trace([], first.raised);
    }
    var stack := first.hits;
    var acc: seq<Hit> := [];
    ghost var total := PlusTrace(s, caps, body, rest2, gi, next);
    assert Concat(Trace(acc, None), Process(s, caps, body, rest2, gi, next, stack)) == total;
    while stack != []
      invariant HitsOk(s, caps, gi, stack)
      invariant Concat(Trace(acc, None), Process(s, caps, body, rest2, gi, next, stack)) == total
      decreases Steps(s, body, gi, stack)
    {
      var raised;
      stack, acc, raised := PopOnce(s, caps, body, rest2, gi, next, stack, acc);
      if raised.Some? {
        return Trace(acc, raised);
      }
    }
    return Trace(acc, None);
  }
}
