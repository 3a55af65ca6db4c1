/** `try_backref`: a numeric backreference at the start of the pattern. */
module Backrefs {
  import opened Common

  /** `str.isdigit`, for the ASCII digits. */
  predicate IsDigit(c: char)
  {
    '0' <= c <= '9'
  }

  /** How many digits `q` starts with. */
  function DigitRun(q: string): (n: nat)
    decreases |q|
    ensures n <= |q|
    ensures forall k :: 0 <= k < n ==> IsDigit(q[k])
    ensures n < |q| ==> !IsDigit(q[n])
  {
    if q == [] || !IsDigit(q[0]) then 0 else 1 + DigitRun(q[1..])
  }

  /** The value of a string of decimal digits. */
  function Decimal(ds: string): nat
    requires forall k :: 0 <= k < |ds| ==> IsDigit(ds[k])
    decreases |ds|
  {
    if ds == [] then 0
    else
      assert IsDigit(ds[|ds| - 1]);
      10 * Decimal(ds[..|ds| - 1]) + (ds[|ds| - 1] as int - '0' as int)
  }

  predicate StartsWithBackref(p: string)
  {
    |p| >= 2 && p[0] == '\\' && IsDigit(p[1])
  }

  /** One past the last digit of the reference. */
  function RefEnd(p: string): (j: nat)
    requires StartsWithBackref(p)
    ensures 2 <= j <= |p| && (forall k :: 1 <= k < j ==> IsDigit(p[k])) && (j < |p| ==> !IsDigit(p[j]))
  {
    1 + DigitRun(p[1..])
  }

  /** The group number `\N` names (`\1` is group 1, read from slot 0). */
  function GroupNumber(p: string): nat
    requires StartsWithBackref(p)
  {
    Decimal(p[1..RefEnd(p)])
  }

  /** `None`, `False`, or the pair `(s2, p2)` of `try_backref`. */
  datatype BackrefResult = NotBackref | NoMatch | Matched(s2: string, p2: string)

  /** What `try_backref(s, p, caps)` returns. */
  function Backref(s: string, p: string, caps: Caps): (r: BackrefResult)
    ensures r.NotBackref? <==> !StartsWithBackref(p)
    ensures r.NoMatch? <==> (StartsWithBackref(p) &&
      var n := GroupNumber(p); n == 0 || n > |caps| || caps[n - 1].None? || !IsPrefix(caps[n - 1].value, s))
    ensures r.Matched? ==>
      var n, j := GroupNumber(p), RefEnd(p);
      1 <= n <= |caps| && caps[n - 1].Some? && s == caps[n - 1].value + r.s2
      && p == p[..j] + r.p2 && (r.p2 == [] || !IsDigit(r.p2[0]))
  {
    if !StartsWithBackref(p) then NotBackref
    else
      var j := RefEnd(p);
      var idx := Decimal(p[1..j]) - 1;
      if idx < 0 || idx >= |caps| || caps[idx].None? then NoMatch
      else
        var g := caps[idx].value;
        if !IsPrefix(g, s) then NoMatch
        else
          assert s == g + s[|g|..];
          Matched(s[|g|..], p[j..])
  }

  method TryBackref(s: string, p: string, caps: Caps) returns (r: BackrefResult)
    ensures r == Backref(s, p, caps)
  {
    if !(|p| >= 2 && p[0] == '\\' && IsDigit(p[1])) {
      return NotBackref;
    }
    var j := 2;
    while j < |p| && IsDigit(p[j])
      invariant 2 <= j <= |p|
      invariant forall k :: 1 <= k < j ==> IsDigit(p[k])
      decreases |p| - j
    {
      j := j + 1;
    }
    assert j == RefEnd(p);
    var idx := Decimal(p[1..j]) - 1;
    if idx < 0 || idx >= |caps| || caps[idx].None? {
      return NoMatch;
    }
    var g := caps[idx].value;
    if !(|g| <= |s| && s[..|g|] == g) {
      return NoMatch;
    }
    return Matched(s[|g|..], p[j..]);
  }
}
