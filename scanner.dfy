/** The three scanners over the pattern text (`find_close`, `split_alts`,
    `count_groups`). They share one little state machine: a paren depth, an
    "inside [...]" flag and an "escape pending" flag. `count_groups` uses
    only the two flags: it counts every structural `(`, at any depth. */
module Scanner {
  import opened Common

  datatype State = State(depth: int, inClass: bool, esc: bool)

  const Init: State := State(0, false, false)

  /** `c` read in state `st` is structural: not escaped, not a backslash and
      not inside a bracket class. */
  predicate Plain(st: State, c: char)
  {
    !st.esc && c != '\\' && !st.inClass
  }

  /** One character of the scanners' loop. */
  function Step(st: State, c: char): State
  {
    if st.esc then st.(esc := false)
    else if c == '\\' then st.(esc := true)
    else if st.inClass then (if c == ']' then st.(inClass := false) else st)
    else if c == '[' then st.(inClass := true)
    else if c == '(' then st.(depth := st.depth + 1)
    else if c == ')' then st.(depth := st.depth - 1)
    else st
  }

  /** The state after reading all of `q` from `st`. */
  function Scan(st: State, q: string): State
    decreases |q|
  {
    if q == [] then st else Step(Scan(st, q[..|q| - 1]), q[|q| - 1])
  }

  // ---------------------------------------------------------------------------
  // find_close

  /** Scanning from `i`, the `)` at `m` brings the depth from 1 down to 0. */
  predicate ClosesAt(p: string, i: nat, m: nat)
    requires i <= m < |p|
  {
    var st := Scan(Init, p[i..m]);
    Plain(st, p[m]) && p[m] == ')' && st.depth == 1
  }

  /** The scan of `find_close` from `k`, having read `p[i..k]` into `st`. */
  function CloseFrom(p: string, i: nat, k: nat, st: State): (r: Result<nat>)
    requires i <= k <= |p| && st == Scan(Init, p[i..k])
    decreases |p| - k
    ensures r.Ok? ==> k <= r.value < |p| && ClosesAt(p, i, r.value)
                      && forall m :: k <= m < r.value ==> !ClosesAt(p, i, m)
    ensures r.Err? ==> r.error == Unbalanced && forall m :: k <= m < |p| ==> !ClosesAt(p, i, m)
  {
    if k == |p| then Err(Unbalanced)
    else if Plain(st, p[k]) && p[k] == ')' && st.depth == 1 then Ok(k)
    else
      assert p[i..k + 1][..k - i] == p[i..k];
      CloseFrom(p, i, k + 1, Step(st, p[k]))
  }

  /** What `find_close(p, i)` returns: the first `)` at which the depth
      counted from `i` reaches 0, or the "unbalanced ()" error. */
  function CloseIndex(p: string, i: nat): (r: Result<nat>)
    ensures r.Ok? ==> i <= r.value < |p| && p[r.value] == ')' && ClosesAt(p, i, r.value)
                      && forall m :: i <= m < r.value ==> !ClosesAt(p, i, m)
    ensures r.Err? ==> r == Err(Unbalanced) && forall m :: i <= m < |p| ==> !ClosesAt(p, i, m)
  {
    if i > |p| then Err(Unbalanced) else CloseFrom(p, i, i, Init)
  }

  method FindClose(p: string, i: nat) returns (r: Result<nat>)
    ensures r == CloseIndex(p, i)
  {
    var depth, inClass, esc := 0, false, false;
    var k := i;
    while k < |p|
      invariant i <= k && (i <= |p| ==> k <= |p|)
      invariant i <= |p| ==> State(depth, inClass, esc) == Scan(Init, p[i..k])
      invariant i <= |p| ==> CloseFrom(p, i, k, State(depth, inClass, esc)) == CloseIndex(p, i)
      decreases |p| - k
    {
      assert p[i..k + 1][..k - i] == p[i..k];
      var c := p[k];
      if esc {
        esc := false;
      } else if c == '\\' {
        esc := true;
      } else if inClass {
        if c == ']' {
          inClass := false;
        }
      } else {
        if c == '[' {
          inClass := true;
        } else if c == '(' {
          depth := depth + 1;
        } else if c == ')' {
          depth := depth - 1;
          if depth == 0 {
            return Ok(k);
          }
        }
      }
      k := k + 1;
    }
    return Err(Unbalanced);
  }

  // ---------------------------------------------------------------------------
  // split_alts

  /** A `|` that `split_alts` cuts at: structural and at depth 0. */
  predicate TopBar(st: State, c: char)
  {
    Plain(st, c) && c == '|' && st.depth == 0
  }

  predicate TopBarAt(q: string, m: nat)
    requires m < |q|
  {
    TopBar(Scan(Init, q[..m]), q[m])
  }

  /** What `split_alts(q)` returns. */
  function Pieces(q: string): (r: seq<string>)
    decreases |q|
    ensures |r| >= 1
  {
    if q == [] then [""]
    else
      var ps := Pieces(q[..|q| - 1]);
      var c := q[|q| - 1];
      if TopBar(Scan(Init, q[..|q| - 1]), c) then ps + [""]
      else ps[..|ps| - 1] + [ps[|ps| - 1] + [c]]
  }

  /** `"|".join(ps)` */
  function Join(ps: seq<string>): string
    requires |ps| >= 1
  {
    if |ps| == 1 then ps[0] else Join(ps[..|ps| - 1]) + "|" + ps[|ps| - 1]
  }

  /** The positions in `Join(ps)` of the bars put between the pieces. */
  function Seps(ps: seq<string>): set<nat>
    requires |ps| >= 1
  {
    if |ps| == 1 then {} else Seps(ps[..|ps| - 1]) + {|Join(ps[..|ps| - 1])|}
  }

  lemma JoinSnoc(ps: seq<string>, c: char)
    requires |ps| >= 1
    ensures Join(ps[..|ps| - 1] + [ps[|ps| - 1] + [c]]) == Join(ps) + [c]
  {
    var init := ps[..|ps| - 1];
    var ps' := init + [ps[|ps| - 1] + [c]];
    assert ps'[..|ps'| - 1] == init;
  }

  lemma SepsSnoc(ps: seq<string>, c: char)
    requires |ps| >= 1
    ensures Seps(ps[..|ps| - 1] + [ps[|ps| - 1] + [c]]) == Seps(ps)
  {
    var init := ps[..|ps| - 1];
    var ps' := init + [ps[|ps| - 1] + [c]];
    assert ps'[..|ps'| - 1] == init;
  }

  /** Reading a longer text does not change what was read at an earlier position. */
  lemma PrefixStable(q: string, q': string, m: nat)
    requires q' <= q && m < |q'|
    ensures TopBarAt(q, m) == TopBarAt(q', m) && OpensAt(q, m) == OpensAt(q', m)
  {
    assert q[..m] == q'[..m];
  }

  /** The last character either starts a new piece or extends the last one:
      either way, joining the pieces gives one more character... */
  lemma PiecesSnocJoin(q: string)
    requires q != []
    ensures Join(Pieces(q)) == Join(Pieces(q[..|q| - 1])) + [q[|q| - 1]]
  {
    var q', c := q[..|q| - 1], q[|q| - 1];
    var ps := Pieces(q');
    if TopBar(Scan(Init, q'), c) {
      var ps' := ps + [""];
      assert Pieces(q) == ps';
      assert ps'[..|ps'| - 1] == ps && ps'[|ps'| - 1] == "";
      assert Join(ps') == Join(ps) + "|" + "";
    } else {
      assert Pieces(q) == ps[..|ps| - 1] + [ps[|ps| - 1] + [c]];
      JoinSnoc(ps, c);
    }
  }

  /** ... and the bar positions before it stay, with one more when it is a
      top-level bar. */
  lemma PiecesSnocSeps(q: string)
    requires q != []
    ensures var q' := q[..|q| - 1];
      Seps(Pieces(q)) == Seps(Pieces(q')) + (if TopBarAt(q, |q'|) then {|Join(Pieces(q'))|} else {})
  {
    var q', c := q[..|q| - 1], q[|q| - 1];
    var ps := Pieces(q');
    assert TopBarAt(q, |q'|) == TopBar(Scan(Init, q'), c);
    if TopBar(Scan(Init, q'), c) {
      var ps' := ps + [""];
      assert Pieces(q) == ps';
      assert Seps(ps') == Seps(ps) + {|Join(ps)|} by {
        assert ps'[..|ps'| - 1] == ps;
      }
    } else {
      assert Pieces(q) == ps[..|ps| - 1] + [ps[|ps| - 1] + [c]];
      assert Seps(Pieces(q)) == Seps(ps) by {
        SepsSnoc(ps, c);
      }
      assert Seps(ps) + {} == Seps(ps);
    }
  }

  /** Joining the pieces with `|` gives back the pattern. */
  lemma {:induction false} PiecesJoin(q: string)
    ensures Join(Pieces(q)) == q
    decreases |q|
  {
    if q != [] {
      var q', c := q[..|q| - 1], q[|q| - 1];
      assert Join(Pieces(q')) == q' by {
        PiecesJoin(q');
      }
      assert Join(Pieces(q)) == Join(Pieces(q')) + [c] by {
        PiecesSnocJoin(q);
      }
      assert q == q' + [c];
    }
  }

  /** The bars put back between the pieces are exactly the top-level bars of
      the pattern: `split_alts` cuts at those and nowhere else. */
  lemma {:induction false} PiecesCuts(q: string)
    ensures forall m: nat :: m in Seps(Pieces(q)) ==> m < |q|
    ensures forall m: nat :: m < |q| ==> (m in Seps(Pieces(q)) <==> TopBarAt(q, m))
    decreases |q|
  {
    if q != [] {
      var q' := q[..|q| - 1];
      var older, now := Seps(Pieces(q')), Seps(Pieces(q));
      PiecesCuts(q');
      PiecesSnocSeps(q);
      PiecesJoin(q');
      assert |Join(Pieces(q'))| == |q| - 1;
      assert now == older + (if TopBarAt(q, |q| - 1) then {|q| - 1} else {});
      CutsStep(q, older, now);
    }
  }

  lemma CutsStep(q: string, older: set<nat>, now: set<nat>)
    requires q != []
    requires forall m: nat :: m in older ==> m < |q| - 1
    requires forall m: nat :: m < |q| - 1 ==> (m in older <==> TopBarAt(q[..|q| - 1], m))
    requires now == older + (if TopBarAt(q, |q| - 1) then {|q| - 1} else {})
    ensures forall m: nat :: m in now ==> m < |q|
    ensures forall m: nat :: m < |q| ==> (m in now <==> TopBarAt(q, m))
  {
    forall m: nat | m < |q| - 1
      ensures TopBarAt(q, m) == TopBarAt(q[..|q| - 1], m)
    {
      PrefixStable(q, q[..|q| - 1], m);
    }
  }

  lemma {:induction false} JoinLength(ps: seq<string>)
    requires |ps| >= 1
    ensures forall k :: 0 <= k < |ps| ==> |ps[k]| + |ps| - 1 <= |Join(ps)|
    decreases |ps|
  {
    if |ps| > 1 {
      JoinLength(ps[..|ps| - 1]);
    }
  }

  /** A pattern without `|` is a single alternative. */
  lemma {:induction false} NoBarOnePiece(q: string)
    requires '|' !in q
    ensures Pieces(q) == [q]
    decreases |q|
  {
    if q != [] {
      var q' := q[..|q| - 1];
      assert '|' !in q' by {
        forall k | 0 <= k < |q'| ensures q'[k] != '|' { assert q'[k] == q[k]; }
      }
      NoBarOnePiece(q');
      assert q == q' + [q[|q| - 1]];
    }
  }

  /** Every piece is no longer than the pattern, and strictly shorter when
      there is more than one. */
  lemma PiecesShorter(q: string)
    ensures forall a :: a in Pieces(q) ==> |a| <= |q|
    ensures |Pieces(q)| > 1 ==> forall a :: a in Pieces(q) ==> |a| < |q|
  {
    PiecesJoin(q);
    JoinLength(Pieces(q));
  }

  /** One character of `split_alts`: a top-level bar closes the current
      piece, anything else extends it. */
  lemma PiecesStep(p: string, i: nat, out: seq<string>, start: nat)
    requires start <= i < |p| && out + [p[start..i]] == Pieces(p[..i])
    ensures Scan(Init, p[..i + 1]) == Step(Scan(Init, p[..i]), p[i])
    ensures TopBar(Scan(Init, p[..i]), p[i]) ==> (out + [p[start..i]]) + [p[i + 1..i + 1]] == Pieces(p[..i + 1])
    ensures !TopBar(Scan(Init, p[..i]), p[i]) ==> out + [p[start..i + 1]] == Pieces(p[..i + 1])
  {
    var q := p[..i + 1];
    assert q[..|q| - 1] == p[..i] && q[|q| - 1] == p[i];
    assert p[start..i + 1] == p[start..i] + [p[i]];
    var ps := Pieces(p[..i]);
    assert ps[..|ps| - 1] == out && ps[|ps| - 1] == p[start..i];
    if TopBar(Scan(Init, p[..i]), p[i]) {
      assert Pieces(q) == ps + [""];
      assert p[i + 1..i + 1] == "";
    } else {
      assert Pieces(q) == ps[..|ps| - 1] + [ps[|ps| - 1] + [p[i]]];
    }
  }

  method SplitAlts(p: string) returns (out: seq<string>)
    ensures out == Pieces(p)
  {
    out := [];
    var start := 0;
    var depth, inClass, esc := 0, false, false;
    for i := 0 to |p|
      invariant start <= i
      invariant State(depth, inClass, esc) == Scan(Init, p[..i])
      invariant out + [p[start..i]] == Pieces(p[..i])
    {
      PiecesStep(p, i, out, start);
      var c := p[i];
      if esc {
        esc := false;
        continue;
      }
      if c == '\\' {
        esc := true;
        continue;
      }
      if inClass {
        if c == ']' {
          inClass := false;
        }
        continue;
      }
      if c == '[' {
        inClass := true;
        continue;
      }
      if c == '(' {
        depth := depth + 1;
        continue;
      }
      if c == ')' {
        depth := depth - 1;
        continue;
      }
      if c == '|' && depth == 0 {
        out := out + [p[start..i]];
        start := i + 1;
      }
    }
    assert p[..|p|] == p;
    out := out + [p[start..]];
  }

  // ---------------------------------------------------------------------------
  // count_groups

  /** A `(` that `count_groups` counts: structural (its depth does not matter). */
  predicate Opens(st: State, c: char)
  {
    Plain(st, c) && c == '('
  }

  predicate OpensAt(q: string, m: nat)
    requires m < |q|
  {
    Opens(Scan(Init, q[..m]), q[m])
  }

  /** What `count_groups(q)` returns: at most one group per character, and
      none in a pattern without `(`. */
  function Groups(q: string): (n: nat)
    decreases |q|
    ensures n <= |q|
    ensures '(' !in q ==> n == 0
  {
    if q == [] then 0
    else Groups(q[..|q| - 1]) + (if Opens(Scan(Init, q[..|q| - 1]), q[|q| - 1]) then 1 else 0)
  }

  /** The positions of the `(` that open a group. */
  function Openings(q: string): set<nat>
  {
    set m: nat | m < |q| && OpensAt(q, m)
  }

  lemma OpeningsSnoc(q: string)
    requires q != []
    ensures Openings(q) == Openings(q[..|q| - 1]) + (if OpensAt(q, |q| - 1) then {|q| - 1} else {})
  {
    var q' := q[..|q| - 1];
    forall m: nat | m < |q'|
      ensures OpensAt(q, m) == OpensAt(q', m)
    {
      PrefixStable(q, q', m);
    }
  }

  /** `count_groups` counts exactly the unescaped `(` outside brackets. */
  lemma {:induction false} GroupsCountsOpenings(q: string)
    ensures Groups(q) == |Openings(q)|
    decreases |q|
  {
    if q != [] {
      var q' := q[..|q| - 1];
      GroupsCountsOpenings(q');
      OpeningsSnoc(q);
      assert Groups(q) == Groups(q') + (if OpensAt(q, |q'|) then 1 else 0);
      assert |q'| !in Openings(q');
    }
  }

  method CountGroups(p: string) returns (n: nat)
    ensures n == Groups(p)
  {
    n := 0;
    var inClass, esc := false, false;
    for i := 0 to |p|
      invariant inClass == Scan(Init, p[..i]).inClass && esc == Scan(Init, p[..i]).esc
      invariant n == Groups(p[..i])
    {
      assert p[..i + 1][..i] == p[..i];
      var c := p[i];
      if esc {
        esc := false;
        continue;
      }
      if c == '\\' {
        esc := true;
        continue;
      }
      if inClass {
        if c == ']' {
          inClass := false;
        }
        continue;
      }
      if c == '[' {
        inClass := true;
        continue;
      }
      if c == '(' {
        n := n + 1;
      }
    }
    assert p[..|p|] == p;
  }
}
