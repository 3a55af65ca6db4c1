/** The expectations of the program's own test suite that the engine meets,
    proved about the model, step by step along the pattern. */
module Samples {
  import opened Common
  import opened Scanner
  import opened Atoms
  import opened Engine
  import opened Properties
  import opened Grep

  /** An unanchored pattern with a hit from offset 0 matches. */
  lemma HitAtStart(s: string, p: string)
    requires |Pieces(p)| == 1 && !StartsAnchored(p) && !EndsAnchored(p)
    requires Gen(s, p, [], 0).hits != []
    ensures MatchSpec(s, p) == Ok(true)
  {
    var t := Gen(s, p, [], 0);
    assert t.hits[0] in t.hits && Qualifies(t.hits[0], false);
    assert AtOffset(s, p, 0, false) == Ok(true);
  }

  /** An unanchored pattern with no hit at any offset does not match. */
  lemma MissEverywhere(s: string, p: string)
    requires |Pieces(p)| == 1 && !StartsAnchored(p) && !EndsAnchored(p)
    requires forall j :: 0 <= j <= |s| ==> AtOffset(s, p, j, false) == Ok(false)
    ensures MatchSpec(s, p) == Ok(false)
  {
    assert MatchSpec(s, p) == TryOffsets(s, p, 0, false);
  }

  const Done: Trace := Trace([Hit("", [])], None)

  /** An offset whose character is not the pattern's leading literal has no hit. */
  lemma MissAt(s: string, p: string, j: nat, needEmpty: bool)
    requires p != [] && Ordinary(p[0]) && (|p| == 1 || (p[1] != '+' && p[1] != '?'))
    requires j <= |s| && (j == |s| || s[j] != p[0])
    ensures AtOffset(s, p, j, needEmpty) == Ok(false)
  {
    LiteralStep(s[j..], p, [], 0);
    assert s[j..] == [] || s[j..][0] != p[0];
  }

  /** `colou?r` matches `color`: the `u?` takes its empty branch. */
  lemma ColorMatches()
    ensures MatchSpec("color", "colou?r") == Ok(true)
  {
    var s, p := "color", "colou?r";
    ColoHead(s);
    OptU("r");
    var s4, p4 := "r", "u?r";
    assert s4[1..] == [] && p4[3..] == [];
    LiteralStep(s4, p4[2..], [], 0);
    assert Gen(s, p, [], 0) == Done;
    NoBarOnePiece(p);
    HitAtStart(s, p);
  }

  /** `colou?r` matches `colour`: the `u?` takes its `u` first. */
  lemma ColourMatches()
    ensures MatchSpec("colour", "colou?r") == Ok(true)
  {
    var s, p := "colour", "colou?r";
    ColoHead(s);
    OptU("ur");
    var s5, p5 := "r", "r";
    LiteralStep(s5, p5, [], 0);
    assert s5[1..] == [] && p5[1..] == [];
    assert Gen(s5, p5, [], 0) == Done;
    assert Gen(s, p, [], 0).hits != [];
    NoBarOnePiece(p);
    HitAtStart(s, p);
  }

  /** `colo` spells itself out, leaving `u?r`. */
  lemma ColoHead(s: string)
    requires |s| >= 4 && s[0] == 'c' && s[1] == 'o' && s[2] == 'l' && s[3] == 'o'
    ensures Gen(s, "colou?r", [], 0) == Gen(s[4..], "u?r", [], 0)
  {
    var p := "colou?r";
    assert Spelled(s, p, 4) by {
      forall i | 0 <= i < 4 ensures PlainAt(s, p, i) {
        assert i == 0 || i == 1 || i == 2 || i == 3;
      }
    }
    LiteralRun(s, p, [], 0, 4);
    assert p[4..] == "u?r";
  }

  /** `u?` tries one `u`, then none. */
  lemma OptU(s: string)
    ensures Gen(s, "u?r", [], 0) ==
      Concat(if s != [] && s[0] == 'u' then Gen(s[1..], "r", [], 0) else Empty, Gen(s, "r", [], 0))
  {
    var p := "u?r";
    OptLiteralStep(s, p, [], 0);
    assert p[2..] == "r";
  }

  /** `a+` matches `aaa`, trying the whole run first. */
  lemma PlusMatches()
    ensures MatchSpec("aaa", "a+") == Ok(true)
  {
    var s, p := "aaa", "a+";
    assert AtomCase(p) && AfterAtom(p) == "+";
    var a := AtomOf(p);
    assert forall ch :: Accepts(a, ch) <==> ch == 'a';
    assert RunLength(a, s) == 3;
    AtomPlus(s, p, [], 0);
    assert s[3..] == [] && AfterAtom(p)[1..] == [];
    assert Gen(s[3..], AfterAtom(p)[1..], [], 0) == Done;
    assert Gen(s, p, [], 0).hits != [];
    NoBarOnePiece(p);
    HitAtStart(s, p);
  }

  /** `[^x]yz` matches `ayz`. */
  lemma NegatedClassMatches()
    ensures MatchSpec("ayz", "[^x]yz") == Ok(true)
  {
    var s, p := "ayz", "[^x]yz";
    NegatedClassStep();
    var s1, p1 := "yz", "yz";
    assert Spelled(s1, p1, 2) by {
      forall i | 0 <= i < 2 ensures PlainAt(s1, p1, i) {
        assert i == 0 || i == 1;
      }
    }
    LiteralRun(s1, p1, [], 0, 2);
    assert s1[2..] == [] && p1[2..] == [];
    assert Gen(s, p, [], 0) == Done;
    NoBarOnePiece(p);
    HitAtStart(s, p);
  }

  /** `[^x]` takes the `a`. */
  lemma NegatedClassStep()
    ensures Gen("ayz", "[^x]yz", [], 0) == Gen("yz", "yz", [], 0)
  {
    var s, p := "ayz", "[^x]yz";
    assert p[3] == ']' && forall k :: 0 <= k < 3 ==> p[k] != ']';
    assert IndexOf(p, ']') == Some(3);
    assert AtomCase(p) && AfterAtom(p) == "yz";
    assert p[2..3] == "x";
    assert Accepts(AtomOf(p), 'a');
    AtomOne(s, p, [], 0);
    assert s[1..] == "yz";
  }

  /** `^exact$` matches `exact`. */
  lemma AnchoredMatches()
    ensures MatchSpec("exact", "^exact$") == Ok(true)
  {
    var s, p := "exact", "^exact$";
    var core := p[1..|p| - 1];
    assert core == "exact";
    assert Spelled(s, core, 5) by {
      forall i | 0 <= i < 5 ensures PlainAt(s, core, i) {
        assert i == 0 || i == 1 || i == 2 || i == 3 || i == 4;
      }
    }
    LiteralRun(s, core, [], 0, 5);
    assert s[5..] == [] && core[5..] == [];
    assert Gen(s, core, [], 0) == Done;
    assert Hit("", []) in Gen(s, core, [], 0).hits;
    NoBarOnePiece(p);
    BothAnchorsMeaning(s, p);
  }

  /** `carrot` does not match `apple`: no offset of `apple` starts with `c`. */
  lemma CarrotDoesNotMatch()
    ensures MatchSpec("apple", "carrot") == Ok(false)
  {
    var s, p := "apple", "carrot";
    forall j | 0 <= j <= |s|
      ensures AtOffset(s, p, j, false) == Ok(false)
    {
      assert j == |s| || s[j] != 'c';
      MissAt(s, p, j, false);
    }
    NoBarOnePiece(p);
    MissEverywhere(s, p);
  }

  /** `^start` matches `start of line`: offset 0, any remainder. */
  lemma StartMatches()
    ensures MatchSpec("start of line", "^start") == Ok(true)
  {
    var s, p := "start of line", "^start";
    var core := p[1..];
    assert core == "start";
    assert Spelled(s, core, 5) by {
      forall i | 0 <= i < 5 ensures PlainAt(s, core, i) {
        assert i == 0 || i == 1 || i == 2 || i == 3 || i == 4;
      }
    }
    LiteralRun(s, core, [], 0, 5);
    assert core[5..] == [];
    assert Gen(s, core, [], 0).hits != [];
    NoBarOnePiece(p);
    StartAnchorMeaning(s, p);
  }

  /** A `...$` pattern matches when offset `j` has a hit that leaves nothing
      and every offset before it yields `False`. */
  lemma EndAnchoredAt(s: string, p: string, core: string, j: nat)
    requires |Pieces(p)| == 1 && !StartsAnchored(p) && EndsAnchored(p) && core == p[..|p| - 1]
    requires j <= |s| && AtOffset(s, core, j, true) == Ok(true)
    requires forall j' :: 0 <= j' < j ==> AtOffset(s, core, j', true) == Ok(false)
    ensures MatchSpec(s, p) == Ok(true)
  {
    assert MatchSpec(s, p) == TryOffsets(s, core, 0, true);
  }

  /** `end$` matches `the end`: offset 4 leaves nothing, and the offsets
      before it yield nothing. */
  lemma EndMatches()
    ensures MatchSpec("the end", "end$") == Ok(true)
  {
    var s, p := "the end", "end$";
    assert p[..|p| - 1] == "end";
    NoBarOnePiece(p);
    EndBeforeFour();
    EndAtFour();
    EndAnchoredAt(s, p, "end", 4);
  }

  lemma EndBeforeFour()
    ensures forall j :: 0 <= j < 4 ==> AtOffset("the end", "end", j, true) == Ok(false)
  {
    var s, core := "the end", "end";
    forall j | 0 <= j < 4 && j != 2
      ensures AtOffset(s, core, j, true) == Ok(false)
    {
      assert s[j] != 'e';
      MissAt(s, core, j, true);
    }
    assert AtOffset(s, core, 2, true) == Ok(false) by {
      LiteralStep(s[2..], core, [], 0);
      assert s[2..][1..] == " end" && core[1..] == "nd";
      LiteralStep(" end", "nd", [], 0);
    }
  }

  lemma EndAtFour()
    ensures AtOffset("the end", "end", 4, true) == Ok(true)
  {
    var s, core := "the end", "end";
    var s4 := s[4..];
    assert s4 == "end";
    assert Spelled(s4, core, 3) by {
      forall i | 0 <= i < 3 ensures PlainAt(s4, core, i) {
        assert i == 0 || i == 1 || i == 2;
      }
    }
    LiteralRun(s4, core, [], 0, 3);
    assert s4[3..] == [] && core[3..] == [];
    assert Gen(s4, core, [], 0) == Done;
    assert Qualifies(Hit("", []), true);
  }

  /** `\\d+` matches `12345`. */
  lemma DigitsMatch()
    ensures MatchSpec("12345", "\\d+") == Ok(true)
  {
    var s, p := "12345", "\\d+";
    DigitsRun();
    assert p[0] == '\\' && p[1] == 'd';
    NoBarOnePiece(p);
    HitAtStart(s, p);
  }

  lemma DigitsRun()
    ensures Gen("12345", "\\d+", [], 0).hits != []
  {
    var s, p := "12345", "\\d+";
    assert p[..2] == "\\d";
    assert AtomCase(p) && AfterAtom(p) == "+";
    var a := AtomOf(p);
    assert forall k :: 0 <= k < 5 ==> Accepts(a, s[k]);
    assert RunLength(a, s) == 5;
    AtomPlus(s, p, [], 0);
    assert s[5..] == [] && AfterAtom(p)[1..] == [];
    assert Gen(s[5..], AfterAtom(p)[1..], [], 0) == Done;
  }

  /** `*` is not a quantifier: `appl.*` asks for a literal `*` after the
      `.`, so it does not match `apple`. */
  lemma StarIsLiteral()
    ensures MatchSpec("apple", "appl.*") == Ok(false)
  {
    var s, p := "apple", "appl.*";
    forall j | 0 < j <= |s|
      ensures AtOffset(s, p, j, false) == Ok(false)
    {
      assert j == |s| || s[j] != 'a';
      MissAt(s, p, j, false);
    }
    StarAtStart();
    NoBarOnePiece(p);
    MissEverywhere(s, p);
  }

  /** From offset 0, `appl` and `.` take all of `apple` and the `*` finds nothing. */
  lemma StarAtStart()
    ensures AtOffset("apple", "appl.*", 0, false) == Ok(false)
  {
    var s, p := "apple", "appl.*";
    assert Spelled(s, p, 4) by {
      forall i | 0 <= i < 4 ensures PlainAt(s, p, i) {
        assert i == 0 || i == 1 || i == 2 || i == 3;
      }
    }
    LiteralRun(s, p, [], 0, 4);
    var s4, p4 := s[4..], p[4..];
    assert s4 == "e" && p4 == ".*";
    assert AtomCase(p4) && AfterAtom(p4) == "*";
    AtomOne(s4, p4, [], 0);
    assert Accepts(AtomOf(p4), 'e');
    LiteralStep(s4[1..], "*", [], 0);
    assert Gen(s[0..], p, [], 0) == Empty;
  }
}
