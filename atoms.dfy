/** `next_atom`: the first atom of the pattern as a one-character test. */
module Atoms {
  import opened Common

  /** `DIGITS` and `WORD`: `string.digits`, then ASCII letters and `_`. */
  const Digits: string := "0123456789"
  const Lower: string := "abcdefghijklmnopqrstuvwxyz"
  const Upper: string := "ABCDEFGHIJKLMNOPQRSTUVWXYZ"
  const WordChars: string := Digits + Lower + Upper + "_"

  /** The closures `next_atom` builds, as data. */
  datatype Atom =
    | Dot                      // `.`
    | AnyChar                  // `[^]`
    | NoneOf(bad: set<char>)   // `[^...]`
    | OneOf(good: set<char>)   // `[...]`
    | Digit                    // `\d`
    | Word                     // `\w`
    | Escaped(c: char)         // `\c`, and a trailing lone `\`
    | Lit(c: char)             // any other character

  predicate Accepts(a: Atom, ch: char)
  {
    match a
    case Dot => ch != '\n'
    case AnyChar => true
    case NoneOf(bad) => ch !in bad
    case OneOf(good) => ch in good
    case Digit => ch in Digits
    case Word => ch in WordChars
    case Escaped(c) => ch == c
    case Lit(c) => ch == c
  }

  lemma DigitsAre(ch: char)
    ensures ch in Digits <==> '0' <= ch <= '9'
  {
    if '0' <= ch <= '9' {
      assert Digits[ch as int - '0' as int] == ch;
    }
  }

  lemma LowerAre(ch: char)
    ensures ch in Lower <==> 'a' <= ch <= 'z'
  {
    if 'a' <= ch <= 'z' {
      assert Lower[ch as int - 'a' as int] == ch;
    }
    assert forall k :: 0 <= k < |Lower| ==> 'a' <= Lower[k] <= 'z';
  }

  lemma UpperAre(ch: char)
    ensures ch in Upper <==> 'A' <= ch <= 'Z'
  {
    if 'A' <= ch <= 'Z' {
      assert Upper[ch as int - 'A' as int] == ch;
    }
    assert forall k :: 0 <= k < |Upper| ==> 'A' <= Upper[k] <= 'Z';
  }

  lemma WordCharsAre(ch: char)
    ensures ch in WordChars <==> ('0' <= ch <= '9' || 'a' <= ch <= 'z' || 'A' <= ch <= 'Z' || ch == '_')
  {
    assert ch in WordChars <==> ch in Digits || ch in Lower || ch in Upper || ch == '_';
    DigitsAre(ch);
    LowerAre(ch);
    UpperAre(ch);
  }

  /** The first position of `c` in `p`, or `None` when there is none (where `str.index` raises). */
  function IndexOf(p: string, c: char): (r: Option<nat>)
    decreases |p|
    ensures r.Some? ==> r.value < |p| && p[r.value] == c && c !in p[..r.value]
    ensures r.None? ==> c !in p
  {
    if p == [] then None
    else if p[0] == c then Some(0)
    else match IndexOf(p[1..], c)
      case None => None
      case Some(j) =>
        assert p[..j + 1] == [p[0]] + p[1..][..j];
        Some(j + 1)
  }

  /** `next_atom(p)`: the atom's test and the rest of the pattern; `None`
      and `""` on the empty pattern; the "substring not found" error when a
      bracket class has no `]`. */
  function NextAtom(p: string): (r: Result<(Option<Atom>, string)>)
    ensures p == [] ==> r == Ok((None, ""))
    ensures p != [] && r.Ok? ==> r.value.0.Some? && IsSuffix(r.value.1, p) && |r.value.1| < |p|
    ensures r.Err? <==> p != [] && p[0] == '[' && !(|p| >= 3 && p[..3] == "[^]") && ']' !in p
    ensures r.Err? ==> r.error == NoClosingBracket
    // `.` rejects only the newline.
    ensures p != [] && p[0] == '.' ==>
      r.Ok? && r.value.1 == p[1..] && forall ch :: Accepts(r.value.0.value, ch) <==> ch != '\n'
    // `[^]` accepts every character.
    ensures |p| >= 3 && p[..3] == "[^]" ==>
      r.Ok? && r.value.1 == p[3..] && forall ch :: Accepts(r.value.0.value, ch)
    // `[^...]` and `[...]` end at the first `]` of the pattern.
    ensures p != [] && p[0] == '[' && r.Ok? && !(|p| >= 3 && p[..3] == "[^]") ==>
      IndexOf(p, ']').Some? && r.value.1 == p[IndexOf(p, ']').value + 1..]
    ensures |p| >= 2 && p[..2] == "[^" && r.Ok? && !(|p| >= 3 && p[2] == ']') ==>
      var j := IndexOf(p, ']').value;
      2 <= j && forall ch :: Accepts(r.value.0.value, ch) <==> ch !in p[2..j]
    ensures p != [] && p[0] == '[' && !(|p| >= 2 && p[1] == '^') && r.Ok? ==>
      var j := IndexOf(p, ']').value;
      1 <= j && forall ch :: Accepts(r.value.0.value, ch) <==> ch in p[1..j]
    // `\d`, `\w`, any other escaped character, and a trailing lone `\`.
    ensures |p| >= 2 && p[..2] == "\\d" ==>
      r.Ok? && r.value.1 == p[2..] && forall ch :: Accepts(r.value.0.value, ch) <==> '0' <= ch <= '9'
    ensures |p| >= 2 && p[..2] == "\\w" ==>
      r.Ok? && r.value.1 == p[2..] && forall ch :: Accepts(r.value.0.value, ch) <==>
        ('0' <= ch <= '9' || 'a' <= ch <= 'z' || 'A' <= ch <= 'Z' || ch == '_')
    ensures |p| >= 2 && p[0] == '\\' && p[1] != 'd' && p[1] != 'w' ==>
      r.Ok? && r.value.1 == p[2..] && forall ch :: Accepts(r.value.0.value, ch) <==> ch == p[1]
    ensures p == "\\" ==> r.Ok? && r.value.1 == "" && forall ch :: Accepts(r.value.0.value, ch) <==> ch == '\\'
    // Any other character stands for itself.
    ensures p != [] && p[0] != '.' && p[0] != '[' && p[0] != '\\' ==>
      r.Ok? && r.value.1 == p[1..] && forall ch :: Accepts(r.value.0.value, ch) <==> ch == p[0]
  {
    if p == [] then Ok((None, ""))
    else if p[0] == '.' then Ok((Some(Dot), p[1..]))
    else if |p| >= 3 && p[..3] == "[^]" then Ok((Some(AnyChar), p[3..]))
    else if |p| >= 2 && p[..2] == "[^" then
      match IndexOf(p, ']')
      case None => Err(NoClosingBracket)
      case Some(j) => Ok((Some(NoneOf(set ch | ch in p[2..j])), p[j + 1..]))
    else if p[0] == '[' then
      match IndexOf(p, ']')
      case None => Err(NoClosingBracket)
      case Some(j) => Ok((Some(OneOf(set ch | ch in p[1..j])), p[j + 1..]))
    else if p[0] == '\\' then
      if |p| < 2 then Ok((Some(Escaped('\\')), ""))
      else if p[1] == 'd' then
        assert forall ch :: Accepts(Digit, ch) <==> '0' <= ch <= '9' by {
          forall ch { DigitsAre(ch); }
        }
        Ok((Some(Digit), p[2..]))
      else if p[1] == 'w' then
        assert forall ch :: Accepts(Word, ch) <==>
          ('0' <= ch <= '9' || 'a' <= ch <= 'z' || 'A' <= ch <= 'Z' || ch == '_') by {
          forall ch { WordCharsAre(ch); }
        }
        Ok((Some(Word), p[2..]))
      else Ok((Some(Escaped(p[1])), p[2..]))
    else Ok((Some(Lit(p[0])), p[1..]))
  }

  // ---------------------------------------------------------------------------
  // The run an atom `+` measures

  /** The length of the longest prefix of `s` whose characters all pass `a`. */
  function RunLength(a: Atom, s: string): (n: nat)
    decreases |s|
    ensures n <= |s|
    ensures forall k :: 0 <= k < n ==> Accepts(a, s[k])
    ensures n < |s| ==> !Accepts(a, s[n])
  {
    if s == [] || !Accepts(a, s[0]) then 0 else 1 + RunLength(a, s[1..])
  }

  /** `RunLength` is the one length with those three properties. */
  lemma RunLengthUnique(a: Atom, s: string, n: nat)
    requires n <= |s| && forall k :: 0 <= k < n ==> Accepts(a, s[k])
    requires n < |s| ==> !Accepts(a, s[n])
    ensures n == RunLength(a, s)
  {
  }

  /** The `while` loop of the atom `+` case, after its `s[0]` test. */
  method CountRun(a: Atom, s: string) returns (n: nat)
    ensures n == RunLength(a, s)
  {
    var i := 1;
    while i <= |s| && Accepts(a, s[i - 1])
      invariant 1 <= i <= |s| + 1
      invariant forall k :: 0 <= k < i - 1 ==> Accepts(a, s[k])
      decreases |s| + 1 - i
    {
      i := i + 1;
    }
    i := i - 1;
    n := i;
    RunLengthUnique(a, s, n);
  }
}
