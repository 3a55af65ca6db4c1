/** Shared vocabulary of the grep regex engine model. */
module Common {

  datatype Option<T> = None | Some(value: T)

  /** The two `ValueError`s the engine can raise while it interprets a pattern:
      `find_close`'s "unbalanced ()" and `str.index`'s "substring not found"
      when a `[` has no `]` after it. */
  datatype Error = Unbalanced | NoClosingBracket

  datatype Result<T> = Ok(value: T) | Err(error: Error)

  /** The capture list: slot `k` holds group `k + 1`'s text, or `None`. */
  type Caps = seq<Option<string>>

  /** `t` is a suffix of `s`: what every remaining-subject value is. */
  predicate IsSuffix(t: string, s: string)
  {
    |t| <= |s| && s[|s| - |t|..] == t
  }

  predicate IsPrefix(g: string, s: string)
  {
    |g| <= |s| && s[..|g|] == g
  }

  lemma SuffixTrans(a: string, b: string, c: string)
    requires IsSuffix(a, b) && IsSuffix(b, c)
    ensures IsSuffix(a, c)
  {
    assert c[|c| - |a|..] == c[|c| - |b|..][|b| - |a|..];
  }
}
