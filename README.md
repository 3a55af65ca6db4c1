# A grep regex engine, modelled in Dafny

This project models the regex engine of a small `grep` clone (`app/main.py`).
The engine has no compile step. It interprets the pattern text directly:

- Three scanners read the pattern. `find_close` finds the `)` that closes a
  group, `split_alts` cuts the pattern at top-level `|`, and `count_groups`
  counts capturing `(`. All three track a pending escape and being inside
  `[...]`. `find_close` and `split_alts` also keep the paren depth;
  `count_groups` ignores depth and counts every `(` that is not escaped and
  not inside `[...]`.
- `next_atom` turns the first atom of the pattern into a one-character test
  and returns the rest of the pattern.
- `try_backref` matches a back-reference `\N` against the capture list.
- `gen` is a backtracking generator. It yields `(remaining subject,
  captures)` pairs for the literals, classes, `?` and `+` on atoms and
  groups, groups with alternation, and back-references (`gen` tests for
  `\N` at the front of whatever is left of the pattern, so every reference
  is handled when it is reached).
- `matches` applies grep's policy for anchors, start offsets and top-level
  alternatives.

How the model is built:

- **Scanners.** The scanners share one state machine (`Scanner.Step`,
  `Scanner.Scan`). Each scanner has a specification function (`CloseIndex`,
  `Pieces`, `Groups`). Each also has a method with the source's loop
  (`FindClose`, `SplitAlts`, `CountGroups`), proved equal to that function.
- **Atoms.** The closures `next_atom` builds become the datatype
  `Atoms.Atom`, read by `Atoms.Accepts`.
- **Generators.** A Python generator is modelled by the trace it produces
  (`Engine.Trace`): the pairs it yields, in order, then the exception it
  raises, if any. `Engine.Concat` is `yield from a` followed by `yield from
  b`, where `b` runs only if `a` returns normally. Keeping the exception is
  what makes `any(...)` come out right. `any` stops at the first qualifying
  pair, so an error raised later is never seen.
- **Loops inside `gen`.** Inside `Engine.Gen`, the run that atom `+` counts
  is `Atoms.RunLength`, and the group-`+` worklist is `Engine.PlusTrace` /
  `Engine.Process`. Their loop forms are separate methods proved equal to
  them: `Atoms.CountRun`, and `Worklist.GroupPlus` with its inner loop
  `Worklist.PushProgress`. `Process` follows the worklist exactly, in LIFO
  order.
- **Errors.** The engine raises two errors of its own, and both are
  modelled (`Common.Error`): "unbalanced ()" from `find_close`, and the
  `ValueError` that `str.index` raises when a `[` has no `]`. Errors that
  Python itself may raise are listed under "Left out".
- **Captures.** The capture list is a value (`Common.Caps`). The list a
  caller passes in can therefore never be changed. `Engine.Keeps` states
  what is promised about the new list: it is no shorter, and every slot
  below the group number `gi` keeps its value. The write `cc3[this_id] =
  ...` on a fresh copy becomes a sequence update in `Engine.Tag`.

Points of the code's behaviour that a reader might not expect, all
modelled as written:

- There is no compile step. The pattern text is interpreted as it is
  matched.
- `next_atom` ends a class at the first `]`; a `]` cannot be escaped
  inside a class.
- A quantifier with nothing to repeat raises no error: a leading `+` or
  `?`, and any `*`, are plain characters (see `Samples.StarIsLiteral`).
- Group numbers restart in each alternative of a group.
- Matching itself can raise, and each error comes up only when matching
  reaches its cause: "unbalanced ()" when `gen` reaches the `(`, and the
  missing-`]` error when `next_atom` reaches the class.

## Model

| member | source | states |
|---|---|---|
| Atoms.DigitsAre | app/main.py:29 | `DIGITS` holds exactly the characters `0` to `9` |
| Atoms.WordCharsAre | app/main.py:30 | `WORD` holds exactly the ASCII digits, ASCII letters and `_` |
| Atoms.LowerAre | app/main.py:30 | the lower-case part of `WORD` holds exactly the characters `a` to `z` |
| Atoms.UpperAre | app/main.py:30 | the upper-case part of `WORD` holds exactly the characters `A` to `Z` |
| Scanner.CloseFrom | app/main.py:38-58 | resuming the scan at `k` in the state reached so far: the result is the first position at or after `k` where an unescaped `)` outside brackets takes the depth from 1 to 0; if there is none, "unbalanced ()" |
| Scanner.CloseIndex | app/main.py:35-58 | `find_close(p, i)` returns `j >= i` with `p[j] == ')'`, where the depth counted from `i` first returns to 0; no earlier position closes; it raises "unbalanced ()" exactly when no position closes |
| Scanner.FindClose | app/main.py:35-58 | the `while` loop over `depth`, `in_class` and `esc` computes `CloseIndex` |
| Scanner.Pieces | app/main.py:61-91 | `split_alts` always returns at least one piece |
| Scanner.PiecesJoin | app/main.py:61-91 | joining the pieces with `\|` gives back the pattern |
| Scanner.PiecesCuts | app/main.py:66-89 | the cuts are exactly the `\|` that are unescaped, outside `[...]` and at depth 0 |
| Scanner.PiecesShorter | app/main.py:61-91 | no piece is longer than the pattern; with two or more pieces, each is strictly shorter, so the recursion in `matches` ends |
| Scanner.NoBarOnePiece | app/main.py:61-91 | a pattern without `\|` is one piece, itself |
| Scanner.SplitAlts | app/main.py:61-91 | the `for` loop that appends to `out` computes `Pieces` |
| Scanner.GroupsCountsOpenings | app/main.py:94-114 | `count_groups` equals the number of positions holding a `(` that is unescaped and outside `[...]` |
| Scanner.Groups | app/main.py:94-114 | what `count_groups` returns: at most one group per character of the pattern, and none when the pattern has no `(`; `GroupsCountsOpenings` says exactly what it counts |
| Scanner.CountGroups | app/main.py:94-114 | the `for` loop computes `Groups` |
| Atoms.IndexOf | app/main.py:125 | the first position of the character, or none, in which case `str.index` raises |
| Atoms.NextAtom | app/main.py:117-143 | the empty pattern gives no atom and `""`; otherwise the rest is a strict suffix of the pattern. `.` rejects only `\n`; `[^]` accepts everything; `[^...]` / `[...]` end at the first `]`, and the error is raised exactly when there is none; `\d` and `\w` accept `DIGITS` and `WORD`; any other `\c` accepts `c`; a lone trailing `\` accepts a backslash; any other character accepts itself |
| Atoms.RunLength | app/main.py:222-225 | the length of the longest prefix of `s` whose every character passes the atom |
| Atoms.CountRun | app/main.py:222-225 | the `while` loop over `i` computes `RunLength` |
| Backrefs.DigitRun | app/main.py:149-151 | the number of leading digits: all of them are digits, and the next character is not |
| Backrefs.RefEnd | app/main.py:149-151 | `j` is one past the last digit that follows the backslash |
| Backrefs.Backref | app/main.py:146-158 | `None` exactly when `p` does not start with `\` and a digit. `False` exactly when the number is 0, is past `len(caps)`, names a `None` slot, or names text the subject does not start with. Otherwise `s == caps[N-1] + s2`, and `p2` is `p` without the backslash and all of its digits |
| Backrefs.TryBackref | app/main.py:146-158 | the `while` loop over `j` computes `Backref` |
| Engine.Pad | app/main.py:184 | the copy has length `max(n, len(c))` and keeps every old slot |
| Engine.TagAll | app/main.py:185-187 | every hit `gen_body` yields is an inner hit with slot `this_id` set |
| Engine.TagCaptured | app/main.py:184-187 | once tagged, every hit has slot `id` holding the prefix the body consumed, `s0 == cc3[id] + out_s` |
| Engine.After | app/main.py:178-180 | the first group number after the group, `gi + 1 + count_groups(body)`, is above `gi` |
| Engine.Gen | app/main.py:161-239 | every remainder `gen` yields is a suffix of its `s`; the captures it yields are no shorter than `caps`, and every slot below `gi` is unchanged |
| Engine.GroupGen | app/main.py:174-211 | the same, for a pattern that starts with a group |
| Engine.GroupFrom | app/main.py:176-211 | the same, once the group's `)` is found, for each of the `+`, `?` and plain cases after it |
| Engine.GenBody | app/main.py:182-188 | every hit of `gen_body(s0, caps0)` has slot `this_id` set to exactly the prefix of `s0` it consumed, and keeps the slots below it |
| Engine.AltTraces | app/main.py:183-188 | the same, alternative by alternative |
| Properties.AltTracesNumbered | app/main.py:179-187 | every hit of the alternatives is a hit of one alternative `alts[k]`, run on the captures padded to `this_id + 1` slots with its own groups numbered from `inner_start = this_id + 1`, then tagged with slot `this_id` |
| Properties.GenBodyNumbered | app/main.py:179-188 | the same for `gen_body`: every hit comes from one top-level alternative of the body, numbered from `this_id + 1` |
| Engine.Continue | app/main.py:209-211 | continuing the body's hits keeps every remainder a suffix of `s` and keeps the caller's slots |
| Engine.ContinueHits | app/main.py:209-210 | the same, hit by hit |
| Engine.AtomGen | app/main.py:213-239 | the same, for a pattern that starts with an atom |
| Engine.RunTraces | app/main.py:227-228 | the same, for the runs tried by atom `+` |
| Engine.Progress | app/main.py:197-199 | a hit is pushed exactly when its remainder length differs from `len(out_s)` |
| Engine.KidsSound | app/main.py:196-199 | every pushed hit has a strictly shorter remainder than the popped one, so the group `+` body is repeated only after progress |
| Engine.PlusTrace | app/main.py:190-200 | group `+` yields only suffixes of `s` and keeps the caller's slots |
| Engine.Process | app/main.py:192-199 | the same, for the worklist run on any stack of such hits |
| Worklist.ProcessAppend | app/main.py:192-199 | a stack `a + b` is worked off as all of `b`, top first, then `a` (LIFO); the step counts add up |
| Worklist.Pop | app/main.py:193-199 | one pop yields the popped hit's continuation, then the error of the next body run (if any), then the rest of the stack with the progressing hits on top; the step count falls |
| Worklist.PopOnce | app/main.py:193-199 | one pass of the `while stack` body: if a body run raises, what was yielded so far is the whole trace of the worklist; otherwise the stack keeps its invariant, has fewer remaining steps, and what was yielded plus the rest of the worklist is unchanged |
| Worklist.PushProgress | app/main.py:197-199 | the inner `for` loop appends exactly the progressing hits, in order |
| Worklist.GroupPlus | app/main.py:190-200 | the `while stack` loop, with `pop` and `append`, yields exactly the trace `PlusTrace` describes |
| Properties.RunTracesFrom | app/main.py:227-228 | every hit of the atom-`+` loop comes from a run of length `k` with `1 <= k <= n` |
| Properties.RunTracesAll | app/main.py:227-228 | unless an error cuts the loop short, every run length from 1 to `n` is tried |
| Properties.AtomPlus | app/main.py:218-228 | atom `+` consumes at least one character. Every hit continues a run of accepted characters of length 1 to the maximal run. Unless an error intervenes, every such run is tried. The maximal run's hits come first |
| Properties.AtomOpt | app/main.py:230-235 | atom `?` tries consuming one character before consuming none; the hits are exactly the one-character hits, then (if those did not raise) the zero-character hits |
| Properties.AtomOne | app/main.py:237-239 | a plain atom consumes exactly one accepted character, or yields nothing |
| Properties.LiteralStep | app/main.py:237-239 | an ordinary unquantified character matches exactly itself |
| Properties.OptLiteralStep | app/main.py:230-235 | `c?` tries one `c`, then none |
| Properties.LiteralRun | app/main.py:237-239 | a run of ordinary unquantified characters matches exactly its own text |
| Properties.BackrefStep | app/main.py:166-172 | a reference `\N` that can be met consumes group `N`'s text and continues after all of its digits; one that cannot be met yields nothing |
| Properties.ContinueHitsFrom | app/main.py:209-210 | every hit after a group comes from continuing one hit of the body |
| Properties.ContinueCaptured | app/main.py:182-211 | after a group at `gi`, every hit has slot `gi` set, with `s == caps[gi] + m.rest` for the body hit `m` it came from; the groups after it, numbered from `gi + 1 + count_groups(body)`, leave the slot alone |
| Properties.GroupUnbalanced | app/main.py:174-175 | a `(` without its `)` raises "unbalanced ()" before yielding anything |
| Properties.GroupSplit | app/main.py:174-176 | a pattern starting with `(` that has its `)` is a group: the body before the `)`, the rest after it |
| Properties.GroupCapture | app/main.py:174-211 | on every hit of a plain group at `gi`, slot `gi` holds exactly the prefix its body consumed |
| Properties.GroupOpt | app/main.py:202-207 | group `?` yields all of the body's continuations first; if they did not raise, the skipping branch follows; the body's hits have slot `gi` set to a prefix of `s` |
| Properties.ProcessCaptured | app/main.py:192-199 | when every stacked hit is a hit of one run of the body from a suffix of `s`, every hit of the worklist continues such a hit `m` from `s0`: its slot `gi` is `m`'s, and `s0 == cc3[gi] + out_s` |
| Properties.PlusCaptured | app/main.py:190-200 | every hit of group `+` continues a hit `m` of the last run of the body, started at a suffix `s0` of `s`: slot `gi` holds exactly what that run consumed (`s0 == cc3[gi] + out_s`), and the continuation starts at `m.rest`, right after it |
| Grep.AnyHit | app/main.py:247 | `any(...)` is true exactly when some yielded pair qualifies. It raises exactly when the generator raises before yielding a qualifying pair |
| Grep.TryOffsets | app/main.py:248-259 | the loop over start offsets returns `False` exactly when every offset yields `False`; otherwise it returns the outcome of the first offset that does not |
| Grep.AnyAlt | app/main.py:243-245 | `any(matches(s, a) for a in alts)` is `False` exactly when every alternative is; otherwise it is the outcome of the first alternative that is not |
| Grep.MatchSpec | app/main.py:242-259 | `matches(s, p)`: the top-level split, then the `^...$`, `...$`, `^...` and unanchored cases; the empty pattern matches every line; the `*Meaning` lemmas state what each case means |
| Grep.Matches | app/main.py:242-259 | the method with the loops over alternatives and offsets computes `MatchSpec` |
| Grep.MatchAlts | app/main.py:243-245 | the loop over the alternatives, each matched on its own, computes `AnyAlt` |
| Grep.MatchOffsets | app/main.py:248-259 | the loops over start offsets `0..len(s)` compute `TryOffsets` |
| Grep.OffsetsMeaning | app/main.py:248-259 | a `True` from the offset loop comes from a qualifying pair at some offset in `0..len(s)`; a qualifying pair at any offset rules out `False` |
| Grep.AlternationMeaning | app/main.py:243-245 | with top-level `\|`, a match means some branch matches under its own anchors; `False` exactly when every branch gives `False` |
| Grep.BothAnchorsMeaning | app/main.py:246-247 | `^...$` matches exactly when a run from offset 0 leaves an empty remainder |
| Grep.EndAnchorMeaning | app/main.py:248-253 | `...$` matching means some offset from 0 to `len(s)` has a run that leaves nothing, and such a run rules out `False` (an escaped `\$` at the end counts as the anchor too) |
| Grep.StartAnchorMeaning | app/main.py:254-255 | `^...` matches exactly when offset 0 yields anything |
| Grep.UnanchoredMeaning | app/main.py:256-259 | an unanchored match means some offset from 0 to `len(s)` inclusive yields something, and such an offset rules out `False` |
| Samples.HitAtStart | app/main.py:256-259 | an unanchored, unalternated pattern with a hit at offset 0 matches |
| Samples.EndAnchoredAt | app/main.py:248-253 | a `...$` pattern matches at the first offset that leaves nothing |
| Samples.MissAt | app/main.py:237-239 | a pattern led by an ordinary unquantified character yields nothing at an offset where the line has another character |
| Samples.MissEverywhere | app/main.py:256-259 | an unanchored, unalternated pattern that gives `False` at every offset does not match |
| Samples.CarrotDoesNotMatch | app/main.py:269 | `carrot` does not match `apple` |
| Samples.StartMatches | app/main.py:271 | `^start` matches `start of line` |
| Samples.EndMatches | app/main.py:272 | `end$` matches `the end` |
| Samples.AnchoredMatches | app/main.py:273 | `^exact$` matches `exact` |
| Samples.DigitsMatch | app/main.py:276 | `\d+` matches `12345` |
| Samples.ColorMatches | app/main.py:283 | `colou?r` matches `color` |
| Samples.ColourMatches | app/main.py:284 | `colou?r` matches `colour` |
| Samples.PlusMatches | app/main.py:285 | `a+` matches `aaa` |
| Samples.NegatedClassMatches | app/main.py:287 | `[^x]yz` matches `ayz` |
| Samples.StarIsLiteral | app/main.py:268 | as written, `appl.*` does not match `apple`: `*` is an ordinary character, so the expectation on that line is not met |

## Left out

- `main` (app/main.py:305-347) is I/O glue and is not modelled: arguments, files, standard input, printing `name:line`, exit codes.
- `run_tests` (app/main.py:264-300) prints and returns a code; neither is modelled. Its expectations are proved only as the `Samples` lemmas.
- The test on app/main.py:281 has no lemma. Its pattern literal is a backslash followed by the character `chr(1)`, not the back-reference `\1`.
- The tests on app/main.py:267, 275, 277 and 279 have no lemma either. The general lemmas cover the features they use (`LiteralRun`, `NextAtom`, `AtomPlus`, `AlternationMeaning`). `Pieces` of a literal with `|` takes a long proof by hand, which is why `cat|dog` is left out.
- Backrefs.Backref: Python 3.11 and later limit how many digits `int` converts (4300 by default). `int(p[1:j])` on app/main.py:152 then raises `ValueError` for a longer reference. The model has no such limit: it converts a reference of any length, leading zeros included.
- Backrefs.IsDigit: `str.isdigit` is modelled for the ASCII digits only. Python also accepts other Unicode digits. `int` rejects some of these, which would raise a further `ValueError`.
- Laziness is kept only as far as it changes the result. A generator is its whole finite trace: the pairs yielded, then the error. `any` and the offset loop stop at the first qualifying pair, and this is modelled. Work that Python skips because it stops early is simply never looked at.
- `RecursionError`, running time and the unbounded backtracking are not modelled. The model has no step bound.
- The class end is inconsistent between parts of the code. `next_atom` ends a class at the first `]`, while the scanners treat `\]` inside a class as escaped. So `count_groups` can count differently from the groups `gen` opens, as in `[\](a)`. No lemma claims the written slots lie between `gi` and `gi + count_groups(body)`. The model keeps both behaviours as written.
- Engine.Process is the worklist and keeps its exact LIFO order. Only membership and order facts that follow from it are proved. No "greedy" order is claimed for group `+`.
- Group numbers restart in each alternative of a group. This is modelled as written, and no lemma claims group numbers are unique.
