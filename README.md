# walking_on_words: three decision procedures on finite words, in Dafny

This project models the three word procedures of the `walking_on_words`
repository and proves what each decides:

- `WalkSimulation.can_generate_dp` (`ww/pg.py`) decides whether a target word
  `w` can be read off a source word `u` by a token that starts on some position
  of `u` and, for each further symbol, stays put or moves one position left or
  right. It fills an (m+1) x (n+1) boolean table column by column.
  `WalkGeneration.CanGenerate` is that procedure over an `array2<bool>`, with
  the same early exit, loops and boundary rules. Its loop invariants tie every
  finished column to the recurrence `Reach`. Its postcondition ties the answer
  to an independent definition: a sequence of positions, one per symbol of
  `w`, each showing that symbol, consecutive positions at most one step apart
  (`IsWalk`, `Generable`).
- `is_lyndon` (`ww/1random.py`) compares each non-trivial rotation
  `word[i:] + word[:i]` with the word, using string order. `Lyndon.IsLyndon`
  is a pure function that delegates the loop to the recursive
  `NoSmallerRotationFrom`. Its contract states what the code accepts:
  the word is no greater than each of its non-trivial rotations. The
  lexicographic order `LexLess` is proved to agree with the first-difference
  definition, and to be irreflexive, asymmetric and total.
- `is_debruijn` (`ww/1random.py`) rejects any length other than `k**n`. It then
  counts the `L` cyclic windows of length `n` in a dictionary and accepts when
  there are `k**n` distinct windows, each counted once. `DeBruijn.IsDeBruijn`
  is a method whose loop updates a `map<string, nat>`. Its invariant says the
  map holds the occurrence count of every window seen so far, and that the
  counts sum to the number of iterations. Its postcondition says the result is
  true exactly when the length is `k^n` and the cyclic windows are pairwise
  distinct.

Words are `string` (`seq<char>`). Python's string order compares code points,
which is Dafny's `<` on `char`. Positions in the walk model are 1-based, as in
the table. Row 0 and column 0 of the table are never written.

Where the code and the prose around it disagree, the model follows the code:

- `can_generate_dp` returns false for an empty target, although the empty walk
  spells it (`EmptyTargetWalks`). The early exit at `ww/pg.py:119-120` rejects
  it when u is non-empty. When u is empty as well, the final scan at
  `ww/pg.py:161-165` has no row to look at.
- `can_generate_dp` returns false whenever the source is longer than the
  target. The walk definition does not require this (`LongerSourceStillWalks`).
  The model keeps the early exit as written.
- Reversing both words never changes whether a walk exists
  (`ReverseBothPreserves`). Mirror the positions and run the walk backwards.
  So no pair of words tells a reversal-symmetric implementation apart from
  this one.
- `is_lyndon` accepts constant words such as "aa" and periodic words such as
  "abab". Its docstring asks for strictly smaller than every rotation. See
  Findings.

## Model

| member | source | states |
|---|---|---|
| `WalkGeneration.CanGenerate` | ww/pg.py:114-165 | The result is true iff len(u) <= len(w), w is non-empty, and some ±1-step walk of positions of u spells w. A longer source, an empty target or an empty source gives false. The loop invariants (`Filled`) state the table: column 1 is `u[i-1] == w[0]`, every later cell is `Reach`, and row 0 and column 0 stay false. |
| `WalkGeneration.Reach` | ww/pg.py:126-158 | The recurrence the table computes, cell (i, j) from cells (i, j-1), (i-1, j-1) with i > 1 and (i+1, j-1) with i < m. A reachable cell shows w's j-th symbol at position i. In column 1 a cell is reachable iff u[i-1] == w[0], the seeding at lines 126-127. |
| `WalkGeneration.FillColumn` | ww/pg.py:133-158 | One pass of the inner loop turns a table complete up to column j-1 into one complete up to column j. Cell (i, j) is set iff u[i-1] == w[j-1] and (i, j-1), (i-1, j-1) with i > 1, or (i+1, j-1) with i < m is set. Only column j-1 is read. |
| `WalkGeneration.Witness` | ww/pg.py:133-158 | Every reachable cell (i, j) has a walk over u that spells w[..j] and ends at position i. The walk is rebuilt backwards through the rule that set the cell. |
| `WalkGeneration.ExtendWalk` | ww/pg.py:135-158 | A walk of the first j-1 symbols that ends within one step of a matching position i extends to a walk of the first j symbols. |
| `WalkGeneration.ReachComplete` | ww/pg.py:126-158 | Every walk spelling w[..j] ends in a reachable cell (p[j-1], j). The table misses no walk. |
| `WalkGeneration.ReachGivesWalk` | ww/pg.py:160-163 | A reachable cell in the last column means w can be generated. |
| `WalkGeneration.WalkGivesReach` | ww/pg.py:160-165 | A walk spelling w ends in a reachable cell of the last column, at a position in [1, len(u)]. |
| `WalkGeneration.LongerSourceStillWalks` | ww/pg.py:118-120 | "a" can be walked on "ab", which the early exit for m > n rejects. |
| `WalkGeneration.EmptyTargetWalks` | ww/pg.py:119-165 | The empty walk spells the empty target. The procedure still rejects it: by the early exit at lines 119-120 when u is non-empty, and by the empty final scan at lines 161-165 when u is empty too. |
| `WalkGeneration.SmallWalks` | ww/pg.py:133-158 | "aaa" is generable from "a" by staying, and "ba" from "ab" by one step left. |
| `WalkGeneration.MirrorIsWalk` | ww/pg.py:145-158 | Mirroring a walk's positions and reversing its order gives a walk over reversed u that spells reversed w. The left and right rules are symmetric. |
| `WalkGeneration.ReverseBothPreserves` | ww/pg.py:133-158 | u generates w iff reversed u generates reversed w. |
| `Lyndon.LexLess` | ww/1random.py:11 | Python's string comparison `a < b`, symbol by symbol. A proper prefix is smaller than the longer word. If a is smaller and non-empty, then b is non-empty and a's first symbol is no greater than b's. |
| `Lyndon.SmallerAtGivesLess` | ww/1random.py:11 | A first difference in a's favour, or a being a proper prefix of b, makes `a < b`. |
| `Lyndon.LexLessIff` | ww/1random.py:11 | The string comparison `a < b` holds iff a and b agree up to some k, and then a ends while b goes on, or a[k] < b[k]. |
| `Lyndon.LexLessIrreflexive` | ww/1random.py:11 | No word is smaller than itself, so a rotation equal to the word never rejects. |
| `Lyndon.LexLessAsymmetric` | ww/1random.py:11 | a < b and b < a never both hold. |
| `Lyndon.LexLessTotal` | ww/1random.py:11 | Two different words are ordered one way or the other. |
| `Lyndon.Rotation` | ww/1random.py:10 | `word[i:] + word[:i]`. It is as long as the word, and it is the word itself at offsets 0 and len(word). |
| `Lyndon.RotationAt` | ww/1random.py:10 | `word[i:] + word[:i]` has the word's length, and its symbol t is word[(i+t) mod n]. |
| `Lyndon.NoSmallerRotationFrom` | ww/1random.py:9-13 | The loop from offset i on returns true iff no rotation at an offset k in [i, n) compares smaller than the word. |
| `Lyndon.IsLyndon` | ww/1random.py:3-13 | True for words of length 0 or 1. In general, true iff for every offset i in [1, n) the word equals its rotation at i or is smaller than it. |
| `Lyndon.IsStrictLyndon` | ww/1random.py:6 | The docstring's test: true iff the word is strictly smaller than each of its non-trivial rotations. |
| `Lyndon.StrictPassesAsWritten` | ww/1random.py:6-13 | Every word passing the strict test passes `is_lyndon`. |
| `Lyndon.AsWrittenMatchesStrictOnPrimitive` | ww/1random.py:6-13 | On words equal to none of their non-trivial rotations, the two tests agree. |
| `Lyndon.ConstantRotation` | ww/1random.py:10 | Every rotation of a constant word is the word. |
| `Lyndon.ConstantWordAccepted` | ww/1random.py:8-13 | `is_lyndon` accepts every constant word. The strict test rejects those of length 2 or more. |
| `Lyndon.PeriodicWordsAccepted` | ww/1random.py:6-13 | `is_lyndon` accepts "aa" and "abab". The strict test rejects both. |
| `Lyndon.SmallExamples` | ww/1random.py:3-13 | "ab" and "aab" are accepted; "ba" and "aba" are rejected. |
| `DeBruijn.Pow` | ww/1random.py:23 | `k ** n` on naturals. It is at least 1 when k >= 1, and 0 when k = 0 and n >= 1. |
| `DeBruijn.SliceWindow` | ww/1random.py:30-33 | The window the loop builds for start i, with Python's slice bounds cut back to L. Its length is min(n, 2L - i), so it is shorter than n only when the wrapped part would be longer than the word. Symbol t is word[i+t] before the end of the word and word[i+t-L] after the wrap. |
| `DeBruijn.SliceWindowIsCyclic` | ww/1random.py:30-33 | For n <= L+1, the window built by slicing equals the cyclic window word[(i+t) mod L], t < n. |
| `DeBruijn.PowOfOne` | ww/1random.py:23 | 1^n = 1, so for k = 1 the word has a single window. |
| `DeBruijn.PowExceeds` | ww/1random.py:23 | k^n >= n+1 for k >= 2, so the slices never need truncating. |
| `DeBruijn.SliceDistinctIffCyclic` | ww/1random.py:22-33 | For every k >= 1, n >= 1 and a word of length k^n, the sliced windows are pairwise distinct iff the cyclic ones are. |
| `DeBruijn.Record` | ww/1random.py:34 | `seen[s] = seen.get(s, 0) + 1`. The new keys are the old keys plus s. The count at s is one more than before, or 1 if s was missing. Every other key keeps its count, and the sum of the counts rises by one. |
| `DeBruijn.TotalRemove` | ww/1random.py:34-37 | The sum of a dictionary's counts is any one count plus the sum of the rest. |
| `DeBruijn.TotalIncrement` | ww/1random.py:34 | `seen[s] = seen.get(s, 0) + 1` raises the sum of the counts by exactly one. `Get` is `seen.get(s, 0)`. |
| `DeBruijn.TotalOfOnes` | ww/1random.py:37 | A dictionary whose counts are all 1 has as many keys as the sum of its counts. |
| `DeBruijn.DistinctOnce` | ww/1random.py:37 | In a window list without repeats, every window occurs at most once. |
| `DeBruijn.RepeatedTwice` | ww/1random.py:37 | A window at two starts occurs at least twice. |
| `DeBruijn.CountStep` | ww/1random.py:28-34 | Counting window i keeps `seen` equal to the occurrence counts of windows 0..i and raises their sum by one. |
| `DeBruijn.CountsDecideDistinct` | ww/1random.py:36-37 | With `seen` holding the counts of L windows, "L keys, each counted once" holds iff no two windows are equal. |
| `DeBruijn.SeenDecides` | ww/1random.py:22-37 | For a word of length k^n, the final test on `seen` holds iff the cyclic windows are pairwise distinct. |
| `DeBruijn.IsDeBruijn` | ww/1random.py:15-37 | False whenever len(word) != k^n. Otherwise true iff the L cyclic windows of length n are pairwise distinct. The loop invariant keeps `seen` equal to the window counts, with their sum equal to the number of iterations. |
| `DeBruijn.CyclicWindowsListed` | ww/1random.py:26-37 | Distinctness of the cyclic windows can be read off a list of them. |
| `DeBruijn.BinaryDeBruijnExample` | ww/1random.py:15-37 | "0011" has length 2^2 and distinct windows 00, 01, 11, 10. |
| `DeBruijn.BinaryRepeatExample` | ww/1random.py:15-37 | "0101" has length 2^2, but window 01 occurs twice. |
| `DeBruijn.AlphabetNotChecked` | ww/1random.py:22-37 | Any word whose symbols are pairwise different has pairwise distinct windows. With the right length it passes, e.g. "abcd" for k = 2, n = 2, so symbols are never checked against a k-letter alphabet. |

## Left out

- The Tkinter interface of `ww/pg.py`: window set-up, the colour key, word drawing, highlighting, `start_simulation` and the `__main__` block. These are widget and canvas I/O.
- The action messages, colours, highlights and `time.sleep` pauses inside `can_generate_dp`. They never read or write the table. Their left/right labels are also swapped: "Move left" fires when the token arrives from position i-1.
- Timing and plotting: `timer()`, the recorded times and input sizes, and `show_efficiency_graph`, which is called but not defined in `ww/pg.py`. These are wall-clock and floating-point concerns.
- `generate_random_word`: it depends on the process-wide random generator.
- `main` of `ww/1random.py`: console input and output, alphabet-building heuristics, and floating-point proportions.
- `DeBruijn.IsDeBruijn`: requires k >= 1 and n >= 1, and takes k and n as naturals. So it does not model these inputs, which Python still evaluates: n = 0, where `k ** 0 == 1` and every one-symbol word passes with the single empty window `""`; a negative k with n >= 1, such as `(-2) ** 2 == 4`; a negative n, where `k ** n` is a float; and k = 0, which is not an alphabet size.
- `DeBruijn.IsDeBruijn`: proves pairwise-distinct windows, not "every word of length n over a k-letter alphabet occurs". The code never checks the symbols, so that stronger reading holds only for words over a k-letter alphabet. `AlphabetNotChecked` shows words that pass without being over such an alphabet.
- The optional trace of actions: the source only displays it. `WalkGeneration.Witness` produces one witnessing walk instead.

## Findings

| source | as written | input that shows it | evidently intended | confidence | as-written member | corrected member |
|---|---|---|---|---|---|---|
| ww/1random.py:6-13 | `is_lyndon` rejects only a rotation that is strictly smaller, so it accepts a word equal to one of its non-trivial rotations | "aa" (also "abab") | reject: a Lyndon word is strictly smaller than every non-trivial rotation, as the docstring at line 6 says | high; not executed | `Lyndon.PeriodicWordsAccepted` | `Lyndon.IsStrictLyndon` |
