# Norvig spelling corrector, modelled in Dafny

This project models `spelling.py`, a single-word spelling corrector in the
style of Peter Norvig. The corrector counts the words of a corpus. For a word
to correct, it lower-cases the word and tries four tiers in order:

1. the word itself, when it is a known word;
2. the known words one edit away;
3. the known words two edits away;
4. the word itself, unchanged.

An edit is a deletion, an adjacent transposition, a substitution or an
insertion. Substituted and inserted letters come from `a`–`z`. From the first
tier that has a candidate, the corrector returns a candidate with the highest
relative frequency.

Three modules, one per component:

- `Corpus` (`corpus.dfy`) builds the frequency table. It holds ASCII
  lower-casing, the `\w+` tokenizer (`Tokenize`), the `Counter` (`Count`),
  `BuildTable`, and `Total`, the sum of all counts.
- `Edits` (`edits.dfy`) generates candidates. `Edits1` builds the four lists
  from the splits of the word, as the program does. `Edits2` is the union
  comprehension. `GenerateTwoEdits` is the program's in-place loop, proved
  equal to `Edits2`. Beside these, an index-based description of one edit
  (`OneEditAway`, `TwoEditsAway`) serves as the reference definition.
- `Corrector` (`corrector.dfy`) holds the known-word filter, the `max` by
  relative frequency (`MostFrequent`) and the tiered search
  (`CorrectSpelling`). The specification of the search is the predicate
  `IsCorrection`, stated with the reference definition of an edit.

The frequency table is a `map<string, nat>` passed in as a parameter, not a
module global. A table built by the counter has every count at least 1
(`ValidTable`). The corrector requires this of its table.

Two behaviours of the program shape the contracts:

- **Ties.** `max` returns the first maximal candidate in the iteration order
  of `list(set(...))`, which depends on the string hash seed, so
  `MostFrequent` promises only some candidate of maximal count.
- **Empty table.** With an empty table the ranking key evaluates `0 / 0` and
  raises `ZeroDivisionError`; the model returns `Failure(ZeroDivision)`
  exactly then.

## Model

| member | source | states |
|---|---|---|
| `Corpus.LowerChar` | spelling.py:54 | ASCII lower-casing of one character: upper-case letters move down by 32, everything else is unchanged, and the result is never upper case |
| `Corpus.Lower` | spelling.py:54 | `str.lower()`, applied to the word here and to the corpus at line 18, keeps the length and lowers every character in place |
| `Corpus.CaseVariantsLowerEqual` | spelling.py:54 | two strings that agree at every position up to the case of a letter have the same lowering |
| `Corpus.LowerIsLowerCase` | spelling.py:18 | the lowered text has no upper-case letter, and lowering twice is the same as lowering once |
| `Corpus.LowerCaseFixed` | spelling.py:54 | a string with no upper-case letter is its own lowering |
| `Corpus.RunLength` | spelling.py:18 | the leading run of `\w` characters is all word characters and is maximal: the next character, if any, is not a word character |
| `Corpus.Tokenize` | spelling.py:18 | every token of `re.findall(r"\w+", text)` is non-empty and made only of word characters; tokens of lower-case text are lower case |
| `Corpus.TokenizeSplitsAtSeparator` | spelling.py:18 | a non-word character separates tokens: `Tokenize(a + [c] + b) == Tokenize(a) + Tokenize(b)` |
| `Corpus.TokenizeWholeWord` | spelling.py:18 | a non-empty run of word characters is exactly one token |
| `Corpus.TokenizeNoWordChars` | spelling.py:18 | text without word characters has no tokens |
| `Corpus.RunLengthBeforeSeparator` | spelling.py:18 | a run stops at the first non-word character, whatever follows it |
| `Corpus.Count` | spelling.py:19 | `Counter(tokens)`: the keys are exactly the tokens, each count is the token's multiplicity, and every count is at least 1 |
| `Corpus.Freq` | spelling.py:72 | `WORDS[w]` is the stored count of a known word and 0 for an unknown one, so in a counter-built table it is positive exactly for the known words |
| `Corpus.BuildTable` | spelling.py:18-19 | every token of the lowered corpus is a key; every key is a non-empty lower-case run of word characters whose count is its number of occurrences among the tokens, and is at least 1; the counts add up to the number of tokens |
| `Corpus.BuildTableEmpty` | spelling.py:18-19 | a corpus without word characters, such as empty or blank text, gives the empty table |
| `Corpus.Total` | spelling.py:72 | `sum(WORDS.values())` of a counter-built table is at least the number of distinct words |
| `Corpus.TotalRemove` | spelling.py:72 | `sum(WORDS.values())` does not depend on the order of the keys: it is any one count plus the sum of the rest |
| `Corpus.FreqAtMostTotal` | spelling.py:72 | no single count exceeds the sum of all counts |
| `Corpus.TotalIncrement` | spelling.py:19 | counting one more occurrence raises the sum by one |
| `Corpus.CountTotal` | spelling.py:18-19 | the counts of the counter add up to the number of tokens |
| `Corpus.TotalZeroIffEmpty` | spelling.py:72 | for a counter-built table the denominator is zero exactly when the table is empty |
| `Edits.Splits` | spelling.py:26 | there are `len(word) + 1` splits, and split `i` is `(word[:i], word[i:])` |
| `Edits.Collect` | spelling.py:28-31 | a list comprehension over the splits holds every element made from any split, and nothing else |
| `Edits.DeletionsOf` | spelling.py:28 | a split `(L, R)` yields one deletion when `R` is non-empty and none otherwise; it is one character shorter than the word and starts with `L` |
| `Edits.TranspositionsOf` | spelling.py:29 | a split `(L, R)` yields one transposition when `len(R) > 1` and none otherwise; it is a rearrangement of the word's characters that starts with `L` |
| `Edits.SubstitutionsOf` | spelling.py:30 | a split `(L, R)` with `R` non-empty yields 26 strings of the word's length: `L`, then the `k`-th letter, then `R[1:]`; an empty `R` yields none |
| `Edits.InsertionsOf` | spelling.py:31 | every split `(L, R)` yields 26 strings one longer than the word: `L`, then the `k`-th letter, then `R` |
| `Edits.SplitForms` | spelling.py:28-31 | at split `i`, each comprehension yields the deletion, transposition, substitutions or insertions at index `i` |
| `Edits.DeletionsCharacterization` | spelling.py:28 | the deletions list holds exactly `word[:i] + word[i+1:]` for `i < len(word)` |
| `Edits.TranspositionsCharacterization` | spelling.py:29 | the transpositions list holds exactly the swaps of positions `i` and `i+1` for `i + 1 < len(word)` |
| `Edits.SubstitutionsCharacterization` | spelling.py:30 | the substitutions list holds exactly `word[:i] + c + word[i+1:]` for `i < len(word)` and `c` in `a`–`z` |
| `Edits.InsertionsCharacterization` | spelling.py:31 | the insertions list holds exactly `word[:i] + c + word[i:]` for `i <= len(word)` and `c` in `a`–`z` |
| `Edits.FamiliesCharacterization` | spelling.py:25-33 | the four lists built from the splits together hold exactly the strings one deletion, transposition, substitution or insertion away |
| `Edits.Edits1` | spelling.py:22-33 | a string is in `generate_1_edit(word)` if and only if it is one deletion, transposition, substitution or insertion away |
| `Edits.Edits1Lengths` | spelling.py:25-33 | every one-edit string has length `len(word) - 1`, `len(word)` or `len(word) + 1` |
| `Edits.Edits1OfEmpty` | spelling.py:26-33 | the one-edit strings of the empty word are exactly the 26 one-letter strings `a`–`z` |
| `Edits.OneEditFromEmpty` | spelling.py:26-31 | the empty word has no deletion, transposition or substitution, so a string is one edit from it exactly when it is a single letter `a`–`z` |
| `Edits.SelfInEdits1` | spelling.py:30 | a word holding a letter `a`–`z` is in its own one-edit set, because substituting that letter by itself leaves it unchanged |
| `Edits.UnionOfEdits1` | spelling.py:36-44 | the union of the one-edit sets of `firsts` holds exactly the strings one edit away from some member of `firsts` |
| `Edits.UnionOfEdits1Add` | spelling.py:43 | adding one first-edit string to the union adds exactly its one-edit set |
| `Edits.GenerateTwoEdits` | spelling.py:36-44 | the loop that grows the set in place returns exactly the union comprehension, which holds exactly the strings two edits away |
| `Edits.Edits2` | spelling.py:36-44 | `e2` is in `generate_2_edits(word)` if and only if some string `u` is one edit from `word` and `e2` is one edit from `u` |
| `Edits.SelfInEdits2` | spelling.py:28-44 | every word, the empty word included, is in its own two-edit set: insert `a` and then delete it |
| `Corrector.FilterWords` | spelling.py:47-48 | the filter's result is contained in the candidates and in the table's keys, and keeps every candidate that is a known word |
| `Corrector.FilterWordsEmpty` | spelling.py:47-48 | the filter is empty exactly when no candidate is a known word |
| `Corrector.Probability` | spelling.py:72 | the ranking key `WORDS[w] / sum(WORDS.values())` lies between 0 and 1, and in a counter-built table it is positive exactly for the known words |
| `Corrector.FractionBounds` | spelling.py:72 | a part of a positive whole, divided by it, lies between 0 and 1 and is positive exactly when the part is |
| `Corrector.DivisionKeepsOrder` | spelling.py:72 | dividing by a positive denominator keeps the order |
| `Corrector.RankingByCount` | spelling.py:72 | ranking by `WORDS[w] / sum(WORDS.values())` is ranking by count when the sum is positive |
| `Corrector.MaximumExists` | spelling.py:72 | every non-empty candidate set has a member of maximal count |
| `Corrector.MostFrequent` | spelling.py:72 | `max` with the probability key gives `ZeroDivision` exactly when the sum of counts is zero; otherwise it returns a candidate whose count and whose probability are at least those of every candidate |
| `Corrector.IsCorrection` | spelling.py:54-69 | the four tiers of the search, stated with the reference definition of an edit; any correction is the lowered word itself or a known word |
| `Corrector.CorrectSpelling` | spelling.py:51-72 | fails exactly on `0 / 0`. Otherwise, with `w` the lowered word: a known `w` is returned unchanged; else a known word of maximal count one edit away, if any exists; else one two edits away, if any exists; else `w` itself. The result is always `w` or a known word |
| `Corrector.KnownWordsAreKept` | spelling.py:54-58 | every word of the corpus is its own correction |
| `Corrector.CorrectionIsLowerCase` | spelling.py:51-72 | against a table built from a corpus, every correction is lower case |
| `Corrector.CorrectionIgnoresCase` | spelling.py:54 | two spellings that agree at every position up to the case of a letter, a condition stated without lowering, have the same corrections |

## Left out

- Reading `corpus.txt` at import time (spelling.py:15-16) is file I/O. `BuildTable` takes the corpus text as a parameter instead.
- Unicode is not modelled. `\w` is restricted to ASCII letters, digits and `_`, and `str.lower()` to the ASCII letters `A`–`Z`.
- Floating-point division in the ranking key is modelled as real division. Rounding is not modelled.
- Corrector.MostFrequent: returns some candidate of maximal count, not a specific one. The program's choice depends on the iteration order of `list(set(...))`, which depends on the string hash seed.
- Corrector.FilterWords: returns a set rather than the program's list. The list has no duplicates, but its order is arbitrary and is not modelled.
- Corrector.CorrectSpelling: requires a table whose counts are all at least 1. Every table the counter builds meets this (`Corpus.Count`).
- The `__main__` demonstration call (spelling.py:75-76) is not modelled, and neither is the running time of the two-edit expansion.
