/** The corrector: the known-word filter, the frequency ranking of `max`
    and the tiered search of `correct_spelling` (exact hit, one edit, two
    edits, the word itself). */
module Corrector {
  import opened Corpus
  import opened Edits

  /** The one error the corrector can raise: `0 / 0` in the ranking key
      when the table is empty. */
  datatype CorrectError = ZeroDivision

  datatype Result<T> = Success(value: T) | Failure(error: CorrectError)

  /** `filter_words(candidates)`: the candidates that are keys of the table,
      each once. */
  function FilterWords(candidates: set<string>, words: Table): (known: set<string>)
    ensures known <= candidates
    ensures known <= words.Keys
    ensures forall w :: w in candidates && w in words ==> w in known
  {
    set w | w in candidates && w in words
  }

  /** The filter keeps exactly the known candidates, so it is empty
      precisely when no candidate is known. */
  lemma FilterWordsEmpty(candidates: set<string>, words: Table)
    ensures FilterWords(candidates, words) == {} <==> forall w :: w in candidates ==> w !in words
  {
  }

  // ---------------------------------------------------------------------
  // max(candidates, key=lambda w: WORDS[w] / sum(WORDS.values()))

  /** The ranking key: the relative frequency of `w` in the corpus, a
      number between 0 and 1 that is positive exactly for the known words. */
  ghost function Probability(words: Table, w: string): (p: real)
    requires Total(words) > 0
    ensures 0.0 <= p <= 1.0
    ensures ValidTable(words) ==> (p > 0.0 <==> w in words)
  {
    FreqAtMostTotal(words, w);
    FractionBounds(Freq(words, w) as real, Total(words) as real);
    Freq(words, w) as real / Total(words) as real
  }

  /** A part of a positive whole, as a fraction of it, lies between 0 and 1,
      and it is 0 only for an empty part. */
  lemma FractionBounds(a: real, t: real)
    requires 0.0 <= a <= t && t > 0.0
    ensures 0.0 <= a / t <= 1.0
    ensures a / t > 0.0 <==> a > 0.0
  {
    DivisionKeepsOrder(0.0, a, t);
    DivisionKeepsOrder(a, t, t);
    assert 0.0 / t == 0.0 && t / t == 1.0;
  }

  /** Dividing by a positive number keeps the order. */
  lemma DivisionKeepsOrder(a: real, b: real, t: real)
    requires t > 0.0
    ensures a / t <= b / t <==> a <= b
  {
    var x, y := a / t, b / t;
    assert x * t == a && y * t == b;
    assert (y - x) * t == b - a;
  }

  /** The shared positive denominator does not change the order: ranking by
      probability is ranking by count. */
  lemma RankingByCount(words: Table, v: string, w: string)
    requires Total(words) > 0
    ensures Probability(words, v) <= Probability(words, w) <==> Freq(words, v) <= Freq(words, w)
  {
    DivisionKeepsOrder(Freq(words, v) as real, Freq(words, w) as real, Total(words) as real);
  }

  /** Every non-empty finite set of candidates has one of maximal count. */
  lemma {:induction false} MaximumExists(candidates: set<string>, words: Table)
    requires candidates != {}
    ensures exists best :: best in candidates && forall v :: v in candidates ==> Freq(words, v) <= Freq(words, best)
    decreases |candidates|
  {
    var x :| x in candidates;
    if candidates != {x} {
      var rest := candidates - {x};
      MaximumExists(rest, words);
      var b :| b in rest && forall v :: v in rest ==> Freq(words, v) <= Freq(words, b);
      if Freq(words, x) <= Freq(words, b) {
        assert forall v :: v in candidates ==> Freq(words, v) <= Freq(words, b);
      } else {
        assert forall v :: v in candidates ==> Freq(words, v) <= Freq(words, x);
      }
    }
  }

  /** `max` over the candidates by relative frequency: some candidate of
      maximal probability (which one among equals depends on the iteration
      order of the candidate set), or the division error of an empty table. */
  method MostFrequent(candidates: set<string>, words: Table) returns (r: Result<string>)
    requires candidates != {}
    requires ValidTable(words)
    ensures r.Failure? <==> Total(words) == 0
    ensures r.Success? ==> r.value in candidates
    ensures r.Success? ==> forall v :: v in candidates ==> Freq(words, v) <= Freq(words, r.value)
    ensures r.Success? ==>
      Total(words) > 0 && forall v :: v in candidates ==> Probability(words, v) <= Probability(words, r.value)
  {
    TotalZeroIffEmpty(words);
    if words == map[] {
      return Failure(ZeroDivision);
    }
    MaximumExists(candidates, words);
    var best :| best in candidates && forall v :: v in candidates ==> Freq(words, v) <= Freq(words, best);
    forall v | v in candidates
      ensures Probability(words, v) <= Probability(words, best)
    {
      RankingByCount(words, v, best);
    }
    r := Success(best);
  }

  // ---------------------------------------------------------------------
  // correct_spelling(word)

  /** `r` is an acceptable correction of the lower-cased word `w`: the word
      itself when it is known; otherwise a known word of maximal count one
      edit away when there is one; otherwise a known word of maximal count
      two edits away when there is one; otherwise `w` unchanged. */
  ghost predicate IsCorrection(w: string, words: Table, r: string)
    ensures IsCorrection(w, words, r) ==> r == w || r in words
  {
    if w in words then
      r == w
    else if exists v :: v in words && OneEditAway(w, v) then
      r in words && OneEditAway(w, r) &&
      forall v :: v in words && OneEditAway(w, v) ==> words[v] <= words[r]
    else if exists v :: v in words && TwoEditsAway(w, v) then
      r in words && TwoEditsAway(w, r) &&
      forall v :: v in words && TwoEditsAway(w, v) ==> words[v] <= words[r]
    else
      r == w
  }

  /** `correct_spelling(word)`: lower-case the word, take the first tier
      with a known candidate and return a most frequent member of it. */
  method CorrectSpelling(word: string, words: Table) returns (r: Result<string>)
    requires ValidTable(words)
    ensures r.Failure? <==> Total(words) == 0
    ensures r.Success? ==> IsCorrection(Lower(word), words, r.value)
    // Implied by `IsCorrection`; stated here for callers that only need it.
    ensures r.Success? ==> r.value == Lower(word) || r.value in words
  {
    var w := Lower(word);
    var candidates: set<string>;
    if w in words {
      candidates := {w};
    } else {
      var oneEdit := FilterWords(Edits1(w), words);
      FilterWordsEmpty(Edits1(w), words);
      if oneEdit != {} {
        candidates := oneEdit;
      } else {
        var twoEdits := GenerateTwoEdits(w);
        var known := FilterWords(twoEdits, words);
        FilterWordsEmpty(twoEdits, words);
        if known != {} {
          candidates := known;
        } else {
          candidates := {w};
        }
      }
    }
    r := MostFrequent(candidates, words);
  }

  // ---------------------------------------------------------------------
  // Properties of corrections against a table built from a corpus

  /** A word of the corpus is its own correction. */
  lemma KnownWordsAreKept(text: string)
    ensures forall w, r :: w in BuildTable(text) && IsCorrection(Lower(w), BuildTable(text), r) ==> r == w
  {
  }

  /** Against a table built from a corpus, a correction is lower case. */
  lemma CorrectionIsLowerCase(text: string, word: string, r: string)
    requires IsCorrection(Lower(word), BuildTable(text), r)
    ensures IsLowerCase(r)
  {
  }

  /** Spellings of a word that differ only in the case of letters have the
      same corrections. */
  lemma CorrectionIgnoresCase(a: string, b: string, words: Table, r: string)
    requires CaseVariants(a, b)
    ensures IsCorrection(Lower(a), words, r) <==> IsCorrection(Lower(b), words, r)
  {
    CaseVariantsLowerEqual(a, b);
  }
}
