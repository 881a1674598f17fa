/** The edit generator: every string one or two single-character edits
    (deletion, adjacent transposition, substitution, insertion) away from a
    word, with substituted and inserted letters drawn from `a`-`z`. */
module Edits {

  /** The alphabet of substitutions and insertions. */
  const Letters: string := "abcdefghijklmnopqrstuvwxyz"

  // ---------------------------------------------------------------------
  // The generator as the program builds it: from the splits of the word

  /** `[(word[:i], word[i:]) for i in range(len(word) + 1)]` */
  function Splits(w: string): (splits: seq<(string, string)>)
    ensures |splits| == |w| + 1
    ensures forall i :: 0 <= i <= |w| ==> splits[i] == (w[..i], w[i..])
  {
    seq(|w| + 1, i requires 0 <= i <= |w| => (w[..i], w[i..]))
  }

  /** A list comprehension over the splits: the lists `build` makes from
      each split, concatenated in order. Its members are exactly the members
      of the lists made from the individual splits. */
  function Collect(splits: seq<(string, string)>, build: ((string, string)) -> seq<string>): (r: seq<string>)
    ensures forall k, e :: 0 <= k < |splits| && e in build(splits[k]) ==> e in r
    ensures forall e :: e in r ==> exists k :: 0 <= k < |splits| && e in build(splits[k])
    decreases |splits|
  {
    if splits == [] then []
    else
      var rest := Collect(splits[1..], build);
      assert forall k :: 1 <= k < |splits| ==> splits[k] == splits[1..][k - 1];
      build(splits[0]) + rest
  }

  /** `L + R[1:]`, for a split with `R` non-empty: one character shorter,
      and the left part is kept. */
  function DeletionsOf(split: (string, string)): (r: seq<string>)
    ensures |r| == (if |split.1| > 0 then 1 else 0)
    ensures forall k :: 0 <= k < |r| ==>
      |r[k]| + 1 == |split.0| + |split.1| && r[k][..|split.0|] == split.0
      && r[k][|split.0|..] == split.1[1..]
  {
    var (left, right) := split;
    if |right| > 0 then [left + right[1..]] else []
  }

  /** `L + R[1] + R[0] + R[2:]`, for a split with `len(R) > 1`: a
      rearrangement of the word that keeps the left part. */
  function TranspositionsOf(split: (string, string)): (r: seq<string>)
    ensures |r| == (if |split.1| > 1 then 1 else 0)
    ensures forall k :: 0 <= k < |r| ==>
      multiset(r[k]) == multiset(split.0 + split.1) && r[k][..|split.0|] == split.0
  {
    var (left, right) := split;
    if |right| > 1 then
      assert right == [right[0]] + [right[1]] + right[2..];
      [left + [right[1]] + [right[0]] + right[2..]]
    else []
  }

  /** `L + c + R[1:]` for every letter `c`, for a split with `R` non-empty:
      26 strings of the word's length that keep both sides of the split. */
  function SubstitutionsOf(split: (string, string)): (r: seq<string>)
    ensures |r| == (if |split.1| > 0 then |Letters| else 0)
    ensures forall k :: 0 <= k < |r| ==>
      |r[k]| == |split.0| + |split.1| && r[k][..|split.0|] == split.0
      && r[k][|split.0|] == Letters[k] && r[k][|split.0| + 1..] == split.1[1..]
  {
    var (left, right) := split;
    if |right| > 0 then seq(|Letters|, k requires 0 <= k < |Letters| => left + [Letters[k]] + right[1..]) else []
  }

  /** `L + c + R` for every letter `c`: 26 strings one longer than the word
      that keep both sides of the split. */
  function InsertionsOf(split: (string, string)): (r: seq<string>)
    ensures |r| == |Letters|
    ensures forall k :: 0 <= k < |r| ==>
      |r[k]| == |split.0| + |split.1| + 1 && r[k][..|split.0|] == split.0
      && r[k][|split.0|] == Letters[k] && r[k][|split.0| + 1..] == split.1
  {
    var (left, right) := split;
    seq(|Letters|, k requires 0 <= k < |Letters| => left + [Letters[k]] + right)
  }

  /** `generate_1_edit(word)`: the set of the four lists concatenated. It
      holds exactly the strings one edit away from the word. */
  function Edits1(w: string): (r: set<string>)
    ensures forall e :: e in r <==> OneEditAway(w, e)
  {
    var splits := Splits(w);
    FamiliesCharacterization(w);
    set e | e in Collect(splits, DeletionsOf) + Collect(splits, TranspositionsOf)
                 + Collect(splits, SubstitutionsOf) + Collect(splits, InsertionsOf)
  }

  /** The union of `Edits1(e1)` over every `e1` in `firsts`: the strings one
      edit away from some member of `firsts`. */
  function UnionOfEdits1(firsts: set<string>): (r: set<string>)
    ensures forall e :: e in r <==> exists u :: u in firsts && OneEditAway(u, e)
  {
    assert forall u, e :: u in firsts && OneEditAway(u, e) ==> e in Edits1(u);
    set e1, e2 | e1 in firsts && e2 in Edits1(e1) :: e2
  }

  /** `generate_2_edits(word)` as a set comprehension: the union of
      `Edits1(e1)` over every `e1` in `Edits1(w)`. It holds exactly the
      strings two edits away from the word. */
  function Edits2(w: string): (r: set<string>)
    ensures forall e :: e in r <==> TwoEditsAway(w, e)
  {
    UnionOfEdits1(Edits1(w))
  }

  lemma UnionOfEdits1Add(firsts: set<string>, e1: string)
    ensures UnionOfEdits1(firsts + {e1}) == UnionOfEdits1(firsts) + Edits1(e1)
  {
  }

  /** `generate_2_edits(word)` as the program computes it: a set grown in
      place, one one-edit candidate at a time. */
  method GenerateTwoEdits(word: string) returns (edits: set<string>)
    ensures edits == Edits2(word)
    ensures forall e :: e in edits <==> TwoEditsAway(word, e)
  {
    var first := Edits1(word);
    edits := {};
    var todo := first;
    ghost var done: set<string> := {};
    while todo != {}
      invariant todo + done == first
      invariant edits == UnionOfEdits1(done)
      decreases |todo|
    {
      var e1 :| e1 in todo;
      var next := Edits1(e1);
      assert edits + next == UnionOfEdits1(done + {e1}) by {
        UnionOfEdits1Add(done, e1);
      }
      edits := edits + next;
      todo := todo - {e1};
      done := done + {e1};
    }
    assert edits == Edits2(word) by {
      assert done == first;
    }
  }

  // ---------------------------------------------------------------------
  // An independent, index-based description of one edit

  function DeleteAt(w: string, i: nat): string
    requires i < |w|
  {
    w[..i] + w[i + 1..]
  }

  function TransposeAt(w: string, i: nat): string
    requires i + 1 < |w|
  {
    w[..i] + [w[i + 1], w[i]] + w[i + 2..]
  }

  function ReplaceAt(w: string, i: nat, c: char): string
    requires i < |w|
  {
    w[..i] + [c] + w[i + 1..]
  }

  function InsertAt(w: string, i: nat, c: char): string
    requires i <= |w|
  {
    w[..i] + [c] + w[i..]
  }

  ghost predicate IsDeletion(w: string, e: string) {
    exists i: nat :: i < |w| && DeleteAt(w, i) == e
  }

  ghost predicate IsTransposition(w: string, e: string) {
    exists i: nat :: i + 1 < |w| && TransposeAt(w, i) == e
  }

  ghost predicate IsSubstitution(w: string, e: string) {
    exists i: nat, c :: i < |w| && c in Letters && ReplaceAt(w, i, c) == e
  }

  ghost predicate IsInsertion(w: string, e: string) {
    exists i: nat, c :: i <= |w| && c in Letters && InsertAt(w, i, c) == e
  }

  /** `e` is obtained from `w` by exactly one deletion, adjacent
      transposition, substitution or insertion of a letter `a`-`z`. */
  ghost predicate OneEditAway(w: string, e: string) {
    IsDeletion(w, e) || IsTransposition(w, e) || IsSubstitution(w, e) || IsInsertion(w, e)
  }

  /** `e` is obtained from `w` by two such edits in a row. */
  ghost predicate TwoEditsAway(w: string, e: string) {
    exists u :: OneEditAway(w, u) && OneEditAway(u, e)
  }

  // ---------------------------------------------------------------------
  // Properties

  /** What each family builds from the split `(w[..i], w[i..])`. */
  lemma SplitForms(w: string, i: nat)
    requires i <= |w|
    ensures i < |w| ==> DeletionsOf((w[..i], w[i..])) == [DeleteAt(w, i)]
    ensures i + 1 >= |w| ==> TranspositionsOf((w[..i], w[i..])) == []
    ensures i + 1 < |w| ==> TranspositionsOf((w[..i], w[i..])) == [TransposeAt(w, i)]
    ensures forall e :: e in SubstitutionsOf((w[..i], w[i..])) <==> exists c :: c in Letters && i < |w| && ReplaceAt(w, i, c) == e
    ensures forall e :: e in InsertionsOf((w[..i], w[i..])) <==> exists c :: c in Letters && InsertAt(w, i, c) == e
  {
    if i < |w| {
      assert w[i..][1..] == w[i + 1..];
    }
    if i + 1 < |w| {
      assert w[i..][2..] == w[i + 2..];
      assert w[i..][1] == w[i + 1] && w[i..][0] == w[i];
      assert w[..i] + [w[i..][1]] + [w[i..][0]] + w[i..][2..] == TransposeAt(w, i);
    }
    forall e | e in SubstitutionsOf((w[..i], w[i..]))
      ensures exists c :: c in Letters && i < |w| && ReplaceAt(w, i, c) == e
    {
      var k :| 0 <= k < |Letters| && e == SubstitutionsOf((w[..i], w[i..]))[k];
      assert ReplaceAt(w, i, Letters[k]) == e;
    }
    forall e, c | c in Letters && i < |w| && ReplaceAt(w, i, c) == e
      ensures e in SubstitutionsOf((w[..i], w[i..]))
    {
      var k :| 0 <= k < |Letters| && Letters[k] == c;
      assert SubstitutionsOf((w[..i], w[i..]))[k] == e;
    }
    forall e | e in InsertionsOf((w[..i], w[i..]))
      ensures exists c :: c in Letters && InsertAt(w, i, c) == e
    {
      var k :| 0 <= k < |Letters| && e == InsertionsOf((w[..i], w[i..]))[k];
      assert InsertAt(w, i, Letters[k]) == e;
    }
    forall e, c | c in Letters && InsertAt(w, i, c) == e
      ensures e in InsertionsOf((w[..i], w[i..]))
    {
      var k :| 0 <= k < |Letters| && Letters[k] == c;
      assert InsertionsOf((w[..i], w[i..]))[k] == e;
    }
  }

  lemma DeletionsCharacterization(w: string, e: string)
    ensures e in Collect(Splits(w), DeletionsOf) <==> IsDeletion(w, e)
  {
    var splits := Splits(w);
    if k :| 0 <= k < |splits| && e in DeletionsOf(splits[k]) {
      SplitForms(w, k);
    }
    if i: nat :| i < |w| && DeleteAt(w, i) == e {
      SplitForms(w, i);
      assert e in DeletionsOf(splits[i]);
    }
  }

  lemma TranspositionsCharacterization(w: string, e: string)
    ensures e in Collect(Splits(w), TranspositionsOf) <==> IsTransposition(w, e)
  {
    var splits := Splits(w);
    if k :| 0 <= k < |splits| && e in TranspositionsOf(splits[k]) {
      SplitForms(w, k);
    }
    if i: nat :| i + 1 < |w| && TransposeAt(w, i) == e {
      SplitForms(w, i);
      assert e in TranspositionsOf(splits[i]);
    }
  }

  lemma SubstitutionsCharacterization(w: string, e: string)
    ensures e in Collect(Splits(w), SubstitutionsOf) <==> IsSubstitution(w, e)
  {
    var splits := Splits(w);
    if k :| 0 <= k < |splits| && e in SubstitutionsOf(splits[k]) {
      SplitForms(w, k);
    }
    if i: nat, c :| i < |w| && c in Letters && ReplaceAt(w, i, c) == e {
      SplitForms(w, i);
      assert e in SubstitutionsOf(splits[i]);
    }
  }

  lemma InsertionsCharacterization(w: string, e: string)
    ensures e in Collect(Splits(w), InsertionsOf) <==> IsInsertion(w, e)
  {
    var splits := Splits(w);
    if k :| 0 <= k < |splits| && e in InsertionsOf(splits[k]) {
      SplitForms(w, k);
    }
    if i: nat, c :| i <= |w| && c in Letters && InsertAt(w, i, c) == e {
      SplitForms(w, i);
      assert e in InsertionsOf(splits[i]);
    }
  }

  /** The four lists built from the splits together hold exactly the
      strings one edit away. */
  lemma FamiliesCharacterization(w: string)
    ensures forall e ::
      e in Collect(Splits(w), DeletionsOf) + Collect(Splits(w), TranspositionsOf)
           + Collect(Splits(w), SubstitutionsOf) + Collect(Splits(w), InsertionsOf)
      <==> OneEditAway(w, e)
  {
    forall e
      ensures e in Collect(Splits(w), DeletionsOf) || e in Collect(Splits(w), TranspositionsOf)
              || e in Collect(Splits(w), SubstitutionsOf) || e in Collect(Splits(w), InsertionsOf)
              <==> OneEditAway(w, e)
    {
      DeletionsCharacterization(w, e);
      TranspositionsCharacterization(w, e);
      SubstitutionsCharacterization(w, e);
      InsertionsCharacterization(w, e);
    }
  }

  /** One edit changes the length by at most one. */
  lemma Edits1Lengths(w: string)
    ensures forall e :: e in Edits1(w) ==> |w| - 1 <= |e| <= |w| + 1
  {
  }

  /** The only one-edit strings of the empty word are the 26 single letters. */
  lemma Edits1OfEmpty()
    ensures Edits1([]) == set c | c in Letters :: [c]
  {
    var singles := set c | c in Letters :: [c];
    forall e
      ensures e in Edits1([]) <==> e in singles
    {
      OneEditFromEmpty(e);
    }
  }

  /** Nothing can be deleted, swapped or replaced in the empty word: its
      only edits are the insertions of one letter. */
  lemma OneEditFromEmpty(e: string)
    ensures OneEditAway([], e) <==> exists c :: c in Letters && e == [c]
  {
    assert !IsDeletion([], e) && !IsTransposition([], e) && !IsSubstitution([], e);
    if IsInsertion([], e) {
      var i: nat, c :| i <= 0 && c in Letters && InsertAt([], i, c) == e;
      assert e == [c];
    }
    if c :| c in Letters && e == [c] {
      assert InsertAt([], 0, c) == e;
    }
  }

  /** A word that holds some letter `a`-`z` is one edit from itself:
      substituting that letter by itself leaves it unchanged. */
  lemma SelfInEdits1(w: string, i: nat)
    requires i < |w| && w[i] in Letters
    ensures w in Edits1(w)
  {
    assert ReplaceAt(w, i, w[i]) == w;
  }

  /** Every word is two edits from itself: insert `a`, then delete it. */
  lemma SelfInEdits2(w: string)
    ensures w in Edits2(w)
  {
    var u := InsertAt(w, 0, 'a');
    assert u == ['a'] + w;
    assert DeleteAt(u, 0) == w;
    assert u in Edits1(w) && w in Edits1(u);
  }
}
