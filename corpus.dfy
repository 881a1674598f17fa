/** The corpus model: ASCII lowercasing, the `\w+` tokenizer and the word
    counter that together build the frequency table of the corrector. */
module Corpus {

  /** Word -> number of occurrences in the corpus (a Python `Counter`). */
  type Table = map<string, nat>

  /** A table as the counter builds it: every key was seen at least once. */
  predicate ValidTable(words: Table) {
    forall w :: w in words ==> words[w] >= 1
  }

  /** `Counter.__getitem__`: a missing word has count 0, so in a table the
      counter built a word has a positive count exactly when it is a key. */
  function Freq(words: Table, w: string): (n: nat)
    ensures w in words ==> n == words[w]
    ensures w !in words ==> n == 0
    ensures ValidTable(words) ==> (n > 0 <==> w in words)
  {
    if w in words then words[w] else 0
  }

  // ---------------------------------------------------------------------
  // Characters

  /** A word character of the regular expression `\w`, restricted to ASCII:
      a letter, a digit or the underscore. */
  predicate IsWordChar(c: char) {
    ('a' <= c <= 'z') || ('A' <= c <= 'Z') || ('0' <= c <= '9') || c == '_'
  }

  predicate IsUpper(c: char) {
    'A' <= c <= 'Z'
  }

  /** ASCII `str.lower()` on one character. */
  function LowerChar(c: char): (d: char)
    ensures !IsUpper(d)
    ensures IsUpper(c) ==> d as int == c as int + 32
    ensures !IsUpper(c) ==> d == c
    ensures IsWordChar(d) <==> IsWordChar(c)
  {
    if IsUpper(c) then (c as int - 'A' as int + 'a' as int) as char else c
  }

  /** ASCII `str.lower()`. */
  function Lower(s: string): (r: string)
    ensures |r| == |s|
    ensures forall i :: 0 <= i < |s| ==> r[i] == LowerChar(s[i])
  {
    seq(|s|, i requires 0 <= i < |s| => LowerChar(s[i]))
  }

  /** No upper-case letter occurs in `s`. */
  predicate IsLowerCase(s: string) {
    forall i :: 0 <= i < |s| ==> !IsUpper(s[i])
  }

  lemma LowerIsLowerCase(s: string)
    ensures IsLowerCase(Lower(s))
    ensures Lower(Lower(s)) == Lower(s)
  {
  }

  /** `a` and `b` hold the same characters up to the case of letters:
      at each position either they agree or one is the other lowered. */
  predicate CaseVariants(a: string, b: string) {
    |a| == |b| &&
    forall i :: 0 <= i < |a| ==>
      a[i] == b[i] || LowerChar(a[i]) == b[i] || a[i] == LowerChar(b[i])
  }

  /** Spellings that differ only in case lower to the same string. */
  lemma CaseVariantsLowerEqual(a: string, b: string)
    requires CaseVariants(a, b)
    ensures Lower(a) == Lower(b)
  {
    forall i | 0 <= i < |a|
      ensures Lower(a)[i] == Lower(b)[i]
    {
      var x, y := a[i], b[i];
      assert LowerChar(LowerChar(x)) == LowerChar(x);
      assert LowerChar(LowerChar(y)) == LowerChar(y);
    }
  }

  /** A lower-case string is its own lowering. */
  lemma LowerCaseFixed(s: string)
    requires IsLowerCase(s)
    ensures Lower(s) == s
  {
  }

  // ---------------------------------------------------------------------
  // Tokenizer: re.findall(r"\w+", text)

  predicate AllWordChars(s: string) {
    forall i :: 0 <= i < |s| ==> IsWordChar(s[i])
  }

  /** Length of the maximal run of word characters at the start of `s`. */
  function RunLength(s: string): (n: nat)
    ensures n <= |s|
    ensures AllWordChars(s[..n])
    ensures n < |s| ==> !IsWordChar(s[n])
    decreases |s|
  {
    if s == [] || !IsWordChar(s[0]) then 0
    else
      var n := 1 + RunLength(s[1..]);
      assert s[..n] == [s[0]] + s[1..][..n - 1];
      n
  }

  /** The maximal runs of word characters of `text`, left to right. */
  function Tokenize(text: string): (tokens: seq<string>)
    ensures forall k :: 0 <= k < |tokens| ==> tokens[k] != [] && AllWordChars(tokens[k])
    ensures IsLowerCase(text) ==> forall k :: 0 <= k < |tokens| ==> IsLowerCase(tokens[k])
    decreases |text|
  {
    if text == [] then []
    else if !IsWordChar(text[0]) then Tokenize(text[1..])
    else
      var n := RunLength(text);
      [text[..n]] + Tokenize(text[n..])
  }

  /** A run stops at the first non-word character, whatever follows it. */
  lemma {:induction false} RunLengthBeforeSeparator(a: string, c: char, b: string)
    requires !IsWordChar(c)
    ensures RunLength(a + [c] + b) == RunLength(a)
    decreases |a|
  {
    if a == [] {
    } else if IsWordChar(a[0]) {
      assert (a + [c] + b)[1..] == a[1..] + [c] + b;
      RunLengthBeforeSeparator(a[1..], c, b);
    }
  }

  /** Tokens never span a non-word character: the token list of
      `a + [c] + b` is the token list of `a` followed by that of `b`. */
  lemma {:induction false} TokenizeSplitsAtSeparator(a: string, c: char, b: string)
    requires !IsWordChar(c)
    ensures Tokenize(a + [c] + b) == Tokenize(a) + Tokenize(b)
    decreases |a|
  {
    var s := a + [c] + b;
    if a == [] {
      assert s[1..] == b;
    } else if !IsWordChar(a[0]) {
      assert s[1..] == a[1..] + [c] + b;
      TokenizeSplitsAtSeparator(a[1..], c, b);
    } else {
      var n := RunLength(a);
      RunLengthBeforeSeparator(a, c, b);
      assert RunLength(s) == n;
      assert s[..n] == a[..n];
      assert s[n..] == a[n..] + [c] + b;
      TokenizeSplitsAtSeparator(a[n..], c, b);
    }
  }

  /** A non-empty run of word characters is a single token. */
  lemma {:induction false} TokenizeWholeWord(w: string)
    requires w != [] && AllWordChars(w)
    ensures Tokenize(w) == [w]
  {
    RunLengthOfWord(w);
    assert w[..|w|] == w;
    assert w[|w|..] == [];
  }

  lemma RunLengthOfWord(w: string)
    requires AllWordChars(w)
    ensures RunLength(w) == |w|
  {
  }

  /** Text without word characters (empty, blank, punctuation) has no tokens. */
  lemma {:induction false} TokenizeNoWordChars(text: string)
    requires forall i :: 0 <= i < |text| ==> !IsWordChar(text[i])
    ensures Tokenize(text) == []
    decreases |text|
  {
    if text != [] {
      TokenizeNoWordChars(text[1..]);
    }
  }

  // ---------------------------------------------------------------------
  // Counter(words_list)

  /** `Counter(tokens)`: counts the tokens in order of appearance. */
  function Count(tokens: seq<string>): (words: Table)
    ensures forall w :: w in words <==> w in tokens
    ensures forall w :: w in words ==> words[w] == multiset(tokens)[w]
    ensures ValidTable(words)
    decreases |tokens|
  {
    if tokens == [] then map[]
    else
      var init := tokens[..|tokens| - 1];
      var t := tokens[|tokens| - 1];
      assert tokens == init + [t];
      var m := Count(init);
      m[t := Freq(m, t) + 1]
  }

  /** The table built from the corpus text: every token of the lowered
      text is a key, every key is a non-empty, lower-case run of word
      characters counting every occurrence of that run, and the counts add
      up to the number of tokens. */
  function BuildTable(text: string): (words: Table)
    ensures ValidTable(words)
    ensures forall w :: w in words ==>
      w != [] && AllWordChars(w) && IsLowerCase(w) && Lower(w) == w
      && words[w] == multiset(Tokenize(Lower(text)))[w]
    ensures forall t :: t in Tokenize(Lower(text)) ==> t in words
    ensures Total(words) == |Tokenize(Lower(text))|
  {
    LowerIsLowerCase(text);
    CountTotal(Tokenize(Lower(text)));
    Count(Tokenize(Lower(text)))
  }

  /** A corpus without word characters gives the empty table. */
  lemma BuildTableEmpty(text: string)
    requires forall i :: 0 <= i < |text| ==> !IsWordChar(text[i])
    ensures BuildTable(text) == map[]
  {
    TokenizeNoWordChars(Lower(text));
  }

  // ---------------------------------------------------------------------
  // sum(WORDS.values())

  /** The sum of all counts of the table. In a table the counter built,
      every key contributes at least one. */
  ghost function Total(words: Table): (t: nat)
    ensures ValidTable(words) ==> |words| <= t
    decreases |words|
  {
    if words == map[] then 0
    else
      var k :| k in words;
      assert |words - {k}| == |words| - 1;
      words[k] + Total(words - {k})
  }

  /** The sum does not depend on which key is taken out first. */
  lemma {:induction false} TotalRemove(words: Table, k: string)
    requires k in words
    ensures Total(words) == words[k] + Total(words - {k})
    decreases |words|
  {
    var j :| j in words && Total(words) == words[j] + Total(words - {j});
    if j != k {
      var mj := words - {j};
      var mk := words - {k};
      assert |mj| < |words|;
      TotalRemove(mj, k);
      TotalRemove(mk, j);
      assert mj - {k} == mk - {j};
    }
  }

  /** No single count exceeds the sum of all counts. */
  lemma FreqAtMostTotal(words: Table, w: string)
    ensures Freq(words, w) <= Total(words)
  {
    if w in words {
      TotalRemove(words, w);
    }
  }

  /** Counting one more occurrence of `t` raises the sum by one. */
  lemma TotalIncrement(words: Table, t: string)
    ensures Total(words[t := Freq(words, t) + 1]) == Total(words) + 1
  {
    var m := words[t := Freq(words, t) + 1];
    TotalRemove(m, t);
    assert m - {t} == words - {t};
    if t in words {
      TotalRemove(words, t);
    } else {
      assert words - {t} == words;
    }
  }

  /** The counts of `Counter(tokens)` add up to the number of tokens. */
  lemma {:induction false} CountTotal(tokens: seq<string>)
    ensures Total(Count(tokens)) == |tokens|
    decreases |tokens|
  {
    if tokens != [] {
      var init := tokens[..|tokens| - 1];
      var t := tokens[|tokens| - 1];
      var m := Count(init);
      assert Count(tokens) == m[t := Freq(m, t) + 1];
      CountTotal(init);
      TotalIncrement(m, t);
    }
  }

  /** For a table built by the counter the sum is zero exactly when the
      table is empty. */
  lemma TotalZeroIffEmpty(words: Table)
    requires ValidTable(words)
    ensures Total(words) == 0 <==> words == map[]
  {
  }
}
