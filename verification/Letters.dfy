/** Words in any case: how they stand in a text, letter by letter. */
module Letters {
  import T = Text

  predicate IsSameLetter(a: char, b: char) {
    a == b || ('A' <= a <= 'Z' && b as int == a as int + 32) || ('a' <= a <= 'z' && b as int == a as int - 32)
  }

  /** The word stands in the text from `i` on, whatever the case of the letters. */
  predicate StandsAt(text: string, i: nat, word: string) {
    i + |word| <= |text| && forall j :: 0 <= j < |word| ==> IsSameLetter(text[i + j], word[j])
  }

  predicate IsAnyCase(text: string, word: string) { |text| == |word| && StandsAt(text, 0, word) }

  lemma LettersFold(a: char, b: char)
    ensures T.Lower(a) == T.Lower(b) <==> IsSameLetter(a, b)
  {}

  /** Two texts fold alike exactly when they are the same letters in any case. */
  lemma BothFold(a: string, b: string)
    ensures T.LowerCase(a) == T.LowerCase(b) <==> IsAnyCase(a, b)
  {
    if |a| == |b| {
      forall j | 0 <= j < |a| ensures T.LowerCase(a)[j] == T.LowerCase(b)[j] <==> IsSameLetter(a[j], b[j]) {
        LettersFold(a[j], b[j]);
      }
      assert (forall j :: 0 <= j < |a| ==> IsSameLetter(a[j], b[j])) <==> IsAnyCase(a, b);
    }
  }

  predicate HasNoCapitals(w: string) {
    forall i :: 0 <= i < |w| ==> !('A' <= w[i] <= 'Z')
  }

  /** The lower-cased text and a lower-case word agree where the text and the word do in any case. */
  lemma FoldedStands(text: string, i: nat, word: string)
    requires HasNoCapitals(word) && i + |word| <= |text|
    ensures StandsAt(text, i, word) <==> T.LowerCase(text)[i..i + |word|] == word
  {
    var there := T.LowerCase(text)[i..i + |word|];
    forall j | 0 <= j < |word| ensures there[j] == word[j] <==> IsSameLetter(text[i + j], word[j]) {
      LettersFold(text[i + j], word[j]);
      assert there[j] == T.Lower(text[i + j]);
    }
    assert (forall j :: 0 <= j < |word| ==> there[j] == word[j]) <==> there == word;
  }

  predicate PartAt(s: string, i: nat, part: string) {
    i + |part| <= |s| && s[i..i + |part|] == part
  }

  /** `contains`: the part stands somewhere. */
  lemma {:induction false} ContainsSomewhere(s: string, part: string)
    ensures T.Contains(s, part) <==> exists i: nat :: PartAt(s, i, part)
  {
    if T.StartsWith(s, part) {
      assert PartAt(s, 0, part);
    } else if s != "" {
      ContainsSomewhere(s[1..], part);
      forall i: nat ensures PartAt(s[1..], i, part) <==> PartAt(s, i + 1, part) {
        if i + |part| <= |s[1..]| {
          assert s[1..][i..i + |part|] == s[i + 1..i + 1 + |part|];
        }
      }
      if i: nat :| PartAt(s, i, part) {
        assert i > 0 && PartAt(s[1..], i - 1, part);
      }
    } else {
      assert forall i: nat :: !PartAt(s, i, part);
    }
  }

  lemma HoldsWord(text: string, word: string)
    requires HasNoCapitals(word)
    ensures T.Contains(T.LowerCase(text), word) <==> exists i: nat :: StandsAt(text, i, word)
  {
    ContainsSomewhere(T.LowerCase(text), word);
    forall i: nat ensures StandsAt(text, i, word) <==> PartAt(T.LowerCase(text), i, word) {
      if i + |word| <= |text| {
        FoldedStands(text, i, word);
      }
    }
    hide T.Contains, T.LowerCase, HasNoCapitals, PartAt, StandsAt;
  }

  lemma FoldedIs(text: string, word: string)
    requires HasNoCapitals(word)
    ensures T.LowerCase(text) == word <==> IsAnyCase(text, word)
  {
    if |text| == |word| {
      FoldedStands(text, 0, word);
      assert T.LowerCase(text)[0..0 + |word|] == T.LowerCase(text);
    }
  }

  lemma EndsOnWord(text: string, word: string)
    requires HasNoCapitals(word)
    ensures T.EndsWith(T.LowerCase(text), word) <==> |text| >= |word| && StandsAt(text, |text| - |word|, word)
  {
    if |text| >= |word| {
      FoldedStands(text, |text| - |word|, word);
      assert T.LowerCase(text)[|text| - |word|..|text|] == T.LowerCase(text)[|text| - |word|..];
    }
  }
}
