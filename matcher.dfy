/**
 * The phrase matcher `contains_unwanted_words(text, unwanted_words)`: a record's
 * text is unwanted when, after lowercasing both sides, some listed phrase
 * occurs in it as a contiguous substring.
 */
module Matcher {
  import opened Text

  /** Phrase `p` occurs in `text` once both are lowercased. */
  ghost predicate PhraseIn(p: string, text: string) {
    IsSubstring(LowerStr(p), LowerStr(text))
  }

  /**
   * The early-exit search over the phrase list: the first phrase found ends
   * the search with true, running off the end gives false.
   */
  function ContainsUnwantedWords(text: string, phrases: seq<string>): (r: bool)
    ensures r <==> exists k :: 0 <= k < |phrases| && PhraseIn(phrases[k], text)
    ensures phrases == [] ==> !r
    decreases |phrases|
  {
    if phrases == [] then false
    else if Contains(LowerStr(text), LowerStr(phrases[0])) then true
    else
      var r := ContainsUnwantedWords(text, phrases[1..]);
      assert forall k :: 1 <= k < |phrases| ==> phrases[k] == phrases[1..][k - 1];
      r
  }

  /** The same search written as the source writes it: a `for` loop that returns on the first hit. */
  method CheckUnwanted(text: string, phrases: seq<string>) returns (found: bool)
    ensures found <==> exists k :: 0 <= k < |phrases| && PhraseIn(phrases[k], text)
    ensures found == ContainsUnwantedWords(text, phrases)
  {
    for k := 0 to |phrases|
      invariant forall j :: 0 <= j < k ==> !PhraseIn(phrases[j], text)
    {
      if Contains(LowerStr(text), LowerStr(phrases[k])) {
        return true;
      }
    }
    return false;
  }

  /** Only the lowercased forms of the text and of each phrase matter. */
  lemma CaseInsensitive(t1: string, t2: string, ps1: seq<string>, ps2: seq<string>)
    requires LowerStr(t1) == LowerStr(t2)
    requires |ps1| == |ps2|
    requires forall k :: 0 <= k < |ps1| ==> LowerStr(ps1[k]) == LowerStr(ps2[k])
    ensures ContainsUnwantedWords(t1, ps1) == ContainsUnwantedWords(t2, ps2)
  {
  }

  /** Every phrase of the list, lowercased. */
  function LowerAll(phrases: seq<string>): (lowered: seq<string>)
    ensures |lowered| == |phrases|
    ensures forall k :: 0 <= k < |phrases| ==> lowered[k] == LowerStr(phrases[k])
  {
    seq(|phrases|, k requires 0 <= k < |phrases| => LowerStr(phrases[k]))
  }

  /** Lowercasing the text or the phrases beforehand does not change the verdict. */
  lemma LoweringInputsChangesNothing(text: string, phrases: seq<string>)
    ensures ContainsUnwantedWords(LowerStr(text), phrases) == ContainsUnwantedWords(text, phrases)
    ensures ContainsUnwantedWords(text, LowerAll(phrases)) == ContainsUnwantedWords(text, phrases)
  {
    LowerStrIdempotent(text);
    CaseInsensitive(LowerStr(text), text, phrases, phrases);
    forall k | 0 <= k < |phrases| ensures LowerStr(LowerAll(phrases)[k]) == LowerStr(phrases[k]) {
      LowerStrIdempotent(phrases[k]);
    }
    CaseInsensitive(text, text, LowerAll(phrases), phrases);
  }

  /** A text that is unwanted for some list stays unwanted for any list holding all its phrases. */
  lemma {:induction false} Monotone(text: string, ps1: seq<string>, ps2: seq<string>)
    requires forall p :: p in ps1 ==> p in ps2
    ensures ContainsUnwantedWords(text, ps1) ==> ContainsUnwantedWords(text, ps2)
  {
    if ContainsUnwantedWords(text, ps1) {
      var k :| 0 <= k < |ps1| && PhraseIn(ps1[k], text);
      assert ps1[k] in ps2;
      var j :| 0 <= j < |ps2| && ps2[j] == ps1[k];
      assert PhraseIn(ps2[j], text);
    }
  }

  /** The verdict depends on the set of phrases only: neither their order nor duplicates matter. */
  lemma PhraseOrderAndDuplicatesIrrelevant(text: string, ps1: seq<string>, ps2: seq<string>)
    requires forall p :: p in ps1 <==> p in ps2
    ensures ContainsUnwantedWords(text, ps1) == ContainsUnwantedWords(text, ps2)
  {
    Monotone(text, ps1, ps2);
    Monotone(text, ps2, ps1);
  }

  /** Matching against two concatenated lists is matching against either. */
  lemma {:induction false} AppendPhrases(text: string, ps1: seq<string>, ps2: seq<string>)
    ensures ContainsUnwantedWords(text, ps1 + ps2)
        == (ContainsUnwantedWords(text, ps1) || ContainsUnwantedWords(text, ps2))
  {
    Monotone(text, ps1, ps1 + ps2);
    Monotone(text, ps2, ps1 + ps2);
    if ContainsUnwantedWords(text, ps1 + ps2) {
      var k :| 0 <= k < |ps1 + ps2| && PhraseIn((ps1 + ps2)[k], text);
      if k < |ps1| {
        assert PhraseIn(ps1[k], text);
      } else {
        assert PhraseIn(ps2[k - |ps1|], text);
      }
    }
  }

  /** An empty phrase is contained in every text, so a list holding one flags everything. */
  lemma EmptyPhraseMatchesEverything(text: string, phrases: seq<string>)
    requires "" in phrases
    ensures ContainsUnwantedWords(text, phrases)
  {
  }

  /** The empty text is unwanted exactly when the list holds the empty phrase. */
  lemma {:induction false} EmptyText(phrases: seq<string>)
    ensures ContainsUnwantedWords("", phrases) <==> "" in phrases
  {
    if "" in phrases {
      EmptyPhraseMatchesEverything("", phrases);
    }
    if ContainsUnwantedWords("", phrases) {
      var k :| 0 <= k < |phrases| && PhraseIn(phrases[k], "");
      SubstringOfEmpty(LowerStr(phrases[k]));
      assert phrases[k] == "";
    }
  }

  /** Upper-case text still matches a mixed-case phrase. */
  lemma ShoutedDisclaimerMatches()
    ensures ContainsUnwantedWords("AS AN AI LANGUAGE MODEL", ["as an AI language model"])
  {
  }

  /** Matching is plain substring search, not whole words: "ai" is found inside "TRAIL". */
  lemma SubstringNotWord()
    ensures ContainsUnwantedWords("TRAIL", ["ai"])
    ensures !ContainsUnwantedWords("plan", ["ai"])
  {
    assert LowerStr("TRAIL") == "trail";
    assert LowerStr("ai") == "ai";
    assert OccursAt("ai", "trail", 2);
    assert LowerStr("plan") == "plan";
    forall i | 0 <= i <= 2 ensures !OccursAt("ai", "plan", i) {
      assert "plan"[i..i + 2][1] == "plan"[i + 1] != 'i';
    }
  }
}
