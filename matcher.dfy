/** Sorting each candidate word into one bucket: a stopword, a word that is
    already a catalogued target item, or an unmatched word kept for review. */
module Matcher {
  import opened Languages
  import opened Lists

  datatype Outcome = RemovedStopword | RemovedTargetItem | Unmatched

  /** `is_target_item`: exact, case-sensitive membership in the cleaned
      target-item list. */
  predicate IsTargetItem(word: string, targetItemList: seq<string>)
    ensures IsTargetItem(word, targetItemList) <==>
      exists i :: 0 <= i < |targetItemList| && targetItemList[i] == word
  {
    word in targetItemList
  }

  /** The bucket one word lands in. Outside Korean and Japanese the stopword
      test comes first; for Korean and Japanese it is not made at all. */
  function ClassifyWord(env: Env, lang: Language, word: string, targetItemList: seq<string>): (o: Outcome)
    ensures o == RemovedStopword <==> !IsKoreanOrJapanese(lang) && IsStopword(env, lang, word)
    ensures o == RemovedTargetItem <==>
      IsTargetItem(word, targetItemList) && (IsKoreanOrJapanese(lang) || !IsStopword(env, lang, word))
    ensures o == Unmatched <==>
      !IsTargetItem(word, targetItemList) && (IsKoreanOrJapanese(lang) || !IsStopword(env, lang, word))
  {
    if IsKoreanOrJapanese(lang) then
      if IsTargetItem(word, targetItemList) then RemovedTargetItem else Unmatched
    else if IsStopword(env, lang, word) then RemovedStopword
    else if IsTargetItem(word, targetItemList) then RemovedTargetItem
    else Unmatched
  }

  /** The test "this word lands in bucket `o`", as a function value. */
  function LandsIn(env: Env, lang: Language, targetItemList: seq<string>, o: Outcome): string -> bool
  {
    word => ClassifyWord(env, lang, word, targetItemList) == o
  }

  /** The words of `wordList` that land in bucket `o`, in input order. */
  function Bucket(env: Env, lang: Language, wordList: seq<string>, targetItemList: seq<string>, o: Outcome): seq<string>
  {
    Filter(LandsIn(env, lang, targetItemList, o), wordList)
  }

  /** The classification loop of `get_unmatched_words`: every word is appended
      to exactly one of the three lists. */
  method GetUnmatchedWords(env: Env, lang: Language, wordList: seq<string>, targetItemList: seq<string>)
    returns (unmatchedWords: seq<string>, removedStopwords: seq<string>, removedTargetItems: seq<string>)
    ensures unmatchedWords == Bucket(env, lang, wordList, targetItemList, Unmatched)
    ensures removedStopwords == Bucket(env, lang, wordList, targetItemList, RemovedStopword)
    ensures removedTargetItems == Bucket(env, lang, wordList, targetItemList, RemovedTargetItem)
  {
    unmatchedWords, removedStopwords, removedTargetItems := [], [], [];
    for i := 0 to |wordList|
      invariant unmatchedWords == Bucket(env, lang, wordList[..i], targetItemList, Unmatched)
      invariant removedStopwords == Bucket(env, lang, wordList[..i], targetItemList, RemovedStopword)
      invariant removedTargetItems == Bucket(env, lang, wordList[..i], targetItemList, RemovedTargetItem)
    {
      var word := wordList[i];
      assert wordList[..i + 1][..i] == wordList[..i];
      if IsKoreanOrJapanese(lang) {
        if IsTargetItem(word, targetItemList) {
          removedTargetItems := removedTargetItems + [word];
        } else {
          unmatchedWords := unmatchedWords + [word];
        }
      } else {
        if IsStopword(env, lang, word) {
          removedStopwords := removedStopwords + [word];
        } else if IsTargetItem(word, targetItemList) {
          removedTargetItems := removedTargetItems + [word];
        } else {
          unmatchedWords := unmatchedWords + [word];
        }
      }
    }
    assert wordList[..|wordList|] == wordList;
  }

  /** Appending one word to the list appends it to its own bucket only. */
  lemma BucketSnoc(env: Env, lang: Language, wordList: seq<string>, word: string, targetItemList: seq<string>, o: Outcome)
    ensures Bucket(env, lang, wordList + [word], targetItemList, o) ==
      Bucket(env, lang, wordList, targetItemList, o) +
      (if ClassifyWord(env, lang, word, targetItemList) == o then [word] else [])
  {
    assert (wordList + [word])[..|wordList|] == wordList;
  }

  /** The three buckets together hold every input word exactly as often as the
      input does: nothing is dropped and nothing is duplicated. */
  lemma Partition(env: Env, lang: Language, wordList: seq<string>, targetItemList: seq<string>)
    ensures multiset(Bucket(env, lang, wordList, targetItemList, Unmatched)
                   + Bucket(env, lang, wordList, targetItemList, RemovedStopword)
                   + Bucket(env, lang, wordList, targetItemList, RemovedTargetItem)) == multiset(wordList)
    ensures |Bucket(env, lang, wordList, targetItemList, Unmatched)|
          + |Bucket(env, lang, wordList, targetItemList, RemovedStopword)|
          + |Bucket(env, lang, wordList, targetItemList, RemovedTargetItem)| == |wordList|
  {
    var isUnmatched := LandsIn(env, lang, targetItemList, Unmatched);
    var isStopword := LandsIn(env, lang, targetItemList, RemovedStopword);
    var isTarget := LandsIn(env, lang, targetItemList, RemovedTargetItem);
    assert forall w :: ExactlyOne(isUnmatched, isStopword, isTarget, w);
    FilterPartition3(isUnmatched, isStopword, isTarget, wordList);
    var all := Filter(isUnmatched, wordList) + Filter(isStopword, wordList) + Filter(isTarget, wordList);
    assert |multiset(all)| == |all|;
  }

  /** Each bucket keeps the input order. */
  lemma BucketsInOrder(env: Env, lang: Language, wordList: seq<string>, targetItemList: seq<string>, o: Outcome)
    ensures IsSubsequence(Bucket(env, lang, wordList, targetItemList, o), wordList)
  {
    FilterIsSubsequence(LandsIn(env, lang, targetItemList, o), wordList);
  }

  /** A word is in a bucket exactly when it is an input word that lands there. */
  lemma BucketMembership(env: Env, lang: Language, wordList: seq<string>, targetItemList: seq<string>, o: Outcome, word: string)
    ensures word in Bucket(env, lang, wordList, targetItemList, o) <==>
      word in wordList && ClassifyWord(env, lang, word, targetItemList) == o
  {
    FilterMembership(LandsIn(env, lang, targetItemList, o), wordList);
  }

  /** No unmatched word is a target item, and outside Korean and Japanese none
      is a stopword; for Korean and Japanese the stopword bucket is empty. */
  lemma BucketRules(env: Env, lang: Language, wordList: seq<string>, targetItemList: seq<string>)
    ensures forall w :: w in Bucket(env, lang, wordList, targetItemList, Unmatched) ==>
      !IsTargetItem(w, targetItemList) && (IsKoreanOrJapanese(lang) || !IsStopword(env, lang, w))
    ensures IsKoreanOrJapanese(lang) ==> Bucket(env, lang, wordList, targetItemList, RemovedStopword) == []
    ensures !IsKoreanOrJapanese(lang) ==>
      forall w :: w in wordList && IsStopword(env, lang, w) ==>
        w in Bucket(env, lang, wordList, targetItemList, RemovedStopword) &&
        w !in Bucket(env, lang, wordList, targetItemList, RemovedTargetItem)
  {
    forall w ensures w in Bucket(env, lang, wordList, targetItemList, Unmatched) ==>
      !IsTargetItem(w, targetItemList) && (IsKoreanOrJapanese(lang) || !IsStopword(env, lang, w))
    {
      BucketMembership(env, lang, wordList, targetItemList, Unmatched, w);
    }
    forall w ensures !IsKoreanOrJapanese(lang) && w in wordList && IsStopword(env, lang, w) ==>
        w in Bucket(env, lang, wordList, targetItemList, RemovedStopword) &&
        w !in Bucket(env, lang, wordList, targetItemList, RemovedTargetItem)
    {
      BucketMembership(env, lang, wordList, targetItemList, RemovedStopword, w);
      BucketMembership(env, lang, wordList, targetItemList, RemovedTargetItem, w);
    }
    if IsKoreanOrJapanese(lang) {
      FilterNone(LandsIn(env, lang, targetItemList, RemovedStopword), wordList);
    }
  }

  /** The worked example: with stopwords ["the"] and the target item
      "le chat", the word list ["the", "le chat", "xyz123"] leaves "xyz123"
      unmatched. */
  lemma EnglishScenario(env: Env)
    requires env.stopwords(English) == ["the"]
    ensures var words := ["the", "le chat", "xyz123"];
      var targets := ["le chat"];
      Bucket(env, English, words, targets, Unmatched) == ["xyz123"] &&
      Bucket(env, English, words, targets, RemovedStopword) == ["the"] &&
      Bucket(env, English, words, targets, RemovedTargetItem) == ["le chat"]
  {
    var targets := ["le chat"];
    assert ClassifyWord(env, English, "the", targets) == RemovedStopword;
    assert "le chat" !in ["the"] && "xyz123" !in ["the"] && "xyz123" !in targets;
    assert ClassifyWord(env, English, "le chat", targets) == RemovedTargetItem;
    assert ClassifyWord(env, English, "xyz123", targets) == Unmatched;
    forall o: Outcome
      ensures Bucket(env, English, ["the", "le chat", "xyz123"], targets, o) ==
        (if o == RemovedStopword then ["the"] else []) +
        (if o == RemovedTargetItem then ["le chat"] else []) +
        (if o == Unmatched then ["xyz123"] else [])
    {
      BucketSnoc(env, English, [], "the", targets, o);
      BucketSnoc(env, English, ["the"], "le chat", targets, o);
      BucketSnoc(env, English, ["the", "le chat"], "xyz123", targets, o);
      assert [] + ["the"] == ["the"] && ["the"] + ["le chat"] == ["the", "le chat"];
      assert ["the", "le chat"] + ["xyz123"] == ["the", "le chat", "xyz123"];
    }
  }
}
