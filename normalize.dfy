/** Cleaning of the catalogued target items before they are matched against
    the word list. */
module Normalize {
  import opened Wrappers
  import opened Text
  import opened Languages
  import opened Lists

  const SemicolonSep: string := "; "
  const Apostrophe: string := "'"

  /** `get_str_before_semicolon`: when the item holds "; ", only the text before
      its first occurrence is kept; otherwise the item is returned unchanged. */
  function GetStrBeforeSemicolon(item: string): (r: string)
    ensures !Contains(item, SemicolonSep) ==> r == item
    ensures Contains(item, SemicolonSep) ==>
      |r| <= |item| && r == item[..|r|] && OccursAt(item, SemicolonSep, |r|) &&
      forall j :: 0 <= j < |r| ==> !OccursAt(item, SemicolonSep, j)
    ensures !Contains(r, SemicolonSep)
  {
    if Contains(item, SemicolonSep) then Split(item, SemicolonSep)[0] else item
  }

  /** `get_str_after_apostrophe`: for Italian or French, an item holding an
      apostrophe is replaced by `item.split("'")[1]`, the text between its first
      apostrophe and the next one (or the end). Otherwise the item is unchanged. */
  function GetStrAfterApostrophe(lang: Language, item: string): (r: string)
    ensures !(IsItalianOrFrench(lang) && '\'' in item) ==> r == item
    ensures IsItalianOrFrench(lang) && '\'' in item ==>
      '\'' !in r &&
      exists i :: 0 <= i < |item| && FirstApostropheAt(item, i) && SegmentAfter(item, i, r)
  {
    ContainsChar(item, '\'');
    if Contains(item, Apostrophe) && IsItalianOrFrench(lang) then
      SecondPiece(item);
      Split(item, Apostrophe)[1]
    else
      item
  }

  /** The first occurrence of "'" is the first apostrophe character. */
  lemma FirstApostrophe(item: string)
    requires Contains(item, Apostrophe)
    ensures FirstApostropheAt(item, Find(item, Apostrophe).value)
  {
    var i := Find(item, Apostrophe).value;
    assert item[i..i + 1] == Apostrophe;
    forall j | 0 <= j < i ensures item[j] != '\'' {
      assert !OccursAt(item, Apostrophe, j);
      assert item[j..j + 1] == [item[j]];
    }
  }

  /** The first piece of a split on "'" runs up to the next apostrophe or the end. */
  lemma FirstPieceEnds(rest: string)
    ensures var r := Split(rest, Apostrophe)[0];
      |r| <= |rest| && r == rest[..|r|] && '\'' !in r && (|r| == |rest| || rest[|r|] == '\'')
  {
    SplitFirst(rest, Apostrophe);
    var r := Split(rest, Apostrophe)[0];
    ContainsChar(r, '\'');
    if Find(rest, Apostrophe).Some? {
      var k := Find(rest, Apostrophe).value;
      assert rest[k..k + 1] == Apostrophe;
    }
  }

  /** `item.split("'")[1]` is the apostrophe-free segment after the first apostrophe. */
  lemma SecondPiece(item: string)
    requires Contains(item, Apostrophe)
    ensures var i := Find(item, Apostrophe).value;
      var r := Split(item, Apostrophe)[1];
      '\'' !in r && FirstApostropheAt(item, i) && SegmentAfter(item, i, r)
  {
    var i := Find(item, Apostrophe).value;
    var rest := item[i + 1..];
    SplitSecond(item, Apostrophe);
    FirstApostrophe(item);
    FirstPieceEnds(rest);
    var r := Split(item, Apostrophe)[1];
    assert rest[..|r|] == item[i + 1..i + 1 + |r|];
  }

  /** Index `i` holds the first apostrophe of `s`. */
  predicate FirstApostropheAt(s: string, i: nat)
  {
    i < |s| && s[i] == '\'' && forall j :: 0 <= j < i ==> s[j] != '\''
  }

  /** `r` starts right after index `i` of `s` and ends at the next apostrophe or
      at the end of `s`. */
  predicate SegmentAfter(s: string, i: nat, r: string)
  {
    i + 1 + |r| <= |s| && r == s[i + 1..i + 1 + |r|] &&
    (i + 1 + |r| == |s| || s[i + 1 + |r|] == '\'')
  }

  /** The list comprehension of `clean_target_items` that keeps the tokens that
      are not stopwords, in order. */
  function RemoveStopwords(env: Env, lang: Language, tokens: seq<string>): (r: seq<string>)
    requires !IsKoreanOrJapanese(lang)
    ensures r == Filter(NotStopword(env, lang), tokens)
    ensures forall k :: 0 <= k < |r| ==> !IsStopword(env, lang, r[k])
    ensures forall t :: t in tokens && !IsStopword(env, lang, t) ==> t in r
    ensures forall t :: t in r ==> t in tokens
    ensures |r| <= |tokens|
  {
    if tokens == [] then []
    else
      var init := RemoveStopwords(env, lang, tokens[..|tokens| - 1]);
      var last := tokens[|tokens| - 1];
      assert tokens == tokens[..|tokens| - 1] + [last];
      if IsStopword(env, lang, last) then init else init + [last]
  }

  /** The test "this token is not a stopword", as a function value. */
  function NotStopword(env: Env, lang: Language): string -> bool
    requires !IsKoreanOrJapanese(lang)
  {
    token => !IsStopword(env, lang, token)
  }

  /** The kept tokens keep their input order and their repeats. */
  lemma RemoveStopwordsInOrder(env: Env, lang: Language, tokens: seq<string>)
    requires !IsKoreanOrJapanese(lang)
    ensures IsSubsequence(RemoveStopwords(env, lang, tokens), tokens)
  {
    FilterIsSubsequence(NotStopword(env, lang), tokens);
  }

  /** The default path through the stopword filter: semicolon truncation, elided
      article, `\W+` collapse, tokenization. */
  function ContentTokens(env: Env, lang: Language, item: string): seq<string>
    requires !IsKoreanOrJapanese(lang)
  {
    var itemNoSemicolon := GetStrBeforeSemicolon(item);
    var itemNoApostrophe := GetStrAfterApostrophe(lang, itemNoSemicolon);
    var itemNoPunctuation := Collapse(env.isWordChar, itemNoApostrophe);
    RemoveStopwords(env, lang, env.tokenize(itemNoPunctuation, lang))
  }

  /** What one target item becomes: `None` when the script drops it, `Some`
      of the cleaned text when it keeps it. */
  function CleanItem(env: Env, lang: Language, item: string): (r: Option<string>)
    ensures r.Some? ==> r.value != ""
    ensures IsKoreanOrJapanese(lang) ==> (r.None? <==> item == "")
  {
    if IsKoreanOrJapanese(lang) then
      var itemNoPunctuation := Collapse(env.isWordChar, item);
      if itemNoPunctuation != "" then Some(itemNoPunctuation) else None
    else
      var cleanItem := Join(ContentTokens(env, lang, item), " ");
      if cleanItem != "" then Some(cleanItem) else None
  }

  /** The per-item cleaning of a language, as a function value. */
  function Cleaner(env: Env, lang: Language): string -> Option<string>
  {
    item => CleanItem(env, lang, item)
  }

  /** The list `clean_target_items` returns: the kept items, cleaned, in input order. */
  function CleanedList(env: Env, lang: Language, items: seq<string>): seq<string>
  {
    FilterMap(Cleaner(env, lang), items)
  }

  /** `clean_target_items` (both loops). */
  method CleanTargetItems(env: Env, lang: Language, tiList: seq<string>) returns (cleanList: seq<string>)
    ensures cleanList == CleanedList(env, lang, tiList)
  {
    cleanList := [];
    if IsKoreanOrJapanese(lang) {
      for i := 0 to |tiList|
        invariant cleanList == CleanedList(env, lang, tiList[..i])
      {
        var item := tiList[i];
        assert tiList[..i + 1][..i] == tiList[..i];
        var itemNoPunctuation := Collapse(env.isWordChar, item);
        if itemNoPunctuation != "" {
          cleanList := cleanList + [itemNoPunctuation];
        }
      }
    } else {
      for i := 0 to |tiList|
        invariant cleanList == CleanedList(env, lang, tiList[..i])
      {
        var item := tiList[i];
        assert tiList[..i + 1][..i] == tiList[..i];
        var itemNoSemicolon := GetStrBeforeSemicolon(item);
        var itemNoApostrophe := GetStrAfterApostrophe(lang, itemNoSemicolon);
        var itemNoPunctuation := Collapse(env.isWordChar, itemNoApostrophe);
        var itemNoStopwordsList := RemoveStopwords(env, lang, env.tokenize(itemNoPunctuation, lang));
        var cleanItem := Join(itemNoStopwordsList, " ");
        if cleanItem != "" {
          cleanList := cleanList + [cleanItem];
        }
      }
    }
    assert tiList[..|tiList|] == tiList;
  }

  /** The cleaned list is exactly the cleaned forms of the kept items, in input
      order: position j of the output comes from input position Kept[j], the
      positions increase, and an input position is kept exactly when its item
      survives cleaning. */
  lemma CleanedListIndexed(env: Env, lang: Language, items: seq<string>)
    ensures var kept := KeptIndices(Cleaner(env, lang), items);
      var out := CleanedList(env, lang, items);
      |kept| == |out| && |out| <= |items| &&
      (forall j :: 0 <= j < |kept| ==> kept[j] < |items| && CleanItem(env, lang, items[kept[j]]) == Some(out[j])) &&
      (forall j, k :: 0 <= j < k < |kept| ==> kept[j] < kept[k]) &&
      (forall i :: 0 <= i < |items| ==> (i in kept <==> CleanItem(env, lang, items[i]).Some?))
  {
    FilterMapAt(Cleaner(env, lang), items);
    KeptIndicesExact(Cleaner(env, lang), items);
  }

  /** Korean and Japanese: an item is dropped exactly when it is the empty
      string, and every kept item is its `\W+` collapse, in input order. */
  lemma {:induction false} KoreanJapaneseCleaning(env: Env, lang: Language, items: seq<string>)
    requires IsKoreanOrJapanese(lang)
    ensures var kept := KeptIndices(Cleaner(env, lang), items);
      var out := CleanedList(env, lang, items);
      |kept| == |out| && |out| <= |items| &&
      (forall i :: 0 <= i < |items| ==> (i in kept <==> items[i] != "")) &&
      (forall j :: 0 <= j < |out| ==> kept[j] < |items| && out[j] == Collapse(env.isWordChar, items[kept[j]])) &&
      (forall j, k :: 0 <= j < k < |kept| ==> kept[j] < kept[k])
  {
    CleanedListIndexed(env, lang, items);
  }

  /** Other languages: every kept item is non-empty and is the space-join of the
      tokens of its prepared text that are not stopwords, in input order. */
  lemma DefaultCleaning(env: Env, lang: Language, items: seq<string>)
    requires !IsKoreanOrJapanese(lang)
    ensures var kept := KeptIndices(Cleaner(env, lang), items);
      var out := CleanedList(env, lang, items);
      |kept| == |out| &&
      (forall i :: 0 <= i < |items| ==>
        (i in kept <==> Join(ContentTokens(env, lang, items[i]), " ") != "")) &&
      (forall j :: 0 <= j < |out| ==>
        kept[j] < |items| && out[j] != "" &&
        out[j] == Join(ContentTokens(env, lang, items[kept[j]]), " ") &&
        forall t :: t in ContentTokens(env, lang, items[kept[j]]) ==> !IsStopword(env, lang, t)) &&
      (forall j, k :: 0 <= j < k < |kept| ==> kept[j] < kept[k])
  {
    CleanedListIndexed(env, lang, items);
  }

  /** A multi-sense entry keeps only its first sense. */
  lemma SemicolonExample()
    ensures GetStrBeforeSemicolon("cat; feline creature") == "cat"
  {
    var item := "cat; feline creature";
    assert OccursAt(item, SemicolonSep, 3);
    forall j | 0 <= j < 3 ensures !OccursAt(item, SemicolonSep, j) {
      assert item[j..j + 2][0] == item[j] != ';';
    }
  }

  /** A French elided article is stripped; for English the item is untouched. */
  lemma ApostropheExample()
    ensures GetStrAfterApostrophe(French, "l'arbre") == "arbre"
    ensures GetStrAfterApostrophe(English, "l'arbre") == "l'arbre"
  {
    var item := "l'arbre";
    assert item[1] == '\'';
  }

  /** Only the piece up to the second apostrophe survives: with the first
      apostrophe at `i` and the next one at `k`, the result is exactly the text
      strictly between them. */
  lemma ApostropheStopsAtSecond(lang: Language, item: string, i: nat, k: nat)
    requires IsItalianOrFrench(lang)
    requires FirstApostropheAt(item, i)
    requires i < k < |item| && item[k] == '\''
    requires forall j :: i < j < k ==> item[j] != '\''
    ensures GetStrAfterApostrophe(lang, item) == item[i + 1..k]
  {
    var r := GetStrAfterApostrophe(lang, item);
    var i' :| 0 <= i' < |item| && FirstApostropheAt(item, i') && SegmentAfter(item, i', r);
    assert i' == i;
    assert i + 1 + |r| <= k;
  }
}
