/** Loading the two per-language tables and the whole pass for one language.
    Reading and writing files is not modelled: a loader receives the lines or
    the parsed rows of its table, and the pass returns the rows it would write. */
module Loaders {
  import opened Wrappers
  import opened Text
  import opened Languages
  import opened Normalize
  import opened Matcher

  /** A target-items row with no first column (a blank line of the table):
      `row[0]` raises an index error, which ends the pass. */
  datatype LoadError = MissingFirstColumn(row: nat)

  /** The `[1:]` slice that drops the header row. */
  function DropHeader<T>(rows: seq<T>): (r: seq<T>)
    ensures |r| == if |rows| == 0 then 0 else |rows| - 1
    ensures forall i :: 0 <= i < |r| ==> r[i] == rows[i + 1]
  {
    if |rows| == 0 then [] else rows[1..]
  }

  /** Every line with its line terminators stripped, as `row.strip('\n')`. */
  function StrippedLines(lines: seq<string>): (r: seq<string>)
    ensures |r| == |lines|
  {
    seq(|lines|, i requires 0 <= i < |lines| => Strip(lines[i], '\n'))
  }

  /** `get_word_list`: the stripped lines of the word-list table minus its header. */
  method GetWordList(lines: seq<string>) returns (wordList: seq<string>)
    ensures |wordList| == if |lines| == 0 then 0 else |lines| - 1
    ensures forall i :: 0 <= i < |wordList| ==> wordList[i] == Strip(lines[i + 1], '\n')
    ensures wordList == WordListOf(lines)
  {
    var allLines: seq<string> := [];
    for i := 0 to |lines|
      invariant |allLines| == i
      invariant forall k :: 0 <= k < i ==> allLines[k] == Strip(lines[k], '\n')
    {
      allLines := allLines + [Strip(lines[i], '\n')];
    }
    assert allLines == StrippedLines(lines);
    wordList := DropHeader(allLines);
  }

  /** The word list `get_word_list` yields, as a value. */
  function WordListOf(lines: seq<string>): seq<string>
  {
    DropHeader(StrippedLines(lines))
  }

  /** Every row has a first column. */
  predicate AllRowsHaveFirstColumn(rows: seq<seq<string>>)
  {
    forall i :: 0 <= i < |rows| ==> rows[i] != []
  }

  /** The first column of every row. */
  function FirstColumn(rows: seq<seq<string>>): (r: seq<string>)
    requires AllRowsHaveFirstColumn(rows)
    ensures |r| == |rows| && forall i :: 0 <= i < |rows| ==> r[i] == rows[i][0]
  {
    seq(|rows|, i requires 0 <= i < |rows| && AllRowsHaveFirstColumn(rows) => rows[i][0])
  }

  /** `get_target_item_list`: the first column of every row, minus the header
      row, cleaned. The first row without a first column (the header included)
      stops the load. */
  method GetTargetItemList(env: Env, lang: Language, rows: seq<seq<string>>)
    returns (r: Result<seq<string>, LoadError>)
    ensures r.Failure? <==> !AllRowsHaveFirstColumn(rows)
    ensures r.Failure? ==>
      r.error.row < |rows| && rows[r.error.row] == [] &&
      forall k :: 0 <= k < r.error.row ==> rows[k] != []
    ensures r.Success? ==> AllRowsHaveFirstColumn(rows)
    ensures r.Success? ==> r.value == CleanedList(env, lang, DropHeader(FirstColumn(rows)))
  {
    var targetItemList: seq<string> := [];
    for i := 0 to |rows|
      invariant |targetItemList| == i
      invariant forall k :: 0 <= k < i ==> rows[k] != [] && targetItemList[k] == rows[k][0]
    {
      if rows[i] == [] {
        return Failure(MissingFirstColumn(i));
      }
      targetItemList := targetItemList + [rows[i][0]];
    }
    assert targetItemList == FirstColumn(rows);
    targetItemList := DropHeader(targetItemList);
    var cleaned := CleanTargetItems(env, lang, targetItemList);
    return Success(cleaned);
  }

  /** One output row per word, the word as its only field. */
  function OutputRows(words: seq<string>): (rows: seq<seq<string>>)
    ensures |rows| == |words| && forall k :: 0 <= k < |words| ==> rows[k] == [words[k]]
  {
    seq(|words|, k requires 0 <= k < |words| => [words[k]])
  }

  /** `create_new_list_file` for one language: load both tables, classify every
      word, and produce the rows of the new word list, one unmatched word per
      row in input order. A target-items row without a first column aborts. */
  method CreateNewListFile(env: Env, lang: Language, wordLines: seq<string>, targetRows: seq<seq<string>>)
    returns (r: Result<seq<seq<string>>, LoadError>)
    ensures r.Failure? <==> !AllRowsHaveFirstColumn(targetRows)
    ensures r.Success? ==>
      var targets := CleanedList(env, lang, DropHeader(FirstColumn(targetRows)));
      var unmatched := Bucket(env, lang, WordListOf(wordLines), targets, Unmatched);
      |r.value| == |unmatched| &&
      forall k :: 0 <= k < |unmatched| ==> r.value[k] == [unmatched[k]]
  {
    var wordList := GetWordList(wordLines);
    var targetItemList :- GetTargetItemList(env, lang, targetRows);
    var unmatchedWords, removedStopwords, removedTargetItems := GetUnmatchedWords(env, lang, wordList, targetItemList);
    return Success(OutputRows(unmatchedWords));
  }
}
