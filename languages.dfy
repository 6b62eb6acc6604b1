/** The languages the filter runs over, and the outside capabilities every
    stage consults: the regular-expression word class, the stopword corpus and
    the tokenizer. The script keeps the current language in a global; here it
    is an explicit argument of every operation. */
module Languages {

  datatype Language = Italian | English | Spanish | French | German | Russian | Korean | Japanese

  /** Korean and Japanese take the punctuation-only cleaning path and skip the
      stopword check altogether. */
  predicate IsKoreanOrJapanese(lang: Language)
  {
    lang == Korean || lang == Japanese
  }

  /** Italian and French target items lose a leading elided article ("l'", "d'"). */
  predicate IsItalianOrFrench(lang: Language)
  {
    lang == Italian || lang == French
  }

  /** The collaborators whose internals are not part of this model:
      - `isWordChar` is the complement of the `\W` class of Python's `re`;
      - `stopwords` is the stopword list of each language (NLTK's
        `stopwords.words`), which the script only consults outside Korean
        and Japanese;
      - `tokenize` is NLTK's `word_tokenize(text, language)`. */
  datatype Env = Env(
    isWordChar: char -> bool,
    stopwords: Language -> seq<string>,
    tokenize: (string, Language) -> seq<string>)

  /** `is_stopword`: exact membership in the language's stopword corpus. The
      corpus has no Korean or Japanese list, so asking for one would raise;
      the requires clause records that the script never does. */
  predicate IsStopword(env: Env, lang: Language, word: string)
    requires !IsKoreanOrJapanese(lang)
    ensures IsStopword(env, lang, word) <==>
      exists i :: 0 <= i < |env.stopwords(lang)| && env.stopwords(lang)[i] == word
  {
    word in env.stopwords(lang)
  }
}
