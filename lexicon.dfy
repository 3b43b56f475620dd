/** The fixed Spanish vocabularies of the analysis pipeline (processor.py, lines 17-21). */
module Lexicon {

  /** Phrases that make a line an obligation. */
  const OBLIGATION_KEYWORDS: seq<string> := ["debe", "deberá", "tiene que", "es obligatorio", "corresponde a"]

  /** Phrases that make a line a prohibition; they are tested before the obligation phrases. */
  const PROHIBITION_KEYWORDS: seq<string> := ["prohibido", "no podrá", "no se permite", "queda prohibido"]

  /**
   * Words ignored when scoring sentences and when extracting a rule's keywords.
   * "de" is listed twice in the source, which a set absorbs; "sobe" is the source's spelling.
   */
  const STOP_WORDS: set<string> := {
    "el", "la", "los", "las", "un", "una", "de", "del", "a", "ante", "bajo", "cabe", "con", "contra",
    "desde", "en", "entre", "hacia", "hasta", "para", "por", "según", "sin", "sobe", "tras", "y", "o",
    "que", "se", "su", "sus", "es", "son", "no", "lo", "al", "como", "más", "pero", "si", "mi", "me",
    "te", "ti", "nos"
  }
}
