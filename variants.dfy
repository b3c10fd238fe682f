/** How the two implementations of the game relate: the same sorting and
    rank dictionary, but a different stop-word test, a different last
    temperature band and a different secret-file grammar. */
module Variants {
  import opened Wrappers
  import opened Text
  import opened Ranking
  import Secrets
  import Engine
  import JeuComplet

  /** The two `adjust_score` functions agree on lower-case words. */
  lemma {:induction false} AdjustAgreesOnLowerCase(word: string, score: real)
    requires Lower(word) == word
    ensures Engine.AdjustScore(word, score) == JeuComplet.AdjustScore(word, score)
  {
  }

  /** Only `Jeu_complet.py` lower-cases before the stop-word test, so a
      capitalised stop word is penalised by one and not by the other. */
  lemma {:induction false} AdjustDiffersOnCapitalised(score: real)
    requires score != 0.0
    ensures Engine.AdjustScore("The", score) == score
    ensures JeuComplet.AdjustScore("The", score) == score * 0.8
    ensures Engine.AdjustScore("The", score) != JeuComplet.AdjustScore("The", score)
  {
    assert Lower("The") == "the";
  }

  /** The two temperature functions agree on the first 5000 ranks, and
      everywhere when the vocabulary has the 27086 words that the engine's
      constant assumes. */
  lemma {:induction false} TemperaturesAgree(rank: int, total: int)
    requires rank <= 5000 || total == 27086
    ensures JeuComplet.Temperature(rank, total) == Some(Engine.Temperature(rank, total))
  {
  }

  /** A bracketed line without the closing bracket is a header for the
      engine and a word for `load_secret_words`. */
  lemma {:induction false} UnclosedHeader()
    ensures Secrets.Classify(Secrets.EngineLoader, "[Animaux") == Secrets.Header("Animau")
    ensures Secrets.Classify(Secrets.JeuLoader, "[Animaux") == Secrets.Word("[animaux")
  {
    assert Strip("[Animaux") == "[Animaux" by {
      assert !IsSpace('[') && !IsSpace('x');
      StripUnchanged("[Animaux");
    }
  }
}
