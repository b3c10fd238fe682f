/** Jeu_complet.py: the single-game functions used by the web front end.
    The embedding dictionary is passed as a `Vocabulary` (its keys, in
    iteration order) together with `sim`, the `vector_similarity` of the
    vectors of two words. */
module JeuComplet {
  import opened Wrappers
  import opened Text
  import opened Ranking
  import Secrets

  /** `adjust_score`: the word is lower-cased before the stop-word test. */
  function AdjustScore(word: string, score: real): (r: real)
    ensures Lower(word) in CommonWords ==> r == score * 0.8
    ensures Lower(word) !in CommonWords ==> r == score
  {
    Penalized(Lower(word), score)
  }

  /** The body of the `for line in f:` loop of `load_secret_words`: what one
      raw line does to `current_theme` and `themes`. */
  method ReadSecretLine(raw: string, currentTheme: Option<string>, themes: Secrets.Catalog)
    returns (currentTheme': Option<string>, themes': Secrets.Catalog)
    requires currentTheme.Some? ==> currentTheme.value in themes
    ensures Secrets.Step(Secrets.JeuLoader, Secrets.State(currentTheme, themes, false),
                         Secrets.Classify(Secrets.JeuLoader, raw))
            == Secrets.State(currentTheme', themes', false)
  {
    currentTheme', themes' := currentTheme, themes;
    var line := Strip(raw);
    if line == [] || line[0] == '#' {
    } else if line[0] == '[' && line[|line| - 1] == ']' {
      currentTheme' := Some(Inner(line));
      themes' := themes'[currentTheme'.value := []];
    } else if currentTheme'.Some? && currentTheme'.value != "" {
      themes' := themes'[currentTheme'.value := themes'[currentTheme'.value] + [Lower(line)]];
    }
  }

  /** `load_secret_words` over the lines of the file (a missing file, which
      the source reports by returning None, is I/O and not modelled). */
  method LoadSecretWords(lines: seq<string>) returns (themes: Secrets.Catalog)
    ensures themes == Secrets.Load(Secrets.JeuLoader, map[], Secrets.Kinds(Secrets.JeuLoader, lines)).themes
  {
    ghost var ks := Secrets.Kinds(Secrets.JeuLoader, lines);
    themes := map[];
    var currentTheme: Option<string> := None;
    var i := 0;
    while i < |lines|
      invariant 0 <= i <= |lines|
      invariant Secrets.Load(Secrets.JeuLoader, map[], ks[..i]) ==
                  Secrets.State(currentTheme, themes, false)
    {
      Secrets.LoadPrefixStep(Secrets.JeuLoader, map[], ks, i);
      Secrets.LoadOpen(Secrets.JeuLoader, map[], ks[..i]);
      currentTheme, themes := ReadSecretLine(lines[i], currentTheme, themes);
      i := i + 1;
    }
    assert ks[..i] == ks;
  }

  /** `build_ranking`: every vocabulary word with its adjusted similarity to
      the secret, stably sorted by descending score; a secret outside the
      vocabulary raises KeyError. */
  method BuildRanking(secret: string, vocab: Vocabulary, sim: (string, string) -> real)
    returns (r: Result<seq<Entry>>)
    ensures secret !in vocab ==> r == Err(KeyError)
    ensures secret in vocab ==>
              && r == Ok(SortDesc(Scores(vocab, secret, sim, AdjustScore)))
              && IsStableSortOf(r.value, Scores(vocab, secret, sim, AdjustScore))
              && |r.value| == |vocab|
              && Distinct(Words(r.value))
  {
    if secret !in vocab {
      return Err(KeyError);
    }
    var scores: seq<Entry> := [];
    var i := 0;
    while i < |vocab|
      invariant 0 <= i <= |vocab|
      invariant scores == Scores(vocab, secret, sim, AdjustScore)[..i]
    {
      scores := scores + [Entry(vocab[i], AdjustScore(vocab[i], sim(secret, vocab[i])))];
      i := i + 1;
    }
    assert scores == Scores(vocab, secret, sim, AdjustScore);
    SortCorrect(scores);
    SortDistinct(scores);
    r := Ok(SortDesc(scores));
  }

  /** `temperature(rank, total_words)` before rounding; `None` stands for
      the ZeroDivisionError of the last band when `total_words` is 5000. */
  function Temperature(rank: int, totalWords: int): (t: Option<real>)
    ensures t.None? <==> rank > 5000 && totalWords == 5000
  {
    if rank <= 10 then Some(100.0 - (rank - 1) as real / 10.0 * 10.0)
    else if rank <= 100 then Some(90.0 - (rank - 10) as real / 90.0 * 30.0)
    else if rank <= 1000 then Some(60.0 - (rank - 100) as real / 900.0 * 40.0)
    else if rank <= 5000 then Some(20.0 - (rank - 1000) as real / 4000.0 * 30.0)
    else if totalWords == 5000 then None
    else Some(-10.0 - (rank - 5000) as real / (totalWords - 5000) as real * 10.0)
  }

  lemma {:induction false} TemperatureAtRankOne(totalWords: int)
    ensures Temperature(1, totalWords) == Some(100.0)
  {
  }

  /** `a / d <= b / d` for a positive divisor. */
  lemma {:induction false} DivMonotone(a: real, b: real, d: real)
    requires a <= b && d > 0.0
    ensures a / d <= b / d
  {
    assert b / d - a / d == (b - a) / d;
  }

  /** For ranks within the vocabulary a worse rank is never warmer. */
  lemma {:induction false} TemperatureMonotone(r1: int, r2: int, totalWords: int)
    requires r1 <= r2 <= totalWords
    ensures Temperature(r1, totalWords).Some? && Temperature(r2, totalWords).Some?
    ensures Temperature(r2, totalWords).value <= Temperature(r1, totalWords).value
  {
    if r2 > 5000 {
      DivMonotone((r1 - 5000) as real, (r2 - 5000) as real, (totalWords - 5000) as real);
    }
  }

  /** Ranks from 1 to `total_words` give temperatures between -20 and 100. */
  lemma {:induction false} TemperatureBounds(rank: int, totalWords: int)
    requires 1 <= rank <= totalWords
    ensures Temperature(rank, totalWords).Some?
    ensures -20.0 <= Temperature(rank, totalWords).value <= 100.0
  {
    if rank > 5000 {
      var d := (totalWords - 5000) as real;
      DivMonotone((rank - 5000) as real, d, d);
      assert d / d == 1.0;
    }
  }

  /** The symbols of `get_temperature_emoji`, warmest first. */
  datatype Emoji = Fire | Sun | SunBehindCloud | Snowflake | ColdFace

  function Glyph(e: Emoji): string
  {
    match e
    case Fire => "\U{1F525}"
    case Sun => "\U{1F31E}"
    case SunBehindCloud => "\U{1F324}\U{FE0F}"
    case Snowflake => "\U{2744}\U{FE0F}"
    case ColdFace => "\U{1F976}"
  }

  /** 4 for the warmest symbol down to 0 for the coldest. */
  function Warmth(e: Emoji): nat
  {
    match e
    case Fire => 4
    case Sun => 3
    case SunBehindCloud => 2
    case Snowflake => 1
    case ColdFace => 0
  }

  function GetTemperatureEmoji(temp: real): Emoji
  {
    if temp > 80.0 then Fire
    else if temp > 50.0 then Sun
    else if temp > 20.0 then SunBehindCloud
    else if temp > 0.0 then Snowflake
    else ColdFace
  }

  /** A warmer temperature never gives a colder symbol. */
  lemma {:induction false} EmojiMonotone(t1: real, t2: real)
    requires t1 <= t2
    ensures Warmth(GetTemperatureEmoji(t1)) <= Warmth(GetTemperatureEmoji(t2))
  {
  }

  /** The coldest symbol is given exactly to temperatures of 0 or below, the
      warmest exactly to temperatures above 80. */
  lemma {:induction false} EmojiExtremes(t: real)
    ensures GetTemperatureEmoji(t) == ColdFace <==> t <= 0.0
    ensures GetTemperatureEmoji(t) == Fire <==> t > 80.0
  {
  }

  // ---------------------------------------------------------------------
  // Hints

  /** One branch of `get_hint`: its wording, the slice `ranking[low:high]` it
      draws from, and the ranking length it needs to exceed. */
  datatype HintLevel = HintLevel(wording: string, low: nat, high: nat, needs: nat)

  /** The `if level == ... elif ...` chain of `get_hint`. */
  function Level(level: int): Option<HintLevel>
  {
    if level == 1 then Some(HintLevel("Mot \U{E9}loign\U{E9}", 3000, 5000, 5000))
    else if level == 2 then Some(HintLevel("Mot moyennement proche", 500, 1000, 1000))
    else if level == 3 then Some(HintLevel("Mot proche", 100, 500, 500))
    else if level == 4 then Some(HintLevel("TR\U{C8}S PROCHE", 2, 20, 20))
    else None
  }

  /** Every branch needs more entries than its slice's upper bound, so its
      slice is never clamped. */
  lemma {:induction false} LevelShape(level: int)
    requires Level(level).Some?
    ensures 1 <= level <= 4
    ensures Level(level).value.low < Level(level).value.high <= Level(level).value.needs
    ensures Width(level) == Level(level).value.high - Level(level).value.low
  {
  }

  datatype HintResult =
    | NoHint
    | Hint(wording: string, word: string, rank: int)
    | RankKeyError   // `ranks[hint_word]` on a word that `ranks` lacks

  /** For a level that can give a hint, the number of candidates
      `random.choice` draws among. */
  function Width(level: int): nat
  {
    match Level(level)
    case None => 0
    case Some(h) => if h.low <= h.high then h.high - h.low else 0
  }

  /** `get_hint(ranking, level, ranks)`, with `pick` the index into the
      slice that `random.choice` draws. */
  function GetHint(ranking: seq<Entry>, level: int, ranks: map<string, int>, pick: nat): HintResult
    requires Level(level).Some? && |ranking| > Level(level).value.needs ==> pick < Width(level)
  {
    match Level(level)
    case None => NoHint
    case Some(h) =>
      if |ranking| <= h.needs then NoHint
      else
        var choices := Band(ranking, h.low, h.high);
        var hintWord := choices[pick].word;
        if hintWord !in ranks then RankKeyError
        else Hint(h.wording, hintWord, ranks[hintWord])
  }

  /** The value `get_hint` returns: the formatted message, or None. */
  function HintText(r: HintResult): Option<string>
    requires !r.RankKeyError?
  {
    match r
    case NoHint => None
    case Hint(wording, word, rank) =>
      Some("\U{1F4A1} " + wording + ": '" + word + "' (rang " + IntToString(rank) + ")")
  }

  /** No hint exactly for a level outside 1..4 or a ranking too short for
      the level. */
  lemma {:induction false} GetHintNone(ranking: seq<Entry>, level: int, ranks: map<string, int>, pick: nat)
    requires Level(level).Some? && |ranking| > Level(level).value.needs ==> pick < Width(level)
    ensures GetHint(ranking, level, ranks, pick) == NoHint <==>
              level < 1 || level > 4 || |ranking| <= Level(level).value.needs
  {
    if Level(level).Some? {
      LevelShape(level);
    }
  }

  /** A hint of levels 1 to 4 names the entry at position `low + pick` of
      the ranking and reports what `ranks` maps it to. */
  lemma {:induction false} GetHintPicks(ranking: seq<Entry>, level: int, ranks: map<string, int>, pick: nat)
    requires Level(level).Some? && |ranking| > Level(level).value.needs
    requires pick < Width(level)
    ensures Level(level).value.low + pick < |ranking|
    ensures var h, w := Level(level).value, ranking[Level(level).value.low + pick].word;
            GetHint(ranking, level, ranks, pick) ==
              if w in ranks then Hint(h.wording, w, ranks[w]) else RankKeyError
  {
    var h := Level(level).value;
    LevelShape(level);
    assert Band(ranking, h.low, h.high)[pick] == ranking[h.low + pick];
  }

  /** A hint of levels 1 to 4 names the entry at position `i = low + pick`
      and reports the rank `ranks` gives it. */
  lemma {:induction false} GetHintRanked(ranking: seq<Entry>, level: int, h: HintLevel, ranks: map<string, int>, pick: nat, i: nat)
    requires Level(level) == Some(h) && |ranking| > h.needs
    requires i == h.low + pick && i < h.high
    requires ranking[i].word in ranks && ranks[ranking[i].word] == i + 1
    ensures GetHint(ranking, level, ranks, pick) == Hint(h.wording, ranking[i].word, i + 1)
  {
    LevelShape(level);
    GetHintPicks(ranking, level, ranks, pick);
  }

  /** With the rank dictionary of a ranking of distinct words, a hint of
      levels 1 to 4 drawn at `pick` inside the level's slice is the word at
      position `i = low + pick`, and the rank it reports is `i + 1`, its true
      rank. */
  lemma {:induction false} GetHintBand(ranking: seq<Entry>, level: int, h: HintLevel, pick: nat, i: nat)
    requires Distinct(Words(ranking))
    requires Level(level) == Some(h) && |ranking| > h.needs
    requires i == h.low + pick && i < h.high
    ensures GetHint(ranking, level, RankDict(ranking), pick) == Hint(h.wording, ranking[i].word, i + 1)
  {
    LevelShape(level);
    RankDictBijection(ranking, i);
    GetHintRanked(ranking, level, h, RankDict(ranking), pick, i);
  }

  /** The closest level draws among positions 2 to 19. */
  lemma {:induction false} ClosestLevel()
    ensures Level(4).Some?
    ensures Level(4).value.low == 2 && Level(4).value.high == 20 && Level(4).value.needs == 20
    ensures Width(4) == 18
  {
  }

  /** A closest hint reports what `ranks` gives the word at position
      `i = 2 + pick`. */
  lemma {:induction false} ClosestHintRank(ranking: seq<Entry>, ranks: map<string, int>, pick: nat, i: nat)
    requires |ranking| > 20 && pick < 18 && i == 2 + pick
    requires ranking[i].word in ranks && ranks[ranking[i].word] == i + 1
    ensures GetHint(ranking, 4, ranks, pick).Hint?
    ensures GetHint(ranking, 4, ranks, pick).rank == i + 1
  {
    ClosestLevel();
    GetHintRanked(ranking, 4, Level(4).value, ranks, pick, i);
  }

  /** The closest level never reveals the two best-ranked words. */
  lemma {:induction false} ClosestHintSkipsTopTwo(ranking: seq<Entry>, pick: nat)
    requires Distinct(Words(ranking)) && |ranking| > 20 && pick < 18
    ensures GetHint(ranking, 4, RankDict(ranking), pick).Hint?
    ensures 3 <= GetHint(ranking, 4, RankDict(ranking), pick).rank <= 20
  {
    var i := 2 + pick;
    RankDictBijection(ranking, i);
    ClosestHintRank(ranking, RankDict(ranking), pick, i);
  }
}
