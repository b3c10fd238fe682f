/** engine.py: the multi-table game engine. Scores and the temperature
    mapping, the class-level secret catalog of `GameEngine`, one game per
    `GameTable`, and the `GameManager` registry of tables.

    The class-level embedding dictionary of `GameEngine` is passed to the
    methods that read it as a `Vocabulary` (its keys, in iteration order)
    together with `sim`, the similarity of the vectors of two words. */
module Engine {
  import opened Wrappers
  import opened Text
  import opened Ranking
  import Secrets

  // ---------------------------------------------------------------------
  // Scores and temperature

  /** `adjust_score`: the stop-word test is case-sensitive here. */
  function AdjustScore(word: string, score: real): (r: real)
    ensures word in CommonWords ==> r == score * 0.8
    ensures word !in CommonWords ==> r == score
  {
    Penalized(word, score)
  }

  /** `temperature(rank, total)` before rounding. The last band divides by the
      constant 27086 - 5000 and never looks at `total`. */
  function Temperature(rank: int, total: int): real
  {
    if rank <= 10 then 100.0 - (rank - 1) as real / 10.0 * 10.0
    else if rank <= 100 then 90.0 - (rank - 10) as real / 90.0 * 30.0
    else if rank <= 1000 then 60.0 - (rank - 100) as real / 900.0 * 40.0
    else if rank <= 5000 then 20.0 - (rank - 1000) as real / 4000.0 * 30.0
    else -10.0 - (rank - 5000) as real / (27086 - 5000) as real * 10.0
  }

  lemma {:induction false} TemperatureAtRankOne(total: int)
    ensures Temperature(1, total) == 100.0
  {
  }

  /** A worse rank is never warmer. */
  lemma {:induction false} TemperatureMonotone(r1: int, r2: int, total: int)
    requires r1 <= r2
    ensures Temperature(r2, total) <= Temperature(r1, total)
  {
  }

  /** The vocabulary size plays no part. */
  lemma {:induction false} TemperatureIgnoresTotal(rank: int, total1: int, total2: int)
    ensures Temperature(rank, total1) == Temperature(rank, total2)
  {
  }

  /** Ranks from 1 to 27086 give temperatures between -20 and 100. */
  lemma {:induction false} TemperatureBounds(rank: int, total: int)
    requires 1 <= rank
    ensures Temperature(rank, total) <= 100.0
    ensures rank <= 27086 ==> -20.0 <= Temperature(rank, total)
  {
  }

  /** The symbols of `temp_emoji`, warmest first. */
  datatype Emoji = Volcano | HotFace | Fire | Sun | SunBehindCloud | Snowflake | Ice

  function Glyph(e: Emoji): string
  {
    match e
    case Volcano => "\U{1F30B}"
    case HotFace => "\U{1F975}"
    case Fire => "\U{1F525}"
    case Sun => "\U{1F31E}"
    case SunBehindCloud => "\U{1F324}\U{FE0F}"
    case Snowflake => "\U{2744}\U{FE0F}"
    case Ice => "\U{1F9CA}"
  }

  /** 6 for the warmest symbol down to 0 for the coldest. */
  function Warmth(e: Emoji): nat
  {
    match e
    case Volcano => 6
    case HotFace => 5
    case Fire => 4
    case Sun => 3
    case SunBehindCloud => 2
    case Snowflake => 1
    case Ice => 0
  }

  function TempEmoji(t: real): Emoji
  {
    if t > 80.0 then Volcano
    else if t > 60.0 then HotFace
    else if t > 50.0 then Fire
    else if t > 30.0 then Sun
    else if t > 20.0 then SunBehindCloud
    else if t > 0.0 then Snowflake
    else Ice
  }

  /** A warmer temperature never gives a colder symbol. */
  lemma {:induction false} TempEmojiMonotone(t1: real, t2: real)
    requires t1 <= t2
    ensures Warmth(TempEmoji(t1)) <= Warmth(TempEmoji(t2))
  {
  }

  /** The coldest symbol is given exactly to temperatures of 0 or below, the
      warmest exactly to temperatures above 80. */
  lemma {:induction false} TempEmojiExtremes(t: real)
    ensures TempEmoji(t) == Ice <==> t <= 0.0
    ensures TempEmoji(t) == Volcano <==> t > 80.0
  {
  }

  // ---------------------------------------------------------------------
  // The class-level secret catalog

  /** The body of the `for line in f:` loop of `load_secrets`: what one raw
      line does to `current` and the catalog; `raised` is true when the line
      raises KeyError, and then nothing has changed. */
  method ReadSecretsLine(raw: string, current: Option<string>, secretWords: Secrets.Catalog)
    returns (current': Option<string>, secretWords': Secrets.Catalog, raised: bool)
    ensures Secrets.Step(Secrets.EngineLoader, Secrets.State(current, secretWords, false),
                         Secrets.Classify(Secrets.EngineLoader, raw))
            == Secrets.State(current', secretWords', raised)
  {
    current', secretWords', raised := current, secretWords, false;
    var line := Strip(raw);
    if line == [] || line[0] == '#' {
    } else if line[0] == '[' {
      current' := Some(Inner(line));
      secretWords' := secretWords'[current'.value := []];
    } else if current'.None? || current'.value !in secretWords' {
      raised := true;
    } else {
      secretWords' := secretWords'[current'.value := secretWords'[current'.value] + [Lower(line)]];
    }
  }

  class GameEngine {
    /** `GameEngine.secret_words`: theme name -> secret-word candidates. */
    var secretWords: Secrets.Catalog

    constructor ()
      ensures secretWords == map[]
    {
      secretWords := map[];
    }

    /** `load_secrets` over the lines of the file. It adds to the catalog that
        is already there; a word line while no theme is open raises KeyError.
        That can only happen before the first header, so a load that raises
        leaves the catalog exactly as it was. */
    method LoadSecrets(lines: seq<string>) returns (r: Outcome)
      modifies this
      ensures var st := Secrets.Load(Secrets.EngineLoader, old(secretWords),
                                     Secrets.Kinds(Secrets.EngineLoader, lines));
              secretWords == st.themes && r == if st.failed then Raised(KeyError) else Done
      ensures r.Raised? ==> secretWords == old(secretWords)
    {
      ghost var ks := Secrets.Kinds(Secrets.EngineLoader, lines);
      ghost var init := secretWords;
      var current: Option<string> := None;
      var i := 0;
      while i < |lines|
        invariant 0 <= i <= |lines|
        invariant Secrets.Load(Secrets.EngineLoader, init, ks[..i]) ==
                    Secrets.State(current, secretWords, false)
      {
        Secrets.LoadPrefixStep(Secrets.EngineLoader, init, ks, i);
        var raised;
        current, secretWords, raised := ReadSecretsLine(lines[i], current, secretWords);
        if raised {
          Secrets.LoadFailureFinal(Secrets.EngineLoader, init, ks, i + 1);
          Secrets.FailureKeepsInit(Secrets.EngineLoader, init, ks);
          return Raised(KeyError);
        }
        i := i + 1;
      }
      assert ks[..i] == ks;
      r := Done;
    }
  }

  // ---------------------------------------------------------------------
  // One game

  /** The state of a `GameTable`: `None` where Python still holds `None`. */
  datatype Table = Table(
    secret: Option<string>,
    ranking: Option<seq<Entry>>,
    rankMap: Option<map<string, int>>,
    finished: bool)

  /** What every method keeps: ranking and rank map exist together, the map
      is the rank dictionary of the ranking, its words are distinct, and a
      ranking exists only once a secret has been chosen. */
  ghost predicate Consistent(t: Table)
  {
    && (t.ranking.Some? <==> t.rankMap.Some?)
    && (t.ranking.Some? ==> t.secret.Some?)
    && (t.ranking.Some? ==>
          Distinct(Words(t.ranking.value)) && t.rankMap.value == RankDict(t.ranking.value))
  }

  datatype GuessOutcome =
    | GameFinished
    | UnknownWord
    | NoRanking   // TypeError: `in` on a rank map that is still None
    | Guessed(word: string, rank: int, temperature: real, emoji: Emoji, found: bool)

  /** `GameTable.guess` on the state `t`: the outcome and the next state. */
  function Play(t: Table, guess: string): (GuessOutcome, Table)
  {
    if t.finished then (GameFinished, t)
    else
      var w := Lower(guess);
      if t.rankMap.None? then (NoRanking, t)
      else if w !in t.rankMap.value then (UnknownWord, t)
      else
        var rank := t.rankMap.value[w];
        var temp := Temperature(rank, |t.rankMap.value|);
        var found := t.secret == Some(w);
        (Guessed(w, rank, temp, TempEmoji(temp), found), t.(finished := t.finished || found))
  }

  /** A finished game answers `game_finished` and stays as it is. */
  lemma {:induction false} PlayFinished(t: Table, guess: string)
    requires t.finished
    ensures Play(t, guess) == (GameFinished, t)
  {
  }

  /** A word missing from the rank map answers `unknown_word` and changes
      nothing. */
  lemma {:induction false} PlayUnknown(t: Table, guess: string)
    requires !t.finished && t.rankMap.Some? && Lower(guess) !in t.rankMap.value
    ensures Play(t, guess) == (UnknownWord, t)
  {
  }

  /** The answer to a word the rank map knows, read off the map. */
  lemma {:induction false} PlayGuessed(t: Table, guess: string)
    requires !t.finished && t.rankMap.Some? && Lower(guess) in t.rankMap.value
    ensures var w := Lower(guess);
            var rank := t.rankMap.value[w];
            var temp := Temperature(rank, |t.rankMap.value|);
            Play(t, guess) ==
              (Guessed(w, rank, temp, TempEmoji(temp), t.secret == Some(w)),
               t.(finished := t.secret == Some(w)))
  {
  }

  /** A known word answers with its rank in the ranking, the temperature of
      that rank and whether it is the secret; only a found secret finishes
      the game, and nothing else changes. */
  lemma {:induction false} PlayKnown(t: Table, guess: string)
    requires Consistent(t) && !t.finished && t.ranking.Some?
    requires Lower(guess) in t.rankMap.value
    ensures var (o, t') := Play(t, guess);
            && o.Guessed?
            && o.word == Lower(guess)
            && 1 <= o.rank <= |t.ranking.value|
            && t.ranking.value[o.rank - 1].word == o.word
            && o.temperature == Temperature(o.rank, |t.ranking.value|)
            && o.emoji == TempEmoji(o.temperature)
            && (o.found <==> t.secret == Some(o.word))
            && t' == t.(finished := o.found)
  {
    var rk, w := t.ranking.value, Lower(guess);
    KnownRank(rk, w);
    PlayGuessed(t, guess);
  }

  /** What the rank dictionary of a ranking of distinct words says about one
      of its words. */
  lemma {:induction false} KnownRank(rk: seq<Entry>, w: string)
    requires Distinct(Words(rk)) && w in RankDict(rk)
    ensures |RankDict(rk)| == |rk|
    ensures 1 <= RankDict(rk)[w] <= |rk| && rk[RankDict(rk)[w] - 1].word == w
  {
    var j := RankDictValue(rk, w);
    RankDictSize(rk);
  }

  /** Guessing never breaks the table's invariant, and the only field that
      changes is `finished`, which only goes from false to true. */
  lemma {:induction false} PlayKeepsConsistent(t: Table, guess: string)
    requires Consistent(t)
    ensures var (o, t') := Play(t, guess);
            && Consistent(t')
            && t' == t.(finished := t'.finished)
            && (t'.finished <==> t.finished || (o.Guessed? && o.found))
  {
  }

  /** The invariant does not look at `finished`. */
  lemma {:induction false} ConsistentIgnoresFinished(t: Table, b: bool)
    requires Consistent(t)
    ensures Consistent(t.(finished := b))
  {
  }

  /** Guessing the same word again gives the same answer, unless the first
      guess found the secret, after which the game is finished. */
  lemma {:induction false} PlayRepeat(t: Table, guess: string)
    ensures var (o1, t1) := Play(t, guess);
            var (o2, t2) := Play(t1, guess);
            && (o1.Guessed? && o1.found ==> o2 == GameFinished && t2 == t1)
            && (!(o1.Guessed? && o1.found) ==> o2 == o1 && t2 == t1)
  {
  }

  /** `ranges` in `GameTable.hint`: level -> (low, high) slice bounds. */
  const HintRanges: map<int, (nat, nat)> :=
    map[1 := (1000, 2000), 2 := (250, 500), 3 := (50, 100), 4 := (5, 10)]

  /** The level that reveals the secret. */
  const RevealLevel: int := 99

  datatype HintOutcome =
    | Revealed(secret: Option<string>)
    | HintWord(word: string)
    | HintError(error: PyError)

  class GameTable {
    const id: string
    var secretWord: Option<string>
    var ranking: Option<seq<Entry>>
    var rankMap: Option<map<string, int>>
    var finished: bool

    function Snapshot(): Table
      reads this
    {
      Table(secretWord, ranking, rankMap, finished)
    }

    ghost predicate Valid()
      reads this
    {
      Consistent(Snapshot())
    }

    constructor (tableId: string)
      ensures id == tableId && Snapshot() == Table(None, None, None, false) && Valid()
    {
      id := tableId;
      secretWord, ranking, rankMap, finished := None, None, None, false;
    }

    /** `_build_ranking`: score every vocabulary word against the secret,
        sort by descending score (stable) and index the ranks. A secret
        that is missing or not in the vocabulary raises KeyError and leaves
        the old ranking in place. */
    method BuildRanking(vocab: Vocabulary, sim: (string, string) -> real) returns (r: Outcome)
      requires Valid()
      modifies this`ranking, this`rankMap
      ensures secretWord.Some? && secretWord.value in vocab ==>
                && r == Done
                && ranking == Some(SortDesc(Scores(vocab, secretWord.value, sim, AdjustScore)))
                && IsStableSortOf(ranking.value, Scores(vocab, secretWord.value, sim, AdjustScore))
                && rankMap == Some(RankDict(ranking.value))
      ensures !(secretWord.Some? && secretWord.value in vocab) ==>
                r == Raised(KeyError) && ranking == old(ranking) && rankMap == old(rankMap)
      ensures Valid()
    {
      if secretWord.None? || secretWord.value !in vocab {
        return Raised(KeyError);
      }
      var secret := secretWord.value;
      var scores: seq<Entry> := [];
      var i := 0;
      while i < |vocab|
        invariant 0 <= i <= |vocab|
        invariant scores == Scores(vocab, secret, sim, AdjustScore)[..i]
      {
        scores := scores + [Entry(vocab[i], AdjustScore(vocab[i], sim(secret, vocab[i])))];
        i := i + 1;
      }
      assert scores == Scores(vocab, secret, sim, AdjustScore);
      SortCorrect(scores);
      SortDistinct(scores);
      scores := SortDesc(scores);
      ranking := Some(scores);
      rankMap := Some(RankDict(scores));
      r := Done;
    }

    /** Choose `word` as the secret and rank the vocabulary against it. */
    method SetSecret(word: string, vocab: Vocabulary, sim: (string, string) -> real)
      returns (r: Outcome)
      requires Valid()
      modifies this`secretWord, this`ranking, this`rankMap
      ensures Valid()
      ensures secretWord == Some(word)
      ensures r == if word in vocab then Done else Raised(KeyError)
      ensures word in vocab ==> ranking == Some(SortDesc(Scores(vocab, word, sim, AdjustScore)))
      ensures word !in vocab ==> ranking == old(ranking) && rankMap == old(rankMap)
    {
      secretWord := Some(word);
      r := BuildRanking(vocab, sim);
    }

    /** `pick_from_glove`, with `choice` the index `random.choice` draws. */
    method PickFromGlove(vocab: Vocabulary, sim: (string, string) -> real, choice: nat)
      returns (r: Outcome)
      requires Valid()
      requires |vocab| > 0 ==> choice < |vocab|
      modifies this`secretWord, this`ranking, this`rankMap
      ensures Valid()
      ensures |vocab| == 0 ==> r == Raised(IndexError) && unchanged(this)
      ensures |vocab| > 0 ==>
                && r == Done
                && secretWord == Some(vocab[choice])
                && ranking == Some(SortDesc(Scores(vocab, vocab[choice], sim, AdjustScore)))
    {
      if |vocab| == 0 {
        return Raised(IndexError);
      }
      r := SetSecret(vocab[choice], vocab, sim);
    }

    /** `pick_from_secrets`, with `theme` the key and `choice` the index that
        the two calls of `random.choice` draw. */
    method PickFromSecrets(catalog: Secrets.Catalog, vocab: Vocabulary,
                           sim: (string, string) -> real, theme: string, choice: nat)
      returns (r: Outcome)
      requires Valid()
      requires |catalog| > 0 ==> theme in catalog
      requires theme in catalog && |catalog[theme]| > 0 ==> choice < |catalog[theme]|
      modifies this`secretWord, this`ranking, this`rankMap
      ensures Valid()
      ensures (|catalog| == 0 || |catalog[theme]| == 0) ==> r == Raised(IndexError) && unchanged(this)
      ensures |catalog| > 0 && |catalog[theme]| > 0 ==>
                var word := catalog[theme][choice];
                && secretWord == Some(word)
                && r == (if word in vocab then Done else Raised(KeyError))
                && (word in vocab ==> ranking == Some(SortDesc(Scores(vocab, word, sim, AdjustScore))))
                && (word !in vocab ==> ranking == old(ranking) && rankMap == old(rankMap))
    {
      if |catalog| == 0 {
        return Raised(IndexError);
      }
      var words := catalog[theme];
      if |words| == 0 {
        return Raised(IndexError);
      }
      r := SetSecret(words[choice], vocab, sim);
    }

    /** `pick_from_theme`: an unknown theme raises KeyError, an empty one
        IndexError. */
    method PickFromTheme(catalog: Secrets.Catalog, vocab: Vocabulary,
                         sim: (string, string) -> real, theme: string, choice: nat)
      returns (r: Outcome)
      requires Valid()
      requires theme in catalog && |catalog[theme]| > 0 ==> choice < |catalog[theme]|
      modifies this`secretWord, this`ranking, this`rankMap
      ensures Valid()
      ensures theme !in catalog ==> r == Raised(KeyError) && unchanged(this)
      ensures theme in catalog && |catalog[theme]| == 0 ==> r == Raised(IndexError) && unchanged(this)
      ensures theme in catalog && |catalog[theme]| > 0 ==>
                var word := catalog[theme][choice];
                && secretWord == Some(word)
                && r == (if word in vocab then Done else Raised(KeyError))
                && (word in vocab ==> ranking == Some(SortDesc(Scores(vocab, word, sim, AdjustScore))))
                && (word !in vocab ==> ranking == old(ranking) && rankMap == old(rankMap))
    {
      if theme !in catalog {
        return Raised(KeyError);
      }
      var words := catalog[theme];
      if |words| == 0 {
        return Raised(IndexError);
      }
      r := SetSecret(words[choice], vocab, sim);
    }

    /** `guess`: see `Play` and the lemmas about it. */
    method Guess(word: string) returns (r: GuessOutcome)
      requires Valid()
      modifies this`finished
      ensures (r, Snapshot()) == Play(old(Snapshot()), word)
      ensures Valid()
    {
      ghost var before := Snapshot();
      if finished {
        return GameFinished;
      }
      var w := Lower(word);
      if rankMap.None? {
        return NoRanking;
      }
      if w !in rankMap.value {
        return UnknownWord;
      }
      var rank := rankMap.value[w];
      var temp := Temperature(rank, |rankMap.value|);
      var found := secretWord == Some(w);
      PlayGuessed(before, word);
      ConsistentIgnoresFinished(before, found);
      if found {
        finished := true;
      }
      r := Guessed(w, rank, temp, TempEmoji(temp), found);
      assert Snapshot() == before.(finished := found);
    }

    /** `hint(level)`: level 99 reveals the secret without any lookup; the
        listed levels draw a word at random from the slice
        `ranking[low:high]`, that is from ranks low+1 .. high; an unlisted
        level, a missing ranking or an empty slice raise. */
    method Hint(level: int) returns (r: HintOutcome)
      requires Valid()
      ensures level == RevealLevel ==> r == Revealed(secretWord)
      ensures level != RevealLevel && level !in HintRanges ==> r == HintError(KeyError)
      ensures level != RevealLevel && level in HintRanges && ranking.None? ==>
                r == HintError(TypeError)
      ensures (level != RevealLevel && level in HintRanges && ranking.Some?
               && |ranking.value| <= HintRanges[level].0) ==> r == HintError(IndexError)
      ensures (level != RevealLevel && level in HintRanges && ranking.Some?
               && |ranking.value| > HintRanges[level].0) ==>
                && r.HintWord?
                && r.word in rankMap.value
                && HintRanges[level].0 < rankMap.value[r.word] <= HintRanges[level].1
                && rankMap.value[r.word] <= |ranking.value|
                && ranking.value[rankMap.value[r.word] - 1].word == r.word
    {
      if level == RevealLevel {
        return Revealed(secretWord);
      }
      if level !in HintRanges {
        return HintError(KeyError);
      }
      var (low, high) := HintRanges[level];
      if ranking.None? {
        return HintError(TypeError);
      }
      var candidates := Band(ranking.value, low, high);
      if |candidates| == 0 {
        return HintError(IndexError);
      }
      var k :| 0 <= k < |candidates|;
      var i := low + k;
      assert candidates[k] == ranking.value[i];
      RankDictBijection(ranking.value, i);
      r := HintWord(candidates[k].word);
      assert rankMap.value[r.word] - 1 == i;
    }
  }

  // ---------------------------------------------------------------------
  // The registry of tables

  class GameManager {
    var tables: map<string, GameTable>

    /** Every table is registered under its own id and keeps its own
        invariant. */
    ghost predicate Valid()
      reads this, set k | k in tables :: tables[k]
    {
      forall k :: k in tables ==> tables[k].id == k && tables[k].Valid()
    }

    constructor ()
      ensures tables == map[] && Valid()
    {
      tables := map[];
    }

    /** `create`: a fresh, unfinished table without a secret, replacing any
        table already registered under `tableId`; other tables are kept. */
    method Create(tableId: string)
      requires Valid()
      modifies this
      ensures Valid()
      ensures tableId in tables && fresh(tables[tableId])
      ensures tables == old(tables)[tableId := tables[tableId]]
      ensures tables[tableId].Snapshot() == Table(None, None, None, false)
      ensures tables[tableId].Valid()
    {
      var t := new GameTable(tableId);
      tables := tables[tableId := t];
    }

    /** `cancel`: forget `tableId`, if registered; other tables are kept. */
    method Cancel(tableId: string)
      requires Valid()
      modifies this
      ensures Valid()
      ensures tables == old(tables) - {tableId}
    {
      tables := tables - {tableId};
    }

    /** `get`: the table registered under `tableId`, or none. */
    method Get(tableId: string) returns (t: GameTable?)
      requires Valid()
      ensures tableId in tables ==> t == tables[tableId] && t.id == tableId
      ensures tableId !in tables ==> t == null
      ensures t != null ==> t.Valid()
    {
      t := if tableId in tables then tables[tableId] else null;
    }
  }
}
