/** The ranking of a vocabulary by score: a stable sort by descending score
    (Python's `list.sort(key=score, reverse=True)`) and the word -> 1-based
    rank dictionary built from it. Scores are abstract ordered values, here
    Dafny reals. */
module Ranking {

  /** One `(word, score)` pair. */
  datatype Entry = Entry(word: string, score: real)

  /** The stop words whose score is multiplied by 0.8 (the same set in both
      game modules). */
  const CommonWords: set<string> := {
    "to", "if", "must", "and", "the", "a", "an", "of", "in", "on", "for",
    "with", "as", "by", "at", "from", "up", "down", "go", "make", "take",
    "do", "say", "come", "get", "see", "know", "want", "please", "tell"
  }

  /** The stop-word penalty applied to an already case-normalised key. */
  function Penalized(key: string, score: real): (r: real)
    ensures key in CommonWords ==> r == score * 0.8
    ensures key !in CommonWords ==> r == score
  {
    if key in CommonWords then score * 0.8 else score
  }

  /** The penalty lowers a score exactly when the word is a stop word and the
      score is positive; for a negative score it RAISES it (multiplying by 0.8
      moves it towards zero), so a stop word with negative similarity is
      ranked higher than without the penalty. */
  lemma {:induction false} PenaltyDirection(key: string, score: real)
    ensures Penalized(key, score) < score <==> key in CommonWords && score > 0.0
    ensures Penalized(key, score) > score <==> key in CommonWords && score < 0.0
  {
  }

  // ---------------------------------------------------------------------
  // Words and distinctness

  function Words(s: seq<Entry>): (ws: seq<string>)
    ensures |ws| == |s|
    ensures forall i {:trigger ws[i]} :: 0 <= i < |s| ==> ws[i] == s[i].word
  {
    seq(|s|, i requires 0 <= i < |s| => s[i].word)
  }

  predicate Distinct(ws: seq<string>)
  {
    forall i, j :: 0 <= i < j < |ws| ==> ws[i] != ws[j]
  }

  /** The embedding store's keys, in the dictionary's iteration order. */
  type Vocabulary = ws: seq<string> | Distinct(ws) witness []

  /** The entries a ranking is built from: every vocabulary word with its
      similarity to `secret`, passed through the stop-word adjustment
      `adjust`, in vocabulary order. */
  function Scores(vocab: Vocabulary, secret: string, sim: (string, string) -> real,
                  adjust: (string, real) -> real): (s: seq<Entry>)
    ensures |s| == |vocab| && Words(s) == vocab
    ensures forall i :: 0 <= i < |s| ==> s[i].score == adjust(vocab[i], sim(secret, vocab[i]))
  {
    seq(|vocab|, i requires 0 <= i < |vocab| =>
      Entry(vocab[i], adjust(vocab[i], sim(secret, vocab[i]))))
  }

  // ---------------------------------------------------------------------
  // The stable descending sort

  ghost predicate SortedDesc(s: seq<Entry>)
  {
    forall i, j :: 0 <= i < j < |s| ==> s[i].score >= s[j].score
  }

  /** The entries of `s` whose score is `v`, in their order in `s`. */
  function ScoreClass(s: seq<Entry>, v: real): seq<Entry>
  {
    if s == [] then []
    else if s[0].score == v then [s[0]] + ScoreClass(s[1..], v)
    else ScoreClass(s[1..], v)
  }

  /** `r` keeps the relative order of the entries of `s` that share a score:
      what a stable sort guarantees. */
  ghost predicate Stable(r: seq<Entry>, s: seq<Entry>)
  {
    forall v :: ScoreClass(r, v) == ScoreClass(s, v)
  }

  /** Insert `x` in front of the first entry whose score is not above its own. */
  function Insert(x: Entry, s: seq<Entry>): seq<Entry>
  {
    if s == [] || s[0].score <= x.score then [x] + s else [s[0]] + Insert(x, s[1..])
  }

  /** The result of `s.sort(key=lambda e: e.score, reverse=True)`. */
  function SortDesc(s: seq<Entry>): seq<Entry>
  {
    if s == [] then [] else Insert(s[0], SortDesc(s[1..]))
  }

  lemma {:induction false} InsertPermutes(x: Entry, s: seq<Entry>)
    ensures multiset(Insert(x, s)) == multiset{x} + multiset(s)
    ensures |Insert(x, s)| == |s| + 1
  {
    if s != [] && s[0].score > x.score {
      InsertPermutes(x, s[1..]);
      assert s == [s[0]] + s[1..];
    }
  }

  lemma {:induction false} InsertSorted(x: Entry, s: seq<Entry>)
    requires SortedDesc(s)
    ensures SortedDesc(Insert(x, s))
  {
    if s != [] && s[0].score > x.score {
      InsertSorted(x, s[1..]);
      InsertPermutes(x, s[1..]);
      var t := Insert(x, s[1..]);
      forall e | e in t ensures e.score <= s[0].score {
        assert e in multiset(t);
        assert e == x || e in multiset(s[1..]);
      }
    }
  }

  lemma {:induction false} InsertClass(x: Entry, s: seq<Entry>, v: real)
    ensures ScoreClass(Insert(x, s), v) ==
              if x.score == v then [x] + ScoreClass(s, v) else ScoreClass(s, v)
  {
    if s != [] && s[0].score > x.score {
      InsertClass(x, s[1..], v);
      var t := [s[0]] + Insert(x, s[1..]);
      assert t[1..] == Insert(x, s[1..]);
    } else {
      assert ([x] + s)[1..] == s;
    }
  }

  /** The sort returns a permutation of its input. */
  lemma {:induction false} SortPermutes(s: seq<Entry>)
    ensures multiset(SortDesc(s)) == multiset(s)
    ensures |SortDesc(s)| == |s|
  {
    if s != [] {
      SortPermutes(s[1..]);
      InsertPermutes(s[0], SortDesc(s[1..]));
      assert s == [s[0]] + s[1..];
    }
  }

  /** The sort orders by non-increasing score. */
  lemma {:induction false} SortSorted(s: seq<Entry>)
    ensures SortedDesc(SortDesc(s))
  {
    if s != [] {
      SortSorted(s[1..]);
      InsertSorted(s[0], SortDesc(s[1..]));
    }
  }

  /** The sort is stable: ties keep their input order. */
  lemma {:induction false} SortStable(s: seq<Entry>)
    ensures Stable(SortDesc(s), s)
  {
    if s != [] {
      SortStable(s[1..]);
      forall v ensures ScoreClass(SortDesc(s), v) == ScoreClass(s, v) {
        InsertClass(s[0], SortDesc(s[1..]), v);
      }
    }
  }

  /** `r` is what a stable descending sort makes of `s`. */
  ghost predicate IsStableSortOf(r: seq<Entry>, s: seq<Entry>)
  {
    multiset(r) == multiset(s) && SortedDesc(r) && Stable(r, s)
  }

  lemma {:induction false} SortCorrect(s: seq<Entry>)
    ensures IsStableSortOf(SortDesc(s), s)
    ensures |SortDesc(s)| == |s|
  {
    SortPermutes(s);
    SortSorted(s);
    SortStable(s);
  }

  lemma {:induction false} ClassHead(s: seq<Entry>)
    requires s != [] && SortedDesc(s)
    ensures ScoreClass(s, s[0].score) != [] && ScoreClass(s, s[0].score)[0] == s[0]
    ensures forall v :: v > s[0].score ==> ScoreClass(s, v) == []
  {
    forall v | v > s[0].score ensures ScoreClass(s, v) == [] {
      ClassAbove(s, v);
    }
  }

  lemma {:induction false} ClassAbove(s: seq<Entry>, v: real)
    requires forall i :: 0 <= i < |s| ==> s[i].score < v
    ensures ScoreClass(s, v) == []
  {
    if s != [] {
      ClassAbove(s[1..], v);
    }
  }

  /** Two arrangements that are both sorted by descending score and have the
      same entries in every score class are the same sequence: the stable
      sort has exactly one possible result. */
  lemma {:induction false} StableSortUnique(r: seq<Entry>, q: seq<Entry>)
    requires SortedDesc(r) && SortedDesc(q)
    requires forall v :: ScoreClass(r, v) == ScoreClass(q, v)
    ensures r == q
    decreases |r|
  {
    if r == [] {
      if q != [] {
        ClassHead(q);
        assert false;
      }
    } else if q == [] {
      ClassHead(r);
      assert false;
    } else {
      ClassHead(r);
      ClassHead(q);
      if r[0].score > q[0].score {
        assert false;
      } else if r[0].score < q[0].score {
        assert false;
      }
      assert r[0] == q[0] by {
        assert ScoreClass(r, r[0].score)[0] == r[0];
        assert ScoreClass(q, q[0].score)[0] == q[0];
      }
      forall v ensures ScoreClass(r[1..], v) == ScoreClass(q[1..], v) {
        assert ScoreClass(r, v) == if r[0].score == v then [r[0]] + ScoreClass(r[1..], v) else ScoreClass(r[1..], v);
        assert ScoreClass(q, v) == if q[0].score == v then [q[0]] + ScoreClass(q[1..], v) else ScoreClass(q[1..], v);
        if r[0].score == v {
          assert ([r[0]] + ScoreClass(r[1..], v))[1..] == ScoreClass(r[1..], v);
          assert ([q[0]] + ScoreClass(q[1..], v))[1..] == ScoreClass(q[1..], v);
        }
      }
      StableSortUnique(r[1..], q[1..]);
      assert r == [r[0]] + r[1..];
      assert q == [q[0]] + q[1..];
    }
  }

  /** Any stable descending sort of `s` is `SortDesc(s)`. */
  lemma {:induction false} SortDescIsTheStableSort(r: seq<Entry>, s: seq<Entry>)
    requires IsStableSortOf(r, s)
    ensures r == SortDesc(s)
  {
    SortCorrect(s);
    StableSortUnique(r, SortDesc(s));
  }

  // ---------------------------------------------------------------------
  // Distinct words survive sorting

  lemma {:induction false} InsertWords(x: Entry, s: seq<Entry>)
    ensures forall w :: w in Words(Insert(x, s)) <==> w == x.word || w in Words(s)
  {
    if s != [] && s[0].score > x.score {
      InsertWords(x, s[1..]);
      assert Words(Insert(x, s)) == [s[0].word] + Words(Insert(x, s[1..]));
      assert Words(s) == [s[0].word] + Words(s[1..]);
    } else {
      assert Words(Insert(x, s)) == [x.word] + Words(s);
    }
  }

  lemma {:induction false} SortWords(s: seq<Entry>)
    ensures forall w :: w in Words(SortDesc(s)) <==> w in Words(s)
  {
    if s != [] {
      SortWords(s[1..]);
      InsertWords(s[0], SortDesc(s[1..]));
      assert Words(s) == [s[0].word] + Words(s[1..]);
    }
  }

  lemma {:induction false} DistinctCons(a: string, ws: seq<string>)
    ensures Distinct([a] + ws) <==> a !in ws && Distinct(ws)
  {
    var v := [a] + ws;
    if a !in ws && Distinct(ws) {
      forall i, j | 0 <= i < j < |v| ensures v[i] != v[j] {
        if i > 0 {
          assert v[i] == ws[i - 1] && v[j] == ws[j - 1];
        } else {
          assert v[j] == ws[j - 1];
        }
      }
    }
    if Distinct(v) {
      forall i, j | 0 <= i < j < |ws| ensures ws[i] != ws[j] {
        assert ws[i] == v[i + 1] && ws[j] == v[j + 1];
      }
      forall j | 0 <= j < |ws| ensures ws[j] != a {
        assert v[0] == a && v[j + 1] == ws[j];
      }
    }
  }

  lemma {:induction false} InsertDistinct(x: Entry, s: seq<Entry>)
    requires Distinct(Words(s)) && x.word !in Words(s)
    ensures Distinct(Words(Insert(x, s)))
  {
    if s != [] && s[0].score > x.score {
      assert Words(s) == [s[0].word] + Words(s[1..]);
      DistinctCons(s[0].word, Words(s[1..]));
      InsertDistinct(x, s[1..]);
      InsertWords(x, s[1..]);
      assert Words(Insert(x, s)) == [s[0].word] + Words(Insert(x, s[1..]));
      DistinctCons(s[0].word, Words(Insert(x, s[1..])));
    } else {
      assert Words(Insert(x, s)) == [x.word] + Words(s);
      DistinctCons(x.word, Words(s));
    }
  }

  /** Sorting keeps the words pairwise distinct. */
  lemma {:induction false} SortDistinct(s: seq<Entry>)
    requires Distinct(Words(s))
    ensures Distinct(Words(SortDesc(s)))
  {
    if s != [] {
      assert Words(s) == [s[0].word] + Words(s[1..]);
      DistinctCons(s[0].word, Words(s[1..]));
      SortDistinct(s[1..]);
      SortWords(s[1..]);
      InsertDistinct(s[0], SortDesc(s[1..]));
    }
  }

  // ---------------------------------------------------------------------
  // Slices

  function Min(a: int, b: int): int { if a <= b then a else b }

  /** `s[low:high]` with Python's clamping of out-of-range bounds. */
  function Band(s: seq<Entry>, low: nat, high: nat): (r: seq<Entry>)
    ensures |s| <= low || high <= low ==> r == []
    ensures low < |s| && low < high ==> |r| == Min(high, |s|) - low
    ensures forall k :: 0 <= k < |r| ==> r[k] == s[low + k]
  {
    var lo := if low < |s| then low else |s|;
    var hi := if high < lo then lo else if high < |s| then high else |s|;
    s[lo..hi]
  }

  // ---------------------------------------------------------------------
  // The rank dictionary

  /** `{w: i + 1 for i, (w, _) in enumerate(ranking)}`: a later entry for the
      same word overwrites an earlier one. */
  function RankDict(ranking: seq<Entry>): map<string, int>
  {
    if ranking == [] then map[]
    else RankDict(ranking[..|ranking| - 1])[ranking[|ranking| - 1].word := |ranking|]
  }

  /** Every word of the ranking is a key of its dictionary, and a key's value
      is a 1-based position holding that key. */
  lemma {:induction false} RankDictSound(ranking: seq<Entry>)
    ensures forall i :: 0 <= i < |ranking| ==> ranking[i].word in RankDict(ranking)
    ensures forall w :: w in RankDict(ranking) ==>
              1 <= RankDict(ranking)[w] <= |ranking| && ranking[RankDict(ranking)[w] - 1].word == w
  {
    if ranking != [] {
      var n := |ranking|;
      var p, last := ranking[..n - 1], ranking[n - 1].word;
      RankDictSound(p);
      var m, mp := RankDict(ranking), RankDict(p);
      assert m == mp[last := n];
      forall i | 0 <= i < n ensures ranking[i].word in m {
        if i < n - 1 {
          assert p[i] == ranking[i];
        }
      }
      forall w | w in m ensures 1 <= m[w] <= n && ranking[m[w] - 1].word == w {
        if w != last {
          var j := mp[w] - 1;
          assert p[j] == ranking[j];
          assert m[w] - 1 == j;
        }
      }
    }
  }

  /** The keys of the dictionary are exactly the words of the ranking. */
  lemma {:induction false} RankDictKeys(ranking: seq<Entry>)
    ensures RankDict(ranking).Keys == set i | 0 <= i < |ranking| :: ranking[i].word
  {
    RankDictSound(ranking);
  }

  /** The word at a position is a key. */
  lemma {:induction false} RankDictHas(ranking: seq<Entry>, i: int)
    requires 0 <= i < |ranking|
    ensures ranking[i].word in RankDict(ranking)
  {
    RankDictSound(ranking);
  }

  /** A key's rank names a position that holds it. */
  lemma {:induction false} RankDictValue(ranking: seq<Entry>, w: string) returns (j: int)
    requires w in RankDict(ranking)
    ensures 0 <= j < |ranking| && RankDict(ranking)[w] == j + 1
    ensures ranking[j].word == w && ranking[RankDict(ranking)[w] - 1].word == w
  {
    RankDictSound(ranking);
    j := RankDict(ranking)[w] - 1;
  }

  /** A word at no position is not a key. */
  lemma {:induction false} RankDictMissing(ranking: seq<Entry>, w: string)
    requires forall k :: 0 <= k < |ranking| ==> ranking[k].word != w
    ensures w !in RankDict(ranking)
  {
    RankDictSound(ranking);
  }

  /** With distinct words, two positions holding the same word are one. */
  lemma {:induction false} SameWordSamePosition(ranking: seq<Entry>, i: int, j: int)
    requires Distinct(Words(ranking))
    requires 0 <= i < |ranking| && 0 <= j < |ranking|
    requires ranking[i].word == ranking[j].word
    ensures i == j
  {
    assert Words(ranking)[i] == Words(ranking)[j];
  }

  /** Dropping the last entry keeps the words distinct. */
  lemma {:induction false} DistinctPrefix(ranking: seq<Entry>)
    requires Distinct(Words(ranking)) && ranking != []
    ensures Distinct(Words(ranking[..|ranking| - 1]))
  {
    var p := ranking[..|ranking| - 1];
    forall i, j | 0 <= i < j < |p| ensures Words(p)[i] != Words(p)[j] {
      assert Words(p)[i] == Words(ranking)[i] && Words(p)[j] == Words(ranking)[j];
    }
  }

  /** The dictionary of a ranking is its prefix's dictionary with the last
      word mapped to the ranking's length. */
  lemma {:induction false} RankDictLast(ranking: seq<Entry>)
    requires ranking != []
    ensures RankDict(ranking) ==
              RankDict(ranking[..|ranking| - 1])[ranking[|ranking| - 1].word := |ranking|]
  {
  }

  /** With distinct words the dictionary is a bijection between the words of
      the ranking and 1..N: position `i` holds the word of rank `i + 1`. */
  lemma {:induction false} RankDictBijection(ranking: seq<Entry>, i: int)
    requires Distinct(Words(ranking))
    requires 0 <= i < |ranking|
    ensures ranking[i].word in RankDict(ranking)
    ensures RankDict(ranking)[ranking[i].word] == i + 1
  {
    var w := ranking[i].word;
    RankDictHas(ranking, i);
    var j := RankDictValue(ranking, w);
    SameWordSamePosition(ranking, i, j);
  }

  /** With distinct words, `w` has rank `i + 1` exactly when position `i`
      holds `w`. */
  lemma {:induction false} RankDictIff(ranking: seq<Entry>, w: string, i: int)
    requires Distinct(Words(ranking))
    requires 0 <= i < |ranking|
    ensures ranking[i].word == w ==> w in RankDict(ranking) && RankDict(ranking)[w] == i + 1
    ensures w in RankDict(ranking) && RankDict(ranking)[w] == i + 1 ==> ranking[i].word == w
  {
    RankDictBijection(ranking, i);
    if w in RankDict(ranking) && RankDict(ranking)[w] == i + 1 {
      var j := RankDictValue(ranking, w);
      assert j == i;
    }
  }

  /** The dictionary has exactly one key per entry when the words are
      distinct. */
  lemma {:induction false} RankDictSize(ranking: seq<Entry>)
    requires Distinct(Words(ranking))
    ensures |RankDict(ranking)| == |ranking|
  {
    if ranking != [] {
      var n := |ranking|;
      var p := ranking[..n - 1];
      DistinctPrefix(ranking);
      RankDictSize(p);
      RankDictLast(ranking);
      var w := ranking[n - 1].word;
      forall k | 0 <= k < |p| ensures p[k].word != w {
        assert Words(ranking)[k] != Words(ranking)[n - 1];
      }
      RankDictMissing(p, w);
    }
  }

}
