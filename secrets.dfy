/** The secret-word catalog: a text file of `[Theme]` headers, each followed by
    candidate secret words, read line by line into a map from theme name to
    the list of its (lower-cased) words.

    The two loaders of the game differ, so the line grammar takes a dialect:
    - `EngineLoader` (GameEngine.load_secrets): any stripped line that starts
      with `[` is a header, and a word before the first header raises KeyError;
    - `JeuLoader` (load_secret_words): a header must also end with `]`, and a
      word is dropped while the current theme is missing or is the empty name.

    Both are captured by one fold, `Load`, over the lines of the file. */
module Secrets {
  import opened Wrappers
  import opened Text

  datatype Dialect = EngineLoader | JeuLoader

  type Catalog = map<string, seq<string>>

  /** What one line of the file is, after `line.strip()`. */
  datatype LineKind = Blank | Header(name: string) | Word(word: string)

  function Classify(d: Dialect, raw: string): LineKind
  {
    var line := Strip(raw);
    if line == [] || line[0] == '#' then Blank
    else if line[0] == '[' && (d == EngineLoader || line[|line| - 1] == ']') then Header(Inner(line))
    else Word(Lower(line))
  }

  /** The loader's local variables between two lines; `failed` records that
      the loop was left by an exception. */
  datatype State = State(current: Option<string>, themes: Catalog, failed: bool)

  /** True when a word line is silently ignored (only in `load_secret_words`,
      whose `elif current_theme:` is false for `None` and for `""`). */
  predicate Drops(d: Dialect, current: Option<string>)
  {
    d == JeuLoader && (current == None || current == Some(""))
  }

  /** The effect of one classified line. */
  function Step(d: Dialect, st: State, line: LineKind): State
  {
    if st.failed then st
    else match line
      case Blank => st
      case Header(n) => State(Some(n), st.themes[n := []], false)
      case Word(w) =>
        if Drops(d, st.current) then st
        else if st.current.None? || st.current.value !in st.themes then st.(failed := true)
        else st.(themes := st.themes[st.current.value := st.themes[st.current.value] + [w]])
  }

  /** The classification of every line of a file. */
  function Kinds(d: Dialect, lines: seq<string>): (ks: seq<LineKind>)
    ensures |ks| == |lines|
    ensures forall i :: 0 <= i < |lines| ==> ks[i] == Classify(d, lines[i])
  {
    seq(|lines|, i requires 0 <= i < |lines| => Classify(d, lines[i]))
  }

  /** The state after reading the classified lines `ks`, starting from the
      catalog `init` with no current theme. */
  function Load(d: Dialect, init: Catalog, ks: seq<LineKind>): State
    decreases |ks|
  {
    if ks == [] then State(None, init, false)
    else Step(d, Load(d, init, ks[..|ks| - 1]), ks[|ks| - 1])
  }

  /** Reading one more line of a prefix is one `Step`. */
  lemma {:induction false} LoadPrefixStep(d: Dialect, init: Catalog, ks: seq<LineKind>, i: int)
    requires 0 <= i < |ks|
    ensures Load(d, init, ks[..i + 1]) == Step(d, Load(d, init, ks[..i]), ks[i])
  {
    assert ks[..i + 1][..i] == ks[..i];
  }

  // ---------------------------------------------------------------------
  // Reference description of the result

  /** Index of the last header in `ks`, or -1. */
  function LastHeader(ks: seq<LineKind>): (k: int)
    ensures -1 <= k < |ks|
    ensures k >= 0 ==> ks[k].Header?
    ensures forall j :: k < j < |ks| ==> !ks[j].Header?
  {
    if ks == [] then -1
    else if ks[|ks| - 1].Header? then |ks| - 1
    else LastHeader(ks[..|ks| - 1])
  }

  /** Index of the last header naming theme `t`, or -1. */
  function HeaderOf(ks: seq<LineKind>, t: string): (k: int)
    ensures -1 <= k < |ks|
    ensures k >= 0 ==> ks[k] == Header(t)
    ensures forall j :: k < j < |ks| ==> ks[j] != Header(t)
  {
    if ks == [] then -1
    else if ks[|ks| - 1] == Header(t) then |ks| - 1
    else HeaderOf(ks[..|ks| - 1], t)
  }

  /** The words from index `k` up to the next header. */
  function Section(ks: seq<LineKind>, k: nat): seq<string>
    requires k <= |ks|
    decreases |ks| - k
  {
    if k == |ks| then []
    else match ks[k]
      case Header(_) => []
      case Blank => Section(ks, k + 1)
      case Word(w) => [w] + Section(ks, k + 1)
  }

  /** A word line that no header precedes. */
  ghost predicate OrphanWord(ks: seq<LineKind>)
  {
    exists i :: 0 <= i < |ks| && ks[i].Word? && forall j :: 0 <= j < i ==> !ks[j].Header?
  }

  function Contribution(line: LineKind): seq<string>
  {
    match line
    case Word(w) => [w]
    case _ => []
  }

  lemma {:induction false} SectionAppend(p: seq<LineKind>, l: LineKind, k: nat)
    requires k <= |p|
    ensures (exists j :: k <= j < |p| && p[j].Header?) ==> Section(p + [l], k) == Section(p, k)
    ensures (forall j :: k <= j < |p| ==> !p[j].Header?) ==>
              Section(p + [l], k) == Section(p, k) + Contribution(l)
    decreases |p| - k
  {
    var q := p + [l];
    if k == |p| {
      assert q[k] == l;
      assert Section(q, k + 1) == [];
    } else {
      assert q[k] == p[k];
      SectionAppend(p, l, k + 1);
      if !p[k].Header? {
        if exists j :: k <= j < |p| && p[j].Header? {
          var j :| k <= j < |p| && p[j].Header?;
          assert j != k;
        }
      }
    }
  }

  /** Once an exception has left the loop, later lines change nothing. */
  lemma {:induction false} LoadFailureFinal(d: Dialect, init: Catalog, ks: seq<LineKind>, i: nat)
    requires i <= |ks| && Load(d, init, ks[..i]).failed
    ensures Load(d, init, ks) == Load(d, init, ks[..i])
    decreases |ks|
  {
    if i < |ks| {
      var p := ks[..|ks| - 1];
      assert p[..i] == ks[..i];
      LoadFailureFinal(d, init, p, i);
    } else {
      assert ks[..i] == ks;
    }
  }

  /** While no exception happened, the open theme, if any, is a key of the
      catalog. */
  lemma {:induction false} LoadOpen(d: Dialect, init: Catalog, ks: seq<LineKind>)
    requires !Load(d, init, ks).failed
    ensures var st := Load(d, init, ks);
            st.current.Some? ==> st.current.value in st.themes
  {
    if ks != [] {
      LoadOpen(d, init, ks[..|ks| - 1]);
    }
  }

  /** While no exception has happened, the current theme is the name of the
      last header read, and it is a key of the catalog. */
  lemma {:induction false} LoadCurrent(d: Dialect, init: Catalog, ks: seq<LineKind>)
    requires !Load(d, init, ks).failed
    ensures var st, k := Load(d, init, ks), LastHeader(ks);
            st.current == (if k < 0 then None else Some(ks[k].name))
    ensures var st := Load(d, init, ks);
            st.current.Some? ==> st.current.value in st.themes
  {
    if ks != [] {
      LoadCurrent(d, init, ks[..|ks| - 1]);
    }
  }

  /** Without any header the catalog is the initial one and no theme is
      open. */
  lemma {:induction false} NoHeaderKeepsInit(d: Dialect, init: Catalog, ks: seq<LineKind>)
    requires LastHeader(ks) < 0
    ensures Load(d, init, ks).themes == init && Load(d, init, ks).current == None
  {
    if ks != [] {
      NoHeaderKeepsInit(d, init, ks[..|ks| - 1]);
    }
  }

  /** A load that raises leaves the catalog exactly as it was: the only line
      that raises is a word line read before any header. */
  lemma {:induction false} FailureKeepsInit(d: Dialect, init: Catalog, ks: seq<LineKind>)
    ensures Load(d, init, ks).failed ==>
              Load(d, init, ks).themes == init && Load(d, init, ks).current == None
  {
    if ks != [] {
      var p := ks[..|ks| - 1];
      FailureKeepsInit(d, init, p);
      if !Load(d, init, p).failed && Load(d, init, ks).failed {
        LoadCurrent(d, init, p);
        if LastHeader(p) < 0 {
          NoHeaderKeepsInit(d, init, p);
        }
      }
    }
  }

  /** The engine loader fails exactly when some word line comes before every
      header; the drop-in-silence loader never fails. */
  lemma {:induction false} LoadFailsIff(d: Dialect, init: Catalog, ks: seq<LineKind>)
    ensures Load(d, init, ks).failed <==> d == EngineLoader && OrphanWord(ks)
  {
    if ks != [] {
      var p, l := ks[..|ks| - 1], ks[|ks| - 1];
      LoadFailsIff(d, init, p);
      var st := Load(d, init, p);
      assert forall j :: 0 <= j < |p| ==> p[j] == ks[j];
      if OrphanWord(p) {
        var i :| 0 <= i < |p| && p[i].Word? && forall j :: 0 <= j < i ==> !p[j].Header?;
        assert ks[i].Word? && forall j :: 0 <= j < i ==> !ks[j].Header?;
      }
      if !st.failed {
        LoadCurrent(d, init, p);
        if OrphanWord(ks) && !OrphanWord(p) {
          var i :| 0 <= i < |ks| && ks[i].Word? && forall j :: 0 <= j < i ==> !ks[j].Header?;
          if i < |p| {
            assert false;
          }
          assert LastHeader(p) < 0;
        }
        if l.Word? && LastHeader(p) < 0 {
          assert ks[|p|].Word? && forall j :: 0 <= j < |p| ==> !ks[j].Header?;
        }
      }
    }
  }

  /** The keys of the loaded catalog are the initial ones plus every header's
      name. */
  lemma {:induction false} LoadKeys(d: Dialect, init: Catalog, ks: seq<LineKind>, t: string)
    requires !Load(d, init, ks).failed
    ensures t in Load(d, init, ks).themes <==> t in init || HeaderOf(ks, t) >= 0
  {
    if ks != [] {
      var p := ks[..|ks| - 1];
      LoadKeys(d, init, p, t);
      LoadCurrent(d, init, p);
    }
  }

  /** A theme that no header names keeps its initial words. */
  lemma {:induction false} LoadUntouched(d: Dialect, init: Catalog, ks: seq<LineKind>, t: string)
    requires !Load(d, init, ks).failed
    requires t in init && HeaderOf(ks, t) < 0
    ensures t in Load(d, init, ks).themes && Load(d, init, ks).themes[t] == init[t]
  {
    if ks != [] {
      var p := ks[..|ks| - 1];
      LoadUntouched(d, init, p, t);
      LoadCurrent(d, init, p);
      LoadKeys(d, init, p, t);
    }
  }

  /** How one line changes the words of theme `t`. */
  lemma {:induction false} StepThemes(d: Dialect, st: State, l: LineKind, t: string)
    requires !st.failed && !Step(d, st, l).failed
    requires t in st.themes || l == Header(t)
    ensures t in Step(d, st, l).themes
    ensures Step(d, st, l).themes[t] ==
              if l == Header(t) then []
              else if l.Word? && st.current == Some(t) && !Drops(d, st.current) then st.themes[t] + [l.word]
              else st.themes[t]
  {
  }

  /** The last line of `ks`, read after the last header of theme `t` in the
      rest, extends the theme's words exactly as it extends its section. */
  lemma {:induction false} SectionStep(d: Dialect, st: State, ks: seq<LineKind>, t: string, k: int)
    requires ks != [] && ks[|ks| - 1] != Header(t)
    requires !st.failed && !Step(d, st, ks[|ks| - 1]).failed
    requires k == HeaderOf(ks[..|ks| - 1], t) && k >= 0
    requires st.current == (if LastHeader(ks[..|ks| - 1]) < 0 then None
                            else Some(ks[..|ks| - 1][LastHeader(ks[..|ks| - 1])].name))
    requires t in st.themes
    requires st.themes[t] == if d == JeuLoader && t == "" then [] else Section(ks[..|ks| - 1], k + 1)
    ensures t in Step(d, st, ks[|ks| - 1]).themes
    ensures Step(d, st, ks[|ks| - 1]).themes[t] ==
              if d == JeuLoader && t == "" then [] else Section(ks, k + 1)
  {
    var p, l := ks[..|ks| - 1], ks[|ks| - 1];
    assert ks == p + [l];
    StepThemes(d, st, l, t);
    SectionAppend(p, l, k + 1);
    var big := LastHeader(p);
    assert big >= 0 ==> p[big] == ks[big];
    if l.Word? && st.current == Some(t) && !Drops(d, st.current) {
      assert big == k;
    } else if l.Word? && st.current == Some(t) {
      assert d == JeuLoader && t == "";
    } else if l.Word? {
      assert big > k by {
        assert big >= k;
      }
      assert p[big].Header?;
    }
  }

  /** A theme with a header holds the words after its LAST header up to the
      next header, so a repeated header discards the earlier words; the
      `load_secret_words` dialect keeps no words under the empty name. */
  lemma {:induction false} LoadSection(d: Dialect, init: Catalog, ks: seq<LineKind>, t: string)
    requires !Load(d, init, ks).failed
    requires HeaderOf(ks, t) >= 0
    ensures t in Load(d, init, ks).themes
    ensures Load(d, init, ks).themes[t] ==
              if d == JeuLoader && t == "" then [] else Section(ks, HeaderOf(ks, t) + 1)
  {
    var p := ks[..|ks| - 1];
    if ks[|ks| - 1] == Header(t) {
      StepThemes(d, Load(d, init, p), ks[|ks| - 1], t);
    } else {
      assert HeaderOf(ks, t) == HeaderOf(p, t);
      LoadSection(d, init, p, t);
      LoadSectionStep(d, init, ks, t);
    }
  }

  /** The step of `LoadSection` past a line that is not the theme's header. */
  lemma {:induction false} LoadSectionStep(d: Dialect, init: Catalog, ks: seq<LineKind>, t: string)
    requires ks != [] && ks[|ks| - 1] != Header(t)
    requires !Load(d, init, ks).failed
    requires HeaderOf(ks[..|ks| - 1], t) >= 0
    requires t in Load(d, init, ks[..|ks| - 1]).themes
    requires Load(d, init, ks[..|ks| - 1]).themes[t] ==
               if d == JeuLoader && t == "" then [] else Section(ks[..|ks| - 1], HeaderOf(ks[..|ks| - 1], t) + 1)
    ensures t in Load(d, init, ks).themes
    ensures Load(d, init, ks).themes[t] ==
              if d == JeuLoader && t == "" then [] else Section(ks, HeaderOf(ks[..|ks| - 1], t) + 1)
  {
    var p := ks[..|ks| - 1];
    var st := Load(d, init, p);
    assert Load(d, init, ks) == Step(d, st, ks[|ks| - 1]);
    LoadCurrent(d, init, p);
    SectionStep(d, st, ks, t, HeaderOf(p, t));
  }

  /** Everything the loaded catalog holds, when no exception happened. */
  lemma {:induction false} LoadThemes(d: Dialect, init: Catalog, ks: seq<LineKind>, t: string)
    requires !Load(d, init, ks).failed
    ensures var st, k := Load(d, init, ks), HeaderOf(ks, t);
            && (t in st.themes <==> t in init || k >= 0)
            && (k >= 0 ==>
                  st.themes[t] == if d == JeuLoader && t == "" then [] else Section(ks, k + 1))
            && (k < 0 && t in init ==> st.themes[t] == init[t])
  {
    LoadKeys(d, init, ks, t);
    if HeaderOf(ks, t) >= 0 {
      LoadSection(d, init, ks, t);
    } else if t in init {
      LoadUntouched(d, init, ks, t);
    }
  }
}
