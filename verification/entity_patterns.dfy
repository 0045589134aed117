/**
 * The custom-pattern side of the named-entity app: `LABEL:PATTERN` lines become
 * EntityRuler pattern records, the recognised entities become (text, label)
 * rows, and the rows are summarised as the ten most frequent (text, label)
 * combinations with their counts. The language model that finds the entities
 * is not part of this model: its entity list is an input.
 */
module EntityPatterns {
  import opened Seqs
  import opened Text

  // ---------------------------------------------------------------------
  // Pattern lines

  /** One EntityRuler pattern, `{"label": tag, "pattern": phrase}`. */
  datatype Pattern = Pattern(tag: string, phrase: string)

  /**
   * Where the loop ends: the patterns and the number of error messages it
   * wrote, or the index of the line whose `split(":")` could not unpack into
   * exactly two parts (a `ValueError` that stops the app).
   */
  datatype PatternsOutcome = Parsed(patterns: seq<Pattern>, errorMessages: nat) | Crashed(line: nat)

  function ColonCount(line: string): nat {
    multiset(line)[':']
  }

  /** The loop's test `line and ":" in line`. */
  predicate IsPatternLine(line: string) {
    line != [] && ':' in line
  }

  predicate IsColon(c: char) { c == ':' }

  /** A stripped string: no whitespace at either end. */
  predicate Stripped(s: string) {
    s == [] || (!IsSpace(s[0]) && !IsSpace(s[|s| - 1]))
  }

  /** No colon comes before the first one. */
  lemma NoColonBefore(line: string)
    ensures ':' !in line[..Span(line, IsColon)]
  {
    var k := Span(line, IsColon);
    forall j | 0 <= j < k ensures line[..k][j] != ':' {
      assert line[..k][j] == line[j] && !IsColon(line[j]);
    }
  }

  /** On a line with a single colon, no colon comes after the first one. */
  lemma NoColonAfter(line: string)
    requires ColonCount(line) == 1
    ensures Span(line, IsColon) < |line| && ':' !in line[Span(line, IsColon) + 1..]
  {
    var k := Span(line, IsColon);
    assert ':' in multiset(line);
    FirstColonFound(line);
    var before, after := line[..k], line[k + 1..];
    assert line == before + [line[k]] + after;
    assert multiset(line) == multiset(before) + multiset{line[k]} + multiset(after);
    assert multiset(after)[':'] == 0;
  }

  /**
   * The first colon splits the line; both halves are stripped. The label holds
   * no colon, and on a line with one colon neither half does.
   */
  function ToPattern(line: string): (r: Pattern)
    ensures Stripped(r.tag) && Stripped(r.phrase)
    ensures ':' !in r.tag
    ensures ColonCount(line) == 1 ==> ':' !in r.phrase
  {
    var tag, phrase := Strip(BeforeColon(line)), Strip(AfterColon(line));
    assert Stripped(tag) && Stripped(phrase);
    ColonFreeHalves(line);
    Pattern(tag, phrase)
  }

  /** The text before the first colon (the whole line when it has none). */
  function BeforeColon(line: string): string {
    line[..Span(line, IsColon)]
  }

  /** The text after the first colon (empty when the line has none). */
  function AfterColon(line: string): string {
    var k := Span(line, IsColon);
    if k < |line| then line[k + 1..] else []
  }

  /** The label half never holds a colon; on a one-colon line the phrase half does not either. */
  lemma ColonFreeHalves(line: string)
    ensures ':' !in Strip(BeforeColon(line))
    ensures ColonCount(line) == 1 ==> ':' !in Strip(AfterColon(line))
  {
    NoColonBefore(line);
    StripInside(BeforeColon(line));
    if ColonCount(line) == 1 {
      NoColonAfter(line);
      StripInside(AfterColon(line));
    }
  }

  /**
   * What the loop has produced after the lines `lines`, in order: each line
   * either adds a record or writes an error message, unless one stopped the app.
   */
  function ParseLines(lines: seq<string>): (r: PatternsOutcome)
    ensures r.Parsed? ==> |r.patterns| + r.errorMessages == |lines|
    ensures r.Crashed? ==> r.line < |lines|
  {
    if lines == [] then Parsed([], 0)
    else
      var last := lines[|lines| - 1];
      match ParseLines(lines[..|lines| - 1])
      case Crashed(k) => Crashed(k)
      case Parsed(ps, errors) =>
        if !IsPatternLine(last) then Parsed(ps, errors + 1)
        else if ColonCount(last) == 1 then Parsed(ps + [ToPattern(last)], errors)
        else Crashed(|lines| - 1)
  }

  /** Once the loop has stopped on a line, later lines change nothing. */
  lemma {:induction false} CrashIsFinal(lines: seq<string>, j: nat)
    requires j <= |lines| && ParseLines(lines[..j]).Crashed?
    ensures ParseLines(lines) == ParseLines(lines[..j])
    decreases |lines| - j
  {
    if j < |lines| {
      var init := lines[..|lines| - 1];
      assert init[..j] == lines[..j];
      CrashIsFinal(init, j);
    } else {
      assert lines[..j] == lines;
    }
  }

  /** One more line: the loop's state after `lines[..i + 1]` from its state after `lines[..i]`. */
  lemma ParseLinesNext(lines: seq<string>, i: nat, ps: seq<Pattern>, errors: nat)
    requires i < |lines| && ParseLines(lines[..i]) == Parsed(ps, errors)
    ensures !IsPatternLine(lines[i]) ==> ParseLines(lines[..i + 1]) == Parsed(ps, errors + 1)
    ensures IsPatternLine(lines[i]) && ColonCount(lines[i]) == 1 ==>
      ParseLines(lines[..i + 1]) == Parsed(ps + [ToPattern(lines[i])], errors)
    ensures IsPatternLine(lines[i]) && ColonCount(lines[i]) != 1 ==> ParseLines(lines[..i + 1]) == Crashed(i)
  {
    var prefix := lines[..i + 1];
    assert prefix[..|prefix| - 1] == lines[..i];
    assert prefix[|prefix| - 1] == lines[i];
  }

  /** A line holding a colon has a first colon. */
  lemma FirstColonFound(line: string)
    requires ':' in line
    ensures Span(line, IsColon) < |line|
  {
    var j :| 0 <= j < |line| && line[j] == ':';
    assert IsColon(line[j]);
  }

  /** A line holding a colon is split just before its first colon and just after it. */
  lemma ToPatternSplit(line: string)
    requires Span(line, IsColon) < |line|
    ensures ToPattern(line) == Pattern(Strip(line[..Span(line, IsColon)]), Strip(line[Span(line, IsColon) + 1..]))
  {
  }

  /**
   * The `patterns` loop over `patterns_input.splitlines()`: a non-empty line
   * with a colon is split at it into a stripped label and pattern; any other
   * line writes an error message.
   */
  method ParsePatterns(patternsInput: string) returns (outcome: PatternsOutcome)
    ensures outcome == ParseLines(SplitLines(patternsInput))
  {
    var patterns: seq<Pattern> := [];
    var errors := 0;
    if patternsInput != [] {
      var lines := SplitLines(patternsInput);
      var i := 0;
      while i < |lines|
        invariant 0 <= i <= |lines|
        invariant ParseLines(lines[..i]) == Parsed(patterns, errors)
      {
        var line := lines[i];
        ParseLinesNext(lines, i, patterns, errors);
        if line != [] && ':' in line {
          if ColonCount(line) != 1 {
            CrashIsFinal(lines, i + 1);
            return Crashed(i);
          }
          FirstColonFound(line);
          ToPatternSplit(line);
          var k := Span(line, IsColon);
          var tag, phrase := line[..k], line[k + 1..];
          patterns := patterns + [Pattern(Strip(tag), Strip(phrase))];
        } else {
          errors := errors + 1;
        }
        i := i + 1;
      }
      assert lines[..|lines|] == lines;
    }
    return Parsed(patterns, errors);
  }

  /**
   * When no line stops the loop, the patterns are exactly the pattern lines,
   * in order, each split at its colon; every other line wrote one error message.
   */
  lemma {:induction false} ParsedIsFilterThenSplit(lines: seq<string>)
    requires ParseLines(lines).Parsed?
    ensures ParseLines(lines).patterns == Map(Filter(lines, IsPatternLine), ToPattern)
    ensures ParseLines(lines).errorMessages == |lines| - |ParseLines(lines).patterns|
    ensures |ParseLines(lines).patterns| <= |lines|
  {
    if lines != [] {
      var init := lines[..|lines| - 1];
      var last := lines[|lines| - 1];
      assert ParseLines(init).Parsed?;
      ParsedIsFilterThenSplit(init);
      assert lines == init + [last];
      FilterAppend(init, [last], IsPatternLine);
      var kept := Filter(init, IsPatternLine);
      if IsPatternLine(last) {
        assert Filter([last], IsPatternLine) == [last];
        assert Filter(lines, IsPatternLine) == kept + [last];
        MapAppend(kept, last, ToPattern);
      } else {
        assert Filter([last], IsPatternLine) == [];
        assert Filter(lines, IsPatternLine) == kept;
      }
    }
  }

  /** The loop runs to the end exactly when no pattern line has more than one colon. */
  lemma {:induction false} ParsedIffOneColonEach(lines: seq<string>)
    ensures ParseLines(lines).Parsed? <==> forall i :: 0 <= i < |lines| && IsPatternLine(lines[i]) ==> ColonCount(lines[i]) == 1
  {
    if lines != [] {
      var init := lines[..|lines| - 1];
      ParsedIffOneColonEach(init);
      assert forall i :: 0 <= i < |init| ==> init[i] == lines[i];
    }
  }

  /** The loop stops at the first pattern line holding two colons or more. */
  lemma {:induction false} CrashAtFirstBadLine(lines: seq<string>)
    requires ParseLines(lines).Crashed?
    ensures ParseLines(lines).line < |lines|
    ensures IsPatternLine(lines[ParseLines(lines).line]) && ColonCount(lines[ParseLines(lines).line]) > 1
    ensures forall i :: 0 <= i < ParseLines(lines).line && IsPatternLine(lines[i]) ==> ColonCount(lines[i]) == 1
  {
    var init := lines[..|lines| - 1];
    assert forall i :: 0 <= i < |init| ==> init[i] == lines[i];
    if ParseLines(init).Crashed? {
      CrashAtFirstBadLine(init);
    } else {
      ParsedIffOneColonEach(init);
    }
  }

  /** In `tag + ":" + phrase` with no colon in `tag`, the first colon is the one after `tag`. */
  lemma FirstColonAfterTag(tag: string, phrase: string)
    requires ':' !in tag
    ensures Span(tag + ":" + phrase, IsColon) == |tag|
  {
    var line := tag + ":" + phrase;
    assert line[|tag|] == ':';
    assert forall i :: 0 <= i < |tag| ==> line[i] == tag[i];
  }

  lemma ColonsOf(a: string, b: string)
    ensures ColonCount(a + ":" + b) == ColonCount(a) + 1 + ColonCount(b)
  {
    assert multiset(a + ":" + b) == multiset(a) + multiset(":") + multiset(b);
  }

  /** Splitting `tag + ":" + phrase` at its first colon gives back the stripped halves. */
  lemma ToPatternOfTagged(tag: string, phrase: string)
    requires ':' !in tag
    ensures ToPattern(tag + ":" + phrase) == Pattern(Strip(tag), Strip(phrase))
  {
    var line := tag + ":" + phrase;
    FirstColonAfterTag(tag, phrase);
    assert line[..|tag|] == tag;
    assert line[|tag| + 1..] == phrase;
  }

  /** The loop over a single line. */
  lemma ParseOneLine(line: string)
    ensures ParseLines([line]) ==
      if !IsPatternLine(line) then Parsed([], 1)
      else if ColonCount(line) == 1 then Parsed([ToPattern(line)], 0)
      else Crashed(0)
  {
    var one: seq<string> := [line];
    assert one[..0] == [];
  }

  /** A `LABEL:PATTERN` line gives one record, label and pattern stripped. */
  lemma OneColonLine(tag: string, phrase: string)
    requires ':' !in tag && ':' !in phrase
    ensures ParseLines([tag + ":" + phrase]) == Parsed([Pattern(Strip(tag), Strip(phrase))], 0)
  {
    var line := tag + ":" + phrase;
    ParseOneLine(line);
    ColonsOf(tag, phrase);
    ToPatternOfTagged(tag, phrase);
    assert line[|tag|] == ':';
  }

  /** An empty line, or one with no colon, gives no record and one error message. */
  lemma MalformedLine(line: string)
    requires line == [] || ':' !in line
    ensures ParseLines([line]) == Parsed([], 1)
  {
    var one: seq<string> := [line];
    assert one[..0] == [];
  }

  /** A line with two colons cannot be unpacked into a label and a pattern: the loop stops there. */
  lemma TwoColonLine(a: string, b: string, c: string)
    ensures ParseLines([a + ":" + b + ":" + c]) == Crashed(0)
  {
    var line: string := a + ":" + b + ":" + c;
    var one: seq<string> := [line];
    assert one[..0] == [];
    assert line[|a|] == ':';
    ColonsOf(a, b);
    ColonsOf(a + ":" + b, c);
  }

  /** Empty input leaves the pattern list empty. */
  lemma EmptyInputNoPatterns()
    ensures ParseLines(SplitLines("")) == Parsed([], 0)
  {
  }

  // ---------------------------------------------------------------------
  // Entity rows

  /**
   * One recognised entity span, as far as this app reads it: `ent.text` and
   * `ent.label_`. It stands for the language model's span object, which the
   * table never holds; the table holds `EntityRow`s built from it.
   */
  datatype Entity = Entity(text: string, tag: string)

  /** A row of `entities_data`: the dictionary `{"text": ..., "label": ...}`. */
  datatype EntityRow = EntityRow(text: string, tag: string)

  /** The `entities_data` loop: one (text, label) row per entity, in entity order. */
  method CollectEntities(ents: seq<Entity>) returns (data: seq<EntityRow>)
    ensures |data| == |ents|
    ensures forall i :: 0 <= i < |ents| ==> data[i] == EntityRow(ents[i].text, ents[i].tag)
  {
    data := [];
    var i := 0;
    while i < |ents|
      invariant 0 <= i <= |ents|
      invariant |data| == i
      invariant forall j :: 0 <= j < i ==> data[j] == EntityRow(ents[j].text, ents[j].tag)
    {
      data := data + [EntityRow(ents[i].text, ents[i].tag)];
      i := i + 1;
    }
  }

  // ---------------------------------------------------------------------
  // Top-10 (text, label) combinations

  /** A (text, label) combination and how many rows carry it. */
  datatype PairCount = PairCount(row: EntityRow, count: nat)

  function Occurrences(data: seq<EntityRow>, row: EntityRow): nat {
    multiset(data)[row]
  }

  /** Pairs a combination with its number of rows in `data`. */
  function CountIn(data: seq<EntityRow>): EntityRow -> PairCount {
    x => PairCount(x, Occurrences(data, x))
  }

  /** Counts never increase down `r`. */
  predicate Descending(r: seq<PairCount>) {
    forall i, j :: 0 <= i < j < |r| ==> r[i].count >= r[j].count
  }

  /** `p` placed after every pair counting at least as much and before the rest. */
  function Insert(p: PairCount, s: seq<PairCount>): (r: seq<PairCount>)
    ensures multiset(r) == multiset(s) + multiset{p}
  {
    if s == [] || s[0].count < p.count then [p] + s
    else
      assert s == [s[0]] + s[1..];
      [s[0]] + Insert(p, s[1..])
  }

  /** Insertion adds `p` and nothing else. */
  lemma InsertMembers(p: PairCount, s: seq<PairCount>)
    ensures forall y :: y in Insert(p, s) ==> y == p || y in s
  {
    forall y | y in Insert(p, s) ensures y == p || y in s {
      assert y in multiset(Insert(p, s));
    }
  }

  /** Inserting into a descending list keeps it descending. */
  lemma {:induction false} InsertDescending(p: PairCount, s: seq<PairCount>)
    requires Descending(s)
    ensures Descending(Insert(p, s))
  {
    if s != [] && s[0].count >= p.count {
      var tail := s[1..];
      var rest := Insert(p, tail);
      InsertDescending(p, tail);
      InsertMembers(p, tail);
      var r := [s[0]] + rest;
      assert Insert(p, s) == r;
      forall i, j | 0 <= i < j < |r| ensures r[i].count >= r[j].count {
        var y := rest[j - 1];
        assert r[j] == y && y in rest;
        if i > 0 {
          assert r[i] == rest[i - 1];
        } else if y != p {
          var k :| 0 <= k < |tail| && tail[k] == y;
          assert s[k + 1] == y;
        }
      }
    }
  }

  /** The pairs ordered by count, most frequent first (the `value_counts` order). */
  function SortByCount(ps: seq<PairCount>): (r: seq<PairCount>)
    ensures multiset(r) == multiset(ps)
  {
    if ps == [] then []
    else
      assert ps == [ps[0]] + ps[1..];
      Insert(ps[0], SortByCount(ps[1..]))
  }

  lemma {:induction false} SortByCountDescending(ps: seq<PairCount>)
    ensures Descending(SortByCount(ps))
  {
    if ps != [] {
      SortByCountDescending(ps[1..]);
      InsertDescending(ps[0], SortByCount(ps[1..]));
    }
  }

  /** `value_counts()` of the rows: each distinct combination once, with its count, most frequent first. */
  function ValueCounts(data: seq<EntityRow>): (r: seq<PairCount>)
    ensures |r| == |Distinct(data)|
  {
    var r := SortByCount(Tally(data));
    assert |r| == |multiset(r)|;
    r
  }

  /** No combination appears twice among the pairs. */
  predicate RowsDistinct(r: seq<PairCount>) {
    forall i, j :: 0 <= i < j < |r| ==> r[i].row != r[j].row
  }

  /** `x` is not the combination of any row of `r`. */
  predicate Unlisted(r: seq<PairCount>, x: EntityRow) {
    forall i :: 0 <= i < |r| ==> r[i].row != x
  }

  /** Every pair of `r` is a combination of `data` with its true count, at least one. */
  predicate Counted(r: seq<PairCount>, data: seq<EntityRow>) {
    forall i :: 0 <= i < |r| ==> r[i].row in data && r[i].count == Occurrences(data, r[i].row) && r[i].count >= 1
  }

  /** One pair per distinct combination of the rows, in first-appearance order. */
  function Tally(data: seq<EntityRow>): (r: seq<PairCount>)
    ensures |r| == |Distinct(data)|
  {
    Map(Distinct(data), CountIn(data))
  }

  /** The tally pairs each combination of the rows once with its true count. */
  lemma TallySpec(data: seq<EntityRow>)
    ensures Counted(Tally(data), data) && NoDups(Tally(data))
    ensures forall x :: x in data ==> PairCount(x, Occurrences(data, x)) in Tally(data)
  {
    var d := Distinct(data);
    var tally := Tally(data);
    forall i | 0 <= i < |tally| ensures tally[i].row in data && tally[i].count == Occurrences(data, tally[i].row) && tally[i].count >= 1 {
      assert tally[i] == PairCount(d[i], Occurrences(data, d[i]));
      assert d[i] in d;
    }
    forall i, j | 0 <= i < j < |tally| ensures tally[i] != tally[j] {
      assert tally[i].row == d[i] && tally[j].row == d[j];
    }
    forall x | x in data ensures PairCount(x, Occurrences(data, x)) in tally {
      var j :| 0 <= j < |d| && d[j] == x;
      assert tally[j] == PairCount(x, Occurrences(data, x));
    }
  }

  /** Reordering keeps every pair counted. */
  lemma CountedPermutation(a: seq<PairCount>, b: seq<PairCount>, data: seq<EntityRow>)
    requires multiset(a) == multiset(b) && Counted(a, data)
    ensures Counted(b, data)
  {
    forall i | 0 <= i < |b| ensures b[i].row in data && b[i].count == Occurrences(data, b[i].row) && b[i].count >= 1 {
      assert b[i] in multiset(a);
      var j :| 0 <= j < |a| && a[j] == b[i];
    }
  }

  /** Distinct counted pairs are pairs of distinct combinations. */
  lemma CountedRowsDistinct(r: seq<PairCount>, data: seq<EntityRow>)
    requires Counted(r, data) && NoDups(r)
    ensures RowsDistinct(r)
  {
    forall i, j | 0 <= i < j < |r| ensures r[i].row != r[j].row {
      assert r[i] != r[j];
    }
  }

  /**
   * Every pair of `value_counts()` is a combination of the rows with its true
   * count (at least one), the combinations are distinct, the counts
   * descend, and every combination of the rows has its pair in the table.
   */
  lemma ValueCountsSpec(data: seq<EntityRow>)
    ensures Counted(ValueCounts(data), data)
    ensures forall x :: x in data ==> PairCount(x, Occurrences(data, x)) in ValueCounts(data)
    ensures Descending(ValueCounts(data)) && RowsDistinct(ValueCounts(data))
  {
    var tally := Tally(data);
    var r := ValueCounts(data);
    assert r == SortByCount(tally);
    TallySpec(data);
    SortByCountDescending(tally);
    CountedPermutation(tally, r, data);
    forall x | x in data ensures PairCount(x, Occurrences(data, x)) in r {
      assert PairCount(x, Occurrences(data, x)) in multiset(r);
    }
    NoDupsPermutation(tally, r);
    CountedRowsDistinct(r, data);
  }

  /** The analysis table: "No entities found", or the top-10 combinations. */
  datatype EntityAnalysis = NoEntities | TopCombinations(top: seq<PairCount>)

  /**
   * `ent_df[['text','label']].value_counts()[:10]`, or the no-entities branch
   * when there are no rows.
   */
  function Analyse(data: seq<EntityRow>): (r: EntityAnalysis)
    ensures r.NoEntities? <==> data == []
    ensures r.TopCombinations? ==> 1 <= |r.top| <= 10
    ensures r.TopCombinations? ==> |r.top| == if |Distinct(data)| < 10 then |Distinct(data)| else 10
  {
    if data == [] then NoEntities
    else
      var counts := ValueCounts(data);
      assert data[0] in Distinct(data);
      TopCombinations(counts[..if |counts| < 10 then |counts| else 10])
  }

  /** The first `n` pairs of a ranked table are counted and ranked too. */
  lemma RankedPrefix(c: seq<PairCount>, n: nat, data: seq<EntityRow>)
    requires n <= |c| && Counted(c, data) && Descending(c) && RowsDistinct(c)
    ensures Counted(c[..n], data) && Descending(c[..n]) && RowsDistinct(c[..n])
  {
  }

  /**
   * Cutting a descending table that holds every combination after `n` pairs
   * leaves out no combination occurring more often than a kept one.
   */
  lemma PrefixDominates(c: seq<PairCount>, n: nat, data: seq<EntityRow>)
    requires n <= |c| && Descending(c)
    requires forall x :: x in data ==> PairCount(x, Occurrences(data, x)) in c
    ensures forall x :: x in data && Unlisted(c[..n], x) ==>
      forall i :: 0 <= i < n ==> Occurrences(data, x) <= c[i].count
  {
    forall x | x in data && Unlisted(c[..n], x) ensures forall i :: 0 <= i < n ==> Occurrences(data, x) <= c[i].count {
      var j :| 0 <= j < |c| && c[j] == PairCount(x, Occurrences(data, x));
      assert forall i :: 0 <= i < n ==> c[i].row != x by {
        forall i | 0 <= i < n ensures c[i].row != x {
          assert c[..n][i] == c[i];
        }
      }
      assert j >= n;
    }
  }

  /**
   * The table lists combinations that occur in the rows, each with its count
   * (at least one), most frequent first, none twice, and no combination left
   * out occurs more often than a listed one.
   */
  lemma AnalyseRanksCombinations(data: seq<EntityRow>)
    requires data != []
    ensures Counted(Analyse(data).top, data)
    ensures Descending(Analyse(data).top) && RowsDistinct(Analyse(data).top)
    ensures forall x :: x in data && Unlisted(Analyse(data).top, x) ==>
      forall i :: 0 <= i < |Analyse(data).top| ==> Occurrences(data, x) <= Analyse(data).top[i].count
  {
    var counts := ValueCounts(data);
    var n := |Analyse(data).top|;
    assert Analyse(data).top == counts[..n];
    ValueCountsSpec(data);
    RankedPrefix(counts, n, data);
    PrefixDominates(counts, n, data);
  }
}
