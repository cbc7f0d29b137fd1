/** How one desktop entry scores for one query. */
module LauncherScore {
  import opened Basics

  /** The parts of a desktop entry that search reads, already normalized. */
  datatype Entry = Entry(id: string, name: string, search: string)

  // ---------------------------------------------------------------- Text matching

  predicate StartsWith(text: string, query: string) {
    |query| <= |text| && text[..|query|] == query
  }

  predicate Contains(text: string, query: string) {
    StartsWith(text, query) || (text != [] && Contains(text[1..], query))
  }

  predicate IsSeparator(c: char) {
    IsWhitespace(c) || c == '-' || c == '_'
  }

  /** The words of `text`, the first of which continues `word`. */
  function Words(text: string, word: string): seq<string> {
    if text == [] then [word]
    else if IsSeparator(text[0]) then [word] + Words(text[1..], "")
    else Words(text[1..], word + [text[0]])
  }

  predicate WordPrefix(text: string, query: string) {
    exists i :: 0 <= i < |Words(text, "")| && StartsWith(Words(text, "")[i], query)
  }

  /** The characters between the first and last match when `query` is matched greedily. */
  function Scan(text: string, query: string, span: nat, started: bool): Option<nat>
    requires query != []
    decreases |text|
  {
    if text == [] then None else
      var span' := if started then span + 1 else span;
      if text[0] != query[0] then Scan(text[1..], query, span', started)
      else if |query| == 1 then Some(span')
      else Scan(text[1..], query[1..], span', true)
  }

  function Min(a: nat, b: nat): nat { if a < b then a else b }

  function SubsequenceScore(text: string, query: string): nat {
    if |query| < 3 then 0 else
      match Scan(text, query, 0, false)
      case None => 0
      case Some(span) => 100 + (if 8 * |query| < Min(span, 80) then 0 else 8 * |query| - Min(span, 80))
  }

  datatype Class = Exact | Prefix | WordStart | NamePart | SearchPart | Fuzzy

  function ClassOf(entry: Entry, query: string): Class {
    if entry.name == query then Exact
    else if StartsWith(entry.name, query) then Prefix
    else if WordPrefix(entry.name, query) then WordStart
    else if Contains(entry.name, query) then NamePart
    else if Contains(entry.search, query) then SearchPart
    else Fuzzy
  }

  function Score(entry: Entry, query: string): nat {
    match ClassOf(entry, query)
    case Exact => 10000
    case Prefix => 5000
    case WordStart => 3000
    case NamePart => 1500
    case SearchPart => 750
    case Fuzzy => SubsequenceScore(entry.search, query)
  }

  // ---------------------------------------------------------------- The fuzzy score

  /** `query` can be read off `text` at increasing positions. */
  ghost predicate IsSubsequence(query: string, text: string) {
    exists at: seq<nat> :: Embeds(query, text, at)
  }

  ghost predicate Embeds(query: string, text: string, at: seq<nat>) {
    && |at| == |query|
    && (forall i :: 0 <= i < |at| ==> at[i] < |text| && text[at[i]] == query[i])
    && (forall i, j :: 0 <= i < j < |at| ==> at[i] < at[j])
  }

  lemma {:induction false} ScanFindsEmbedding(text: string, query: string, span: nat, started: bool) returns (at: seq<nat>)
    requires query != [] && Scan(text, query, span, started).Some?
    ensures Embeds(query, text, at)
    ensures Scan(text, query, span, started).value >= span + |query| - if started then 0 else 1
    decreases |text|
  {
    var span' := if started then span + 1 else span;
    var rest: seq<nat>;
    if text[0] != query[0] {
      rest := ScanFindsEmbedding(text[1..], query, span', started);
      at := seq(|rest|, i requires 0 <= i < |rest| => rest[i] + 1);
    } else if |query| == 1 {
      at := [0];
    } else {
      rest := ScanFindsEmbedding(text[1..], query[1..], span', true);
      at := seq(|query|, i requires 0 <= i < |query| => if i == 0 then 0 else rest[i - 1] + 1);
    }
  }

  lemma {:induction false} EmbeddingIsScanned(text: string, query: string, at: seq<nat>, span: nat, started: bool)
    requires query != [] && Embeds(query, text, at)
    ensures Scan(text, query, span, started).Some?
    decreases |text|
  {
    var span' := if started then span + 1 else span;
    assert at[0] < |text|;
    if text[0] != query[0] {
      assert forall i :: 0 <= i < |at| ==> at[0] <= at[i];
      var at' := seq(|at|, i requires 0 <= i < |at| => at[i] - 1);
      EmbeddingIsScanned(text[1..], query, at', span', started);
    } else if |query| > 1 {
      assert forall i :: 1 <= i < |at| ==> at[0] < at[i];
      var at' := seq(|at| - 1, i requires 0 <= i < |at| - 1 => at[i + 1] - 1);
      EmbeddingIsScanned(text[1..], query[1..], at', span', true);
    }
  }

  /** From three characters on, the greedy scorer finds a match exactly when there is one. */
  lemma {:induction false} FuzzyFindsSubsequences(text: string, query: string)
    requires |query| >= 3
    ensures SubsequenceScore(text, query) != 0 <==> IsSubsequence(query, text)
  {
    if Scan(text, query, 0, false).Some? {
      var at := ScanFindsEmbedding(text, query, 0, false);
    }
    if at: seq<nat> :| Embeds(query, text, at) {
      EmbeddingIsScanned(text, query, at, 0, false);
    }
  }

  lemma {:induction false} FuzzyBounds(text: string, query: string)
    ensures SubsequenceScore(text, query) == 0 || SubsequenceScore(text, query) >= 100
    ensures SubsequenceScore(text, query) <= 100 + 8 * |query| - Min(if |query| == 0 then 0 else |query| - 1, 80)
  {
    if |query| >= 3 && Scan(text, query, 0, false).Some? {
      var at := ScanFindsEmbedding(text, query, 0, false);
    }
  }

  function ClassRank(c: Class): nat {
    match c case Exact => 0 case Prefix => 1 case WordStart => 2 case NamePart => 3 case SearchPart => 4 case Fuzzy => 5
  }

  /** For queries of at most 91 characters a stronger class always outscores a weaker one. */
  lemma {:induction false} StrongerClassScoresHigher(query: string, a: Entry, b: Entry)
    requires |query| <= 91 && ClassRank(ClassOf(a, query)) < ClassRank(ClassOf(b, query))
    ensures Score(a, query) > Score(b, query)
  {
    FuzzyBounds(b.search, query);
  }

  function Repeat(c: char, n: nat): string {
    seq(n, i => c)
  }

  lemma {:induction false} ScanRepeats(n: nat, tail: string, span: nat, started: bool)
    requires n > 0
    ensures Scan(Repeat('a', n) + tail, Repeat('a', n + 1), span, started) == Scan(tail, "a", span + n - (if started then 0 else 1), true)
  {
    var text, query := Repeat('a', n) + tail, Repeat('a', n + 1);
    assert text[1..] == Repeat('a', n - 1) + tail && query[1..] == Repeat('a', n);
    if n == 1 {
      assert text[1..] == tail && query[1..] == "a";
    } else {
      ScanRepeats(n - 1, tail, if started then span + 1 else span, true);
    }
  }

  /** The bound is sharp: at every length from 92 on, some fuzzy match outscores a substring match. The
      two entries have a one-letter name and one keyword, so their search text is both, joined. */
  lemma {:induction false} LongerQueriesInvert(n: nat)
    requires n >= 92
    ensures
      var query := Repeat('a', n);
      var fuzzy := Entry("f", "x", "x" + " " + (Repeat('a', n - 1) + "ba"));
      var substring := Entry("s", "y", "y" + " " + query);
      && |query| == n && ClassOf(fuzzy, query) == Fuzzy && ClassOf(substring, query) == SearchPart
      && Score(fuzzy, query) > Score(substring, query)
  {
    var query := Repeat('a', n);
    FuzzyWitness(n);
    LetterName("y", query);
    AfterKeywordGap("y", query, query);
    assert query[..|query|] == query && StartsWith(query, query);
  }

  lemma {:induction false} FuzzyWitness(n: nat)
    requires n >= 92
    ensures
      var query := Repeat('a', n);
      var fuzzy := Entry("f", "x", "x" + " " + (Repeat('a', n - 1) + "ba"));
      ClassOf(fuzzy, query) == Fuzzy && Score(fuzzy, query) > 750
  {
    var query := Repeat('a', n);
    var text := Repeat('a', n - 1) + "ba";
    LetterName("x", query);
    ScanRepeats(n - 1, "ba", 0, false);
    assert "ba"[1..] == "a" && Scan("a", "a", n - 1, true) == Some(n);
    NotContained(n, text, query, 0);
    assert text[0..] == text;
    AfterKeywordGap("x", text, query);
  }

  lemma {:induction false} LetterName(name: string, query: string)
    requires |name| == 1 && !IsSeparator(name[0]) && |query| > 1
    ensures name != query && !StartsWith(name, query) && !WordPrefix(name, query) && !Contains(name, query)
  {
    assert name[1..] == "" && !Contains("", query);
    assert "" + [name[0]] == name && Words("", name) == [name];
    assert Words(name, "") == [name];
  }

  /** A leading one-letter name that is no part of the query does not change what is found after it. */
  lemma {:induction false} AfterKeywordGap(name: string, text: string, query: string)
    requires |name| == 1 && query != [] && query[0] != name[0] && query[0] != ' '
    ensures Contains(name + " " + text, query) <==> Contains(text, query)
    ensures Scan(name + " " + text, query, 0, false) == Scan(text, query, 0, false)
  {
    var whole := name + " " + text;
    assert whole[1..] == " " + text && whole[1..][1..] == text;
    assert !StartsWith(whole, query) && !StartsWith(whole[1..], query);
  }

  lemma {:induction false} NotContained(n: nat, text: string, query: string, i: nat)
    requires n > 1 && text == Repeat('a', n - 1) + "ba" && query == Repeat('a', n) && i <= |text|
    ensures !Contains(text[i..], query)
    decreases |text| - i
  {
    var rest := text[i..];
    if |rest| >= |query| {
      assert rest[..|query|][n - 1 - i] == 'b' != query[n - 1 - i];
    }
    if i < |text| {
      NotContained(n, text, query, i + 1);
      assert rest[1..] == text[i + 1..];
    }
  }

  const U32_LIMIT := 0x1_0000_0000

  function SaturatingU32(n: nat): nat {
    if n < U32_LIMIT then n else U32_LIMIT - 1
  }

  function Score32(matched: nat, span: nat): nat {
    var points := SaturatingU32(matched * 8);
    (100 + if points < Min(span, 80) then 0 else points - Min(span, 80)) % U32_LIMIT
  }

  lemma {:induction false} Score32IsExact(matched: nat, distance: nat)
    requires 8 * matched + 100 < U32_LIMIT
    ensures Score32(matched, SaturatingU32(distance)) ==
            100 + if 8 * matched < Min(distance, 80) then 0 else 8 * matched - Min(distance, 80)
  {
  }

  /** The scoring loop of `subsequence_score` in 32-bit arithmetic: exact for every query whose best
      score fits, half a billion characters and far more than a session's 4000 bytes. */
  method ScoreSubsequence(text: string, query: string) returns (score: nat)
    ensures 8 * |query| + 100 < U32_LIMIT ==> score == SubsequenceScore(text, query)
  {
    if |query| < 3 {
      return 0;
    }
    var next: nat, matched: nat, span: nat, started := 0, 0, 0, false;
    ghost var distance: nat := 0;
    for i := 0 to |text|
      invariant 0 <= next < |query|
      invariant (8 * |query| + 100 < U32_LIMIT ==> matched == next) && span == SaturatingU32(distance)
      invariant Scan(text, query, 0, false) == Scan(text[i..], query[next..], distance, started)
    {
      assert text[i..][1..] == text[i + 1..] && query[next..][1..] == query[next + 1..];
      if started {
        span, distance := SaturatingU32(span + 1), distance + 1;
      }
      if text[i] != query[next] {
        continue;
      }
      started := true;
      matched, next := if matched + 1 < U32_LIMIT then matched + 1 else 0, next + 1;
      if next == |query| {
        if 8 * |query| + 100 < U32_LIMIT {
          Score32IsExact(matched, distance);
        }
        return Score32(matched, span);
      }
    }
    return 0;
  }

  // ---------------------------------------------------------------- What the score means

  /** `query` stands in `text` at position `i`. */
  ghost predicate Occurs(query: string, text: string, i: nat) {
    i + |query| <= |text| && text[i..i + |query|] == query
  }

  lemma {:induction false} ContainsMeans(text: string, query: string)
    ensures Contains(text, query) <==> exists i: nat :: Occurs(query, text, i)
  {
    assert StartsWith(text, query) <==> Occurs(query, text, 0);
    if text != [] {
      ContainsMeans(text[1..], query);
      if i: nat :| Occurs(query, text[1..], i) {
        assert text[i + 1..i + 1 + |query|] == text[1..][i..i + |query|];
        assert Occurs(query, text, i + 1);
      }
      if i: nat :| Occurs(query, text, i) {
        if i > 0 {
          assert text[1..][i - 1..i - 1 + |query|] == text[i..i + |query|];
          assert Occurs(query, text[1..], i - 1);
        }
      }
    }
  }

  ghost predicate NoSeparator(s: string) {
    forall k :: 0 <= k < |s| ==> !IsSeparator(s[k])
  }

  /** Words end at white space, a hyphen or an underscore. */
  lemma {:induction false} SeparatorsExactly(c: char)
    ensures IsSeparator(c) <==>
      || c == '-' || c == '_'
      || c as int in {9, 10, 11, 12, 13, 32, 133, 160, 5760, 8192, 8193, 8194, 8195, 8196, 8197, 8198, 8199, 8200, 8201, 8202, 8232, 8233, 8239, 8287, 12288}
  {
  }

  /** A word of `text` begins at `i` and continues with the whole query. */
  ghost predicate WordBeginsAt(text: string, query: string, i: nat) {
    Occurs(query, text, i) && (i == 0 || IsSeparator(text[i - 1])) && NoSeparator(query)
  }

  ghost predicate SomeWordBegins(words: seq<string>, query: string) {
    exists j :: 0 <= j < |words| && StartsWith(words[j], query)
  }

  lemma {:induction false} WordsMean(text: string, word: string, query: string)
    requires NoSeparator(word)
    ensures SomeWordBegins(Words(text, word), query) <==> exists i: nat :: WordBeginsAt(word + text, query, i)
    decreases |text|
  {
    if text == [] {
      assert word + text == word;
      LastWord(word, query);
    } else if IsSeparator(text[0]) {
      WordsMean(text[1..], "", query);
      assert "" + text[1..] == text[1..];
      FirstWord(word, text, query);
    } else {
      WordsMean(text[1..], word + [text[0]], query);
      assert word + [text[0]] + text[1..] == word + text;
    }
  }

  lemma {:induction false} LastWord(word: string, query: string)
    requires NoSeparator(word)
    ensures SomeWordBegins([word], query) <==> exists i: nat :: WordBeginsAt(word, query, i)
  {
    if StartsWith(word, query) {
      assert Occurs(query, word, 0);
      assert forall k :: 0 <= k < |query| ==> query[k] == word[k];
      assert WordBeginsAt(word, query, 0);
      assert StartsWith([word][0], query);
    }
    if i: nat :| WordBeginsAt(word, query, i) {
      assert i == 0;
      assert StartsWith([word][0], query);
    }
  }

  lemma {:induction false} FirstWord(word: string, text: string, query: string)
    requires NoSeparator(word) && text != [] && IsSeparator(text[0])
    requires SomeWordBegins(Words(text[1..], ""), query) <==> exists i: nat :: WordBeginsAt(text[1..], query, i)
    ensures SomeWordBegins([word] + Words(text[1..], ""), query) <==> exists i: nat :: WordBeginsAt(word + text, query, i)
  {
    var rest := Words(text[1..], "");
    if j :| 0 <= j < |[word] + rest| && StartsWith(([word] + rest)[j], query) {
      if j == 0 {
        var whole := word + text;
        assert Occurs(query, whole, 0);
        assert forall k :: 0 <= k < |query| ==> query[k] == word[k];
        assert WordBeginsAt(whole, query, 0);
      } else {
        assert StartsWith(rest[j - 1], query);
        var i: nat :| WordBeginsAt(text[1..], query, i);
        LaterWord(word, text, query, i);
      }
    }
    if i: nat :| WordBeginsAt(word + text, query, i) {
      WordIsFound(word, text, query, i, rest);
    }
  }

  lemma {:induction false} WordIsFound(word: string, text: string, query: string, i: nat, rest: seq<string>)
    requires NoSeparator(word) && text != [] && IsSeparator(text[0]) && WordBeginsAt(word + text, query, i)
    requires (exists k: nat :: WordBeginsAt(text[1..], query, k)) ==> SomeWordBegins(rest, query)
    ensures SomeWordBegins([word] + rest, query)
  {
    var whole := word + text;
    if i == 0 {
      PrefixStaysInWord(word, text, query);
      assert whole[..|query|] == word[..|query|];
      assert StartsWith(([word] + rest)[0], query);
    } else {
      assert IsSeparator(whole[i - 1]) && forall k :: 0 <= k < |word| ==> whole[k] == word[k] && !IsSeparator(whole[k]);
      assert i > |word|;
      LaterWord(word, text, query, i - |word| - 1);
      var j :| 0 <= j < |rest| && StartsWith(rest[j], query);
      assert ([word] + rest)[j + 1] == rest[j];
    }
  }

  lemma {:induction false} PrefixStaysInWord(word: string, text: string, query: string)
    requires text != [] && IsSeparator(text[0]) && NoSeparator(query) && Occurs(query, word + text, 0)
    ensures |query| <= |word|
  {
    var whole := word + text;
    assert forall k :: 0 <= k < |query| ==> whole[k] == query[k] && !IsSeparator(whole[k]);
    assert whole[|word|] == text[0];
  }

  lemma {:induction false} LaterWord(word: string, text: string, query: string, i: nat)
    requires text != [] && IsSeparator(text[0])
    ensures WordBeginsAt(text[1..], query, i) <==> WordBeginsAt(word + text, query, |word| + 1 + i)
  {
    var whole, n := word + text, |word| + 1 + i;
    if i + |query| <= |text| - 1 {
      SliceOfWhole(word, text, i + 1, |query|);
      assert text[1..][i..i + |query|] == text[i + 1..i + 1 + |query|];
      assert whole[n - 1] == if i == 0 then text[0] else text[1..][i - 1];
    }
  }

  lemma {:induction false} SliceOfWhole(word: string, text: string, i: nat, n: nat)
    requires i + n <= |text|
    ensures (word + text)[|word| + i..|word| + i + n] == text[i..i + n]
  {
  }

  lemma {:induction false} WordPrefixMeans(text: string, query: string)
    ensures WordPrefix(text, query) <==> exists i: nat :: WordBeginsAt(text, query, i)
  {
    WordsMean(text, "", query);
    assert "" + text == text;
  }

  /** The score of every entry: by the strongest way in which it matches. */
  lemma {:induction false} ScoreExactly(entry: Entry, query: string)
    ensures Score(entry, query) ==
            if entry.name == query then 10000
            else if Occurs(query, entry.name, 0) then 5000
            else if exists i: nat :: WordBeginsAt(entry.name, query, i) then 3000
            else if exists i: nat :: Occurs(query, entry.name, i) then 1500
            else if exists i: nat :: Occurs(query, entry.search, i) then 750
            else SubsequenceScore(entry.search, query)
  {
    ContainsMeans(entry.name, query);
    ContainsMeans(entry.search, query);
    WordPrefixMeans(entry.name, query);
    assert StartsWith(entry.name, query) <==> Occurs(query, entry.name, 0);
  }

  ghost predicate Misses(text: string, from: nat, to: nat, c: char) {
    forall m :: from <= m < to && m < |text| ==> text[m] != c
  }

  function SearchStart(at: seq<nat>, k: nat): nat
    requires k < |at|
  {
    if k == 0 then 0 else at[k - 1] + 1
  }

  /** Each character of the query is matched at its first occurrence after the previous one. */
  ghost predicate Greedy(query: string, text: string, at: seq<nat>) {
    Embeds(query, text, at) && forall k :: 0 <= k < |at| ==> Misses(text, SearchStart(at, k), at[k], query[k])
  }

  lemma {:induction false} MissesShift(text: string, from: nat, to: nat, c: char)
    requires text != [] && Misses(text[1..], from, to, c)
    ensures Misses(text, from + 1, to + 1, c)
    ensures text[0] != c && from == 0 ==> Misses(text, 0, to + 1, c)
  {
    forall m | 0 < m < |text| ensures text[m] == text[1..][m - 1] {
    }
  }

  /** Every position one further. */
  function Shifted(at: seq<nat>): (r: seq<nat>)
    ensures |r| == |at| && forall i :: 0 <= i < |at| ==> r[i] == at[i] + 1
  {
    seq(|at|, i requires 0 <= i < |at| => at[i] + 1)
  }

  /** The first character of the text is not the one looked for. */
  lemma {:induction false} GreedySkips(text: string, query: string, rest: seq<nat>)
    requires text != [] && query != [] && text[0] != query[0] && Greedy(query, text[1..], rest)
    ensures Greedy(query, text, Shifted(rest))
  {
    EmbedsSkips(text, query, rest, Shifted(rest));
    forall k | 0 <= k < |rest| ensures Misses(text, SearchStart(Shifted(rest), k), Shifted(rest)[k], query[k]) {
      MissesSkips(text, query, rest, k);
    }
  }

  lemma {:induction false} MissesSkips(text: string, query: string, rest: seq<nat>, k: nat)
    requires text != [] && query != [] && text[0] != query[0] && k < |rest| == |query|
    requires Misses(text[1..], SearchStart(rest, k), rest[k], query[k])
    ensures Misses(text, SearchStart(Shifted(rest), k), Shifted(rest)[k], query[k])
  {
    MissesShift(text, SearchStart(rest, k), rest[k], query[k]);
  }

  lemma {:induction false} EmbedsSkips(text: string, query: string, rest: seq<nat>, at: seq<nat>)
    requires text != [] && Embeds(query, text[1..], rest) && |at| == |rest| && forall i :: 0 <= i < |at| ==> at[i] == rest[i] + 1
    ensures Embeds(query, text, at)
  {
    forall i | 0 <= i < |at| ensures at[i] < |text| && text[at[i]] == query[i] {
      assert text[1..][rest[i]] == query[i];
    }
  }

  /** The first character of the text is the one looked for. */
  lemma {:induction false} GreedyTakes(text: string, query: string, rest: seq<nat>)
    requires text != [] && |query| > 1 && text[0] == query[0] && Greedy(query[1..], text[1..], rest)
    ensures Greedy(query, text, [0] + Shifted(rest))
  {
    EmbedsTakes(text, query, rest, [0] + Shifted(rest));
    forall k | 0 < k <= |rest| ensures Misses(text, SearchStart([0] + Shifted(rest), k), ([0] + Shifted(rest))[k], query[k]) {
      MissesTakes(text, query, rest, k);
    }
  }

  lemma {:induction false} MissesTakes(text: string, query: string, rest: seq<nat>, k: nat)
    requires text != [] && 0 < k <= |rest| && |query| == |rest| + 1
    requires Misses(text[1..], SearchStart(rest, k - 1), rest[k - 1], query[1..][k - 1])
    ensures Misses(text, SearchStart([0] + Shifted(rest), k), ([0] + Shifted(rest))[k], query[k])
  {
    MissesShift(text, SearchStart(rest, k - 1), rest[k - 1], query[k]);
  }

  lemma {:induction false} EmbedsTakes(text: string, query: string, rest: seq<nat>, at: seq<nat>)
    requires text != [] && |query| > 1 && text[0] == query[0] && Embeds(query[1..], text[1..], rest)
    requires |at| == |rest| + 1 && at[0] == 0 && forall i :: 0 < i < |at| ==> at[i] == rest[i - 1] + 1
    ensures Embeds(query, text, at)
  {
    forall i | 0 <= i < |at| ensures at[i] < |text| && text[at[i]] == query[i] {
      if i > 0 {
        assert text[1..][rest[i - 1]] == query[1..][i - 1];
      }
    }
  }

  /** `value` is the distance that the scan reports for these positions. */
  ghost predicate IsSpan(value: nat, span: nat, started: bool, at: seq<nat>)
    requires at != []
  {
    if started then value == span + at[|at| - 1] + 1 else value == span + at[|at| - 1] - at[0]
  }

  lemma {:induction false} SpanShifts(value: nat, span: nat, started: bool, rest: seq<nat>)
    requires rest != []
    ensures
      var span' := if started then span + 1 else span;
      && (IsSpan(value, span', started, rest) ==> IsSpan(value, span, started, Shifted(rest)))
      && (IsSpan(value, span', true, rest) ==> IsSpan(value, span, started, [0] + Shifted(rest)))
  {
  }

  lemma {:induction false} GreedyOne(text: string, query: string)
    requires text != [] && |query| == 1 && text[0] == query[0]
    ensures Greedy(query, text, [0])
  {
  }

  lemma {:induction false} ScanIsGreedy(text: string, query: string, span: nat, started: bool) returns (at: seq<nat>)
    requires query != [] && Scan(text, query, span, started).Some?
    ensures Greedy(query, text, at) && at != [] && IsSpan(Scan(text, query, span, started).value, span, started, at)
    decreases |text|
  {
    if text[0] != query[0] {
      var rest := ScanIsGreedy(text[1..], query, if started then span + 1 else span, started);
      GreedySkips(text, query, rest);
      SpanShifts(Scan(text, query, span, started).value, span, started, rest);
      at := Shifted(rest);
    } else if |query| == 1 {
      GreedyOne(text, query);
      at := [0];
    } else {
      var rest := ScanIsGreedy(text[1..], query[1..], if started then span + 1 else span, true);
      GreedyTakes(text, query, rest);
      SpanShifts(Scan(text, query, span, started).value, span, started, rest);
      at := [0] + Shifted(rest);
    }
  }

  /** A fuzzy match scores 100, plus eight for every character of the query, less the distance between its
      first and last greedily matched character, counted up to 80. */
  lemma {:induction false} FuzzyScoreExactly(text: string, query: string) returns (at: seq<nat>)
    requires |query| >= 3 && SubsequenceScore(text, query) != 0
    ensures Greedy(query, text, at)
    ensures
      var distance := at[|at| - 1] - at[0];
      var gained := 8 * |query| - (if distance < 80 then distance else 80);
      SubsequenceScore(text, query) == 100 + if gained < 0 then 0 else gained
  {
    at := ScanIsGreedy(text, query, 0, false);
  }
}
