/** Read-time estimation: each pattern in turn counts its matches, weighs
    them into a duration, and has them deleted before the next pattern runs. */
module ReadTime {
  import opened Wrappers
  import opened Text
  import opened BlogTime
  import opened Pattern
  import RootUtil

  const WORDS_PER_MINUTE := 275

  /** Seconds per occurrence, per non-empty line and per word. */
  datatype Impact = Impact(perOccurrence: real, perLine: real, perWord: real)

  /** `Pattern`: a regex with the singular and plural name of what it matches. */
  datatype Description = Description(regex: Regex, singular: string, plural: string)

  /** `Pattern.label(count)`. */
  function Label(d: Description, count: int): (r: string)
    ensures r == d.singular || r == d.plural
    ensures d.singular != d.plural ==> (r == d.plural <==> count > 1)
  {
    if count > 1 then d.plural else d.singular
  }

  const IMAGE_DESCRIPTION := Description(IMAGE, "Image", "Images")
  const CAPTION_DESCRIPTION := Description(CAPTION, "Caption", "Captions")
  const DEFAULT_DESCRIPTION := Description(DEFAULT, "Text", "Text")

  /** Seconds per word at 275 words a minute. */
  const PER_WORD: real := 1.0 / (WORDS_PER_MINUTE as real / 60.0)

  /** `IMPACT`, in its insertion order. */
  const IMPACT: seq<(Description, Impact)> := [
    (IMAGE_DESCRIPTION, Impact(8.0, 0.0, 0.0)),
    (CAPTION_DESCRIPTION, Impact(3.0, 0.0, 0.0)),
    (DEFAULT_DESCRIPTION, Impact(0.0, 0.0, PER_WORD))]

  /** A word weighs 60/275 = 12/55 of a second. */
  lemma PerWordValue()
    ensures PER_WORD == 12.0 / 55.0
  {
  }

  /** `Hint`: tags whose content is left out of the estimate. */
  datatype Hint = Hint(ignoredTags: seq<string>)

  /** Matches, non-empty lines and words a pattern found. */
  datatype Tally = Tally(count: nat, lines: nat, words: nat)

  /** The non-empty `"\n"`-separated pieces of a match. */
  function LinesOf(piece: string): nat {
    NonEmptyCount(Split(piece, '\n'))
  }

  /** The `" "`-separated pieces of a match: never fewer than one. */
  function WordsOf(piece: string): (n: nat)
    ensures n >= 1 && n == Count(piece, ' ') + 1
  {
    |Split(piece, ' ')|
  }

  /** The tally of the matches at `spans` of `text`, one match after another. */
  function TallyOf(text: string, spans: seq<(int, int)>): (t: Tally)
    ensures t.count == |spans| && t.words >= t.count
  {
    if spans == [] then Tally(0, 0, 0)
    else
      var prev := TallyOf(text, spans[..|spans| - 1]);
      var piece := RootUtil.IndexRangeFromPair(text, spans[|spans| - 1]);
      Tally(prev.count + 1, prev.lines + LinesOf(piece), prev.words + WordsOf(piece))
  }

  /** `weight * n`, as `n` additions of `weight`. */
  function Scale(weight: real, n: nat): real {
    if n == 0 then 0.0 else Scale(weight, n - 1) + weight
  }

  lemma {:induction false} ScaleIsProduct(weight: real, n: nat)
    ensures Scale(weight, n) == weight * n as real
  {
    if n > 0 {
      ScaleIsProduct(weight, n - 1);
    }
  }

  /** The seconds a tally weighs. */
  function Seconds(impact: Impact, t: Tally): real {
    Scale(impact.perOccurrence, t.count) + Scale(impact.perLine, t.lines) + Scale(impact.perWord, t.words)
  }

  /** A tally weighs its count, lines and words times the per-occurrence,
      per-line and per-word weights. */
  lemma SecondsValue(impact: Impact, t: Tally)
    ensures Seconds(impact, t)
            == impact.perOccurrence * t.count as real + impact.perLine * t.lines as real + impact.perWord * t.words as real
  {
    ScaleIsProduct(impact.perOccurrence, t.count);
    ScaleIsProduct(impact.perLine, t.lines);
    ScaleIsProduct(impact.perWord, t.words);
  }

  /** Index `i` lies inside one of `spans`. */
  predicate Covered(spans: seq<(int, int)>, i: int) {
    exists k | 0 <= k < |spans| :: spans[k].0 <= i < spans[k].1
  }

  /** `regex.sub("", text)` for the matches at `spans`: the characters at
      uncovered indices, in order. */
  function DeleteSpans(text: string, spans: seq<(int, int)>): (r: string)
    ensures |r| <= |text|
  {
    if text == [] then []
    else DeleteSpans(text[..|text| - 1], spans) + (if Covered(spans, |text| - 1) then [] else [text[|text| - 1]])
  }

  /** A list of matches as a regex engine returns it: in range, in order,
      not overlapping. */
  predicate WellFormed(spans: seq<(int, int)>, n: nat) {
    Ordered(spans) && forall k :: 0 <= k < |spans| ==> spans[k].1 <= n
  }

  /** Each span is non-negative and ends no later than the next one starts. */
  predicate Ordered(spans: seq<(int, int)>) {
    (forall k :: 0 <= k < |spans| ==> 0 <= spans[k].0 <= spans[k].1)
    && (forall k :: 0 < k < |spans| ==> spans[k - 1].1 <= spans[k].0)
  }

  /** The total length of the matches. */
  function MatchedLength(spans: seq<(int, int)>): int {
    if spans == [] then 0 else MatchedLength(spans[..|spans| - 1]) + spans[|spans| - 1].1 - spans[|spans| - 1].0
  }

  /** How many of the first `n` indices are covered. */
  function CoveredBelow(spans: seq<(int, int)>, n: nat): nat {
    if n == 0 then 0 else CoveredBelow(spans, n - 1) + (if Covered(spans, n - 1) then 1 else 0)
  }

  lemma {:induction false} DeleteSpansLength(text: string, spans: seq<(int, int)>)
    ensures |DeleteSpans(text, spans)| == |text| - CoveredBelow(spans, |text|)
  {
    if text != [] {
      DeleteSpansLength(text[..|text| - 1], spans);
    }
  }

  /** Below the start of the last span only the earlier spans cover anything. */
  lemma {:induction false} CoveredBelowDropLast(spans: seq<(int, int)>, n: nat)
    requires spans != [] && n <= spans[|spans| - 1].0
    ensures CoveredBelow(spans, n) == CoveredBelow(spans[..|spans| - 1], n)
  {
    if n > 0 {
      CoveredBelowDropLast(spans, n - 1);
      var front := spans[..|spans| - 1];
      assert Covered(spans, n - 1) == Covered(front, n - 1) by {
        if Covered(spans, n - 1) {
          var k :| 0 <= k < |spans| && spans[k].0 <= n - 1 < spans[k].1;
          assert k < |spans| - 1 && front[k] == spans[k];
        }
        if Covered(front, n - 1) {
          var k :| 0 <= k < |front| && front[k].0 <= n - 1 < front[k].1;
          assert spans[k] == front[k];
        }
      }
    }
  }

  /** Between the start of the last span and `n`, an index is covered iff it
      lies in the last span, when the earlier spans end before it starts. */
  lemma {:induction false} CoveredBelowLast(spans: seq<(int, int)>, n: nat)
    requires spans != [] && Ordered(spans) && spans[|spans| - 1].0 <= n
    ensures var last := spans[|spans| - 1];
            CoveredBelow(spans, n) == CoveredBelow(spans, last.0) + (if n < last.1 then n - last.0 else last.1 - last.0)
  {
    var last := spans[|spans| - 1];
    if n > last.0 {
      CoveredBelowLast(spans, n - 1);
      assert Covered(spans, n - 1) <==> n - 1 < last.1 by {
        if n - 1 < last.1 {
          assert last.0 <= n - 1 < last.1;
        }
        if Covered(spans, n - 1) && n - 1 >= last.1 {
          var k :| 0 <= k < |spans| && spans[k].0 <= n - 1 < spans[k].1;
          EndsBeforeLast(spans, k);
        }
      }
    }
  }

  /** In a well-formed list every span ends no later than the last one starts,
      except the last itself. */
  lemma {:induction false} EndsBeforeLast(spans: seq<(int, int)>, k: nat)
    requires spans != [] && Ordered(spans) && k < |spans| - 1
    ensures spans[k].1 <= spans[|spans| - 1].0
    decreases |spans| - k
  {
    if k < |spans| - 2 {
      EndsBeforeLast(spans, k + 1);
    }
  }

  /** Deleting well-formed matches removes exactly their characters: what is
      counted plus what is left for the next pattern is the whole text. */
  lemma {:induction false} DeleteConserves(text: string, spans: seq<(int, int)>)
    requires WellFormed(spans, |text|)
    ensures |DeleteSpans(text, spans)| + MatchedLength(spans) == |text|
  {
    DeleteSpansLength(text, spans);
    CoveredBelowMatched(spans, |text|);
  }

  lemma {:induction false} CoveredBelowMatched(spans: seq<(int, int)>, n: nat)
    requires WellFormed(spans, n)
    ensures CoveredBelow(spans, n) == MatchedLength(spans)
    decreases |spans|
  {
    if spans == [] {
      CoveredBelowNone(n);
    } else {
      var last := spans[|spans| - 1];
      var front := spans[..|spans| - 1];
      CoveredBelowLast(spans, n);
      CoveredBelowDropLast(spans, last.0);
      assert WellFormed(front, last.0) by {
        forall k | 0 <= k < |front| ensures front[k].1 <= last.0 {
          EndsBeforeLast(spans, k);
        }
      }
      CoveredBelowMatched(front, last.0);
    }
  }

  lemma {:induction false} CoveredBelowNone(n: nat)
    ensures CoveredBelow([], n) == 0
  {
    if n > 0 {
      CoveredBelowNone(n - 1);
    }
  }

  /** With no matches the text is left as it was. */
  lemma {:induction false} DeleteNothing(text: string)
    ensures DeleteSpans(text, []) == text
  {
    if text != [] {
      DeleteNothing(text[..|text| - 1]);
    }
  }

  /** `BreakdownEntry`: how many matches, and the time they weigh. */
  datatype Entry = Entry(count: nat, time: Time)

  /** The counting side of some passes: each pattern's tally, and the
      working text they leave. */
  datatype Counted = Counted(tallies: seq<Tally>, rest: string)

  /** The passes of `table` in order: each tallies its pattern's matches in
      the working text, then has them deleted. */
  function Passes(table: seq<(Regex, Impact)>, text: string, finditer: (Regex, string) -> seq<(int, int)>): (c: Counted)
    ensures |c.tallies| == |table|
    decreases |table|
  {
    if table == [] then Counted([], text)
    else
      var prev := Passes(table[..|table| - 1], text, finditer);
      var spans := finditer(table[|table| - 1].0, prev.rest);
      Counted(prev.tallies + [TallyOf(prev.rest, spans)], DeleteSpans(prev.rest, spans))
  }

  /** The tallies of a prefix of the passes are a prefix of the tallies. */
  lemma {:induction false} PassesPrefix(table: seq<(Regex, Impact)>, text: string, finditer: (Regex, string) -> seq<(int, int)>, k: nat)
    requires k <= |table|
    ensures Passes(table[..k], text, finditer).tallies == Passes(table, text, finditer).tallies[..k]
    decreases |table|
  {
    if k < |table| {
      var front := table[..|table| - 1];
      assert front[..k] == table[..k];
      PassesPrefix(front, text, finditer, k);
    } else {
      assert table[..k] == table;
    }
  }

  /** The `i`-th tally counts pattern `i`'s matches in the text the earlier
      passes left; pass `i + 1` sees that text with those matches deleted. */
  lemma PassesEntry(table: seq<(Regex, Impact)>, text: string, finditer: (Regex, string) -> seq<(int, int)>, i: nat)
    requires i < |table|
    ensures var before := Passes(table[..i], text, finditer).rest;
            var spans := finditer(table[i].0, before);
            && Passes(table, text, finditer).tallies[i] == TallyOf(before, spans)
            && Passes(table[..i + 1], text, finditer).rest == DeleteSpans(before, spans)
  {
    var upto := table[..i + 1];
    assert upto[..|upto| - 1] == table[..i] && upto[|upto| - 1] == table[i];
    var prev := Passes(table[..i], text, finditer);
    var spans := finditer(table[i].0, prev.rest);
    var up := Passes(upto, text, finditer);
    assert up == Counted(prev.tallies + [TallyOf(prev.rest, spans)], DeleteSpans(prev.rest, spans));
    PassesPrefix(table, text, finditer, i + 1);
    assert up.tallies[i] == TallyOf(prev.rest, spans);
  }

  /** The weighing side of some passes: each entry, and the running total. */
  datatype Weighed = Weighed(entries: seq<Entry>, overall: Time)

  /** Each tally weighed into a time with its pattern's impact, and the times
      added up from zero; the first `ValueError` stops everything. */
  function Weigh(table: seq<(Regex, Impact)>, tallies: seq<Tally>): Result<Weighed, TimeError>
    requires |tallies| == |table|
    decreases |table|
  {
    if table == [] then Ok(Weighed([], ZERO))
    else
      var n := |table| - 1;
      match Weigh(table[..n], tallies[..n])
      case Err(e) => Err(e)
      case Ok(prev) =>
        match FromSeconds(FloatNum(Seconds(table[n].1, tallies[n])))
        case Err(e) => Err(e)
        case Ok(t) =>
          match Add(prev.overall, t)
          case Err(e) => Err(e)
          case Ok(o) => Ok(Weighed(prev.entries + [Entry(tallies[n].count, t)], o))
  }

  /** Once a prefix fails to weigh, the whole weighing fails the same way. */
  lemma {:induction false} WeighErrSticky(table: seq<(Regex, Impact)>, tallies: seq<Tally>, k: nat)
    requires |tallies| == |table| && k <= |table| && Weigh(table[..k], tallies[..k]).Err?
    ensures Weigh(table, tallies) == Weigh(table[..k], tallies[..k])
    decreases |table| - k
  {
    if k < |table| {
      assert table[..k + 1][..k] == table[..k] && tallies[..k + 1][..k] == tallies[..k];
      WeighErrSticky(table, tallies, k + 1);
    } else {
      assert table[..k] == table && tallies[..k] == tallies;
    }
  }

  /** One more weighed pass appends one entry: the last tally's count and
      its weighed time. */
  lemma WeighLast(table: seq<(Regex, Impact)>, tallies: seq<Tally>)
    requires |tallies| == |table| && table != [] && Weigh(table, tallies).Ok?
    ensures var n := |table| - 1;
            && Weigh(table[..n], tallies[..n]).Ok?
            && FromSeconds(FloatNum(Seconds(table[n].1, tallies[n]))).Ok?
            && Add(Weigh(table[..n], tallies[..n]).value.overall,
                   FromSeconds(FloatNum(Seconds(table[n].1, tallies[n]))).value)
               == Ok(Weigh(table, tallies).value.overall)
            && Weigh(table, tallies).value.entries
               == Weigh(table[..n], tallies[..n]).value.entries
                  + [Entry(tallies[n].count, FromSeconds(FloatNum(Seconds(table[n].1, tallies[n]))).value)]
  {
  }

  /** Adding one pass's time to a valid total keeps it valid and exact. */
  lemma StepSum(overall: Time, x: real)
    requires Valid(overall) && FromSeconds(FloatNum(x)).Ok? && Add(overall, FromSeconds(FloatNum(x)).value).Ok?
    ensures var t := FromSeconds(FloatNum(x)).value;
            && Valid(t) && Valid(Add(overall, t).value)
            && Micros(Add(overall, t).value) == Micros(overall) + Micros(t)
  {
    FromSecondsFloat(x);
    AddExact(overall, FromSeconds(FloatNum(x)).value);
  }

  /** A successful weighing has one entry per pattern, each entry and the
      total are valid times, and the total is the exact sum of the entries. */
  lemma {:induction false} WeighSums(table: seq<(Regex, Impact)>, tallies: seq<Tally>)
    requires |tallies| == |table| && Weigh(table, tallies).Ok?
    ensures var w := Weigh(table, tallies).value;
            |w.entries| == |table| && Valid(w.overall)
            && (forall i :: 0 <= i < |w.entries| ==> Valid(w.entries[i].time))
            && Micros(w.overall) == SumMicros(w.entries)
  {
    if table != [] {
      var n := |table| - 1;
      WeighLast(table, tallies);
      WeighSums(table[..n], tallies[..n]);
      StepSum(Weigh(table[..n], tallies[..n]).value.overall, Seconds(table[n].1, tallies[n]));
      AppendEntry(Weigh(table[..n], tallies[..n]).value, Weigh(table, tallies).value);
    }
  }

  /** The bookkeeping of one appended entry. */
  lemma AppendEntry(prev: Weighed, now: Weighed)
    requires |now.entries| == |prev.entries| + 1 && now.entries[..|prev.entries|] == prev.entries
    requires forall i :: 0 <= i < |prev.entries| ==> Valid(prev.entries[i].time)
    requires Valid(now.entries[|prev.entries|].time)
    requires Micros(prev.overall) == SumMicros(prev.entries)
    requires Micros(now.overall) == Micros(prev.overall) + Micros(now.entries[|prev.entries|].time)
    ensures forall i :: 0 <= i < |now.entries| ==> Valid(now.entries[i].time)
    ensures Micros(now.overall) == SumMicros(now.entries)
  {
    var e := now.entries[|prev.entries|];
    assert now.entries == prev.entries + [e];
    SumMicrosAppend(prev.entries, e);
    forall i | 0 <= i < |now.entries| ensures Valid(now.entries[i].time) {
      if i < |prev.entries| {
        assert now.entries[i] == prev.entries[i];
      }
    }
  }

  /** The total length of the entries' times in microseconds. */
  function SumMicros(entries: seq<Entry>): int {
    if entries == [] then 0 else SumMicros(entries[..|entries| - 1]) + Micros(entries[|entries| - 1].time)
  }

  lemma SumMicrosAppend(entries: seq<Entry>, e: Entry)
    ensures SumMicros(entries + [e]) == SumMicros(entries) + Micros(e.time)
  {
    assert (entries + [e])[..|entries|] == entries;
  }

  /** The total of four entries, written out. */
  lemma SumMicrosFour(e: seq<Entry>)
    requires |e| == 4
    ensures SumMicros(e) == Micros(e[0].time) + Micros(e[1].time) + Micros(e[2].time) + Micros(e[3].time)
  {
    assert e == e[..3] + [e[3]];
    SumMicrosAppend(e[..3], e[3]);
    assert e[..3] == e[..2] + [e[2]];
    SumMicrosAppend(e[..2], e[2]);
    assert e[..2] == e[..1] + [e[1]];
    SumMicrosAppend(e[..1], e[1]);
    assert e[..1] == [] + [e[0]];
    SumMicrosAppend([], e[0]);
  }

  /** Every prefix of a successful weighing succeeds, with a prefix of its entries. */
  lemma {:induction false} WeighPrefix(table: seq<(Regex, Impact)>, tallies: seq<Tally>, k: nat)
    requires |tallies| == |table| && Weigh(table, tallies).Ok? && k <= |table|
    ensures Weigh(table[..k], tallies[..k]).Ok?
    ensures var e := Weigh(table, tallies).value.entries;
            k <= |e| && Weigh(table[..k], tallies[..k]).value.entries == e[..k]
    decreases |table|
  {
    if k == |table| {
      assert table[..k] == table && tallies[..k] == tallies;
      WeighSums(table, tallies);
    } else {
      var n := |table| - 1;
      WeighLast(table, tallies);
      assert table[..n][..k] == table[..k] && tallies[..n][..k] == tallies[..k];
      WeighPrefix(table[..n], tallies[..n], k);
    }
  }

  /** The `i`-th entry is the `i`-th tally's count and its weighed time. */
  lemma WeighEntry(table: seq<(Regex, Impact)>, tallies: seq<Tally>, i: nat)
    requires |tallies| == |table| && Weigh(table, tallies).Ok? && i < |table|
    ensures FromSeconds(FloatNum(Seconds(table[i].1, tallies[i]))).Ok?
    ensures var e := Weigh(table, tallies).value.entries;
            i < |e| && e[i] == Entry(tallies[i].count, FromSeconds(FloatNum(Seconds(table[i].1, tallies[i]))).value)
  {
    var t := table[..i + 1];
    var u := tallies[..i + 1];
    assert t[..i] == table[..i] && u[..i] == tallies[..i] && t[i] == table[i] && u[i] == tallies[i];
    WeighPrefix(table, tallies, i + 1);
    WeighPrefix(table, tallies, i);
    WeighLast(t, u);
    var e := Weigh(table, tallies).value.entries;
    var front := Weigh(table[..i], tallies[..i]).value.entries;
    var whole := Weigh(t, u).value.entries;
    assert front == e[..i] && whole == e[..i + 1];
    assert whole == front + [Entry(tallies[i].count, FromSeconds(FloatNum(Seconds(table[i].1, tallies[i]))).value)];
    assert e[i] == whole[i];
  }

  /** The outcome of the accumulation: the entries, the total, the words of
      the last pass, and the working text after all passes. */
  datatype Totals = Totals(entries: seq<Entry>, overall: Time, words: nat, rest: string)

  /** All passes of `table` from `text`, counted and then weighed. */
  function Run(table: seq<(Regex, Impact)>, text: string, finditer: (Regex, string) -> seq<(int, int)>): Result<Totals, TimeError> {
    var c := Passes(table, text, finditer);
    match Weigh(table, c.tallies)
    case Err(e) => Err(e)
    case Ok(w) => Ok(Totals(w.entries, w.overall, if table == [] then 0 else c.tallies[|table| - 1].words, c.rest))
  }

  /** A successful run has one valid entry per pattern and a valid total
      that is the exact sum of the entries. */
  lemma RunSums(table: seq<(Regex, Impact)>, text: string, finditer: (Regex, string) -> seq<(int, int)>)
    requires Run(table, text, finditer).Ok?
    ensures var t := Run(table, text, finditer).value;
            |t.entries| == |table| && Valid(t.overall)
            && (forall i :: 0 <= i < |t.entries| ==> Valid(t.entries[i].time))
            && Micros(t.overall) == SumMicros(t.entries)
  {
    WeighSums(table, Passes(table, text, finditer).tallies);
  }

  /** The `i`-th entry is the tally of pattern `i`'s matches in the text the
      earlier patterns left, weighed by its impact. */
  lemma RunEntry(table: seq<(Regex, Impact)>, text: string, finditer: (Regex, string) -> seq<(int, int)>, i: nat)
    requires Run(table, text, finditer).Ok? && i < |table|
    ensures var before := Passes(table[..i], text, finditer).rest;
            var spans := finditer(table[i].0, before);
            var tally := TallyOf(before, spans);
            var e := Run(table, text, finditer).value.entries;
            && FromSeconds(FloatNum(Seconds(table[i].1, tally))).Ok?
            && i < |e| && e[i] == Entry(|spans|, FromSeconds(FloatNum(Seconds(table[i].1, tally))).value)
  {
    PassesEntry(table, text, finditer, i);
    WeighEntry(table, Passes(table, text, finditer).tallies, i);
  }

  /** The inner loop of one pass: walk the matches, adding one to the count
      and each match's non-empty lines and words to the other tallies. */
  method TallyPass(text: string, spans: seq<(int, int)>) returns (t: Tally)
    ensures t == TallyOf(text, spans)
  {
    var count: nat, lines: nat, words: nat := 0, 0, 0;
    var j := 0;
    while j < |spans|
      invariant 0 <= j <= |spans|
      invariant TallyOf(text, spans[..j]) == Tally(count, lines, words)
    {
      assert spans[..j + 1][..j] == spans[..j];
      var piece := RootUtil.IndexRangeFromPair(text, spans[j]);
      count := count + 1;
      lines := lines + LinesOf(piece);
      words := words + WordsOf(piece);
      j := j + 1;
    }
    assert spans[..j] == spans;
    return Tally(count, lines, words);
  }

  /** A run whose first `k` passes fail to weigh fails with that error. */
  lemma RunErr(table: seq<(Regex, Impact)>, text: string, finditer: (Regex, string) -> seq<(int, int)>, k: nat)
    requires k <= |table|
    requires Weigh(table[..k], Passes(table[..k], text, finditer).tallies).Err?
    ensures Run(table, text, finditer) == Err(Weigh(table[..k], Passes(table[..k], text, finditer).tallies).error)
  {
    PassesPrefix(table, text, finditer, k);
    WeighErrSticky(table, Passes(table, text, finditer).tallies, k);
  }

  /** Weighing one more pass after a successful prefix. */
  lemma WeighNext(table: seq<(Regex, Impact)>, tallies: seq<Tally>, prev: Weighed)
    requires |tallies| == |table| && table != []
    requires Weigh(table[..|table| - 1], tallies[..|table| - 1]) == Ok(prev)
    ensures var n := |table| - 1;
            var time := FromSeconds(FloatNum(Seconds(table[n].1, tallies[n])));
            && (time.Err? ==> Weigh(table, tallies) == Err(time.error))
            && (time.Ok? && Add(prev.overall, time.value).Err? ==>
                  Weigh(table, tallies) == Err(Add(prev.overall, time.value).error))
            && (time.Ok? && Add(prev.overall, time.value).Ok? ==>
                  Weigh(table, tallies) == Ok(Weighed(prev.entries + [Entry(tallies[n].count, time.value)],
                                                      Add(prev.overall, time.value).value)))
  {
  }

  /** One more pattern is one more pass on the text the others left. */
  lemma PassesNext(table: seq<(Regex, Impact)>, text: string, finditer: (Regex, string) -> seq<(int, int)>, k: nat)
    requires k < |table|
    ensures var prev := Passes(table[..k], text, finditer);
            var spans := finditer(table[k].0, prev.rest);
            Passes(table[..k + 1], text, finditer) == Counted(prev.tallies + [TallyOf(prev.rest, spans)], DeleteSpans(prev.rest, spans))
  {
    assert table[..k + 1][..k] == table[..k];
  }

  /** One round of the accumulation loop: weighing the next pass either
      extends the weighed prefix or gives the error that ends the run. */
  lemma AccumulateStep(table: seq<(Regex, Impact)>, k: nat, tallies: seq<Tally>, prev: Weighed, tally: Tally)
    requires k < |table| && |tallies| == k
    requires Weigh(table[..k], tallies) == Ok(prev)
    ensures var time := FromSeconds(FloatNum(Seconds(table[k].1, tally)));
            && (time.Err? ==> Weigh(table[..k + 1], tallies + [tally]) == Err(time.error))
            && (time.Ok? && Add(prev.overall, time.value).Err? ==>
                  Weigh(table[..k + 1], tallies + [tally]) == Err(Add(prev.overall, time.value).error))
            && (time.Ok? && Add(prev.overall, time.value).Ok? ==>
                  Weigh(table[..k + 1], tallies + [tally])
                  == Ok(Weighed(prev.entries + [Entry(tally.count, time.value)], Add(prev.overall, time.value).value)))
  {
    var upto := table[..k + 1];
    var tallies' := tallies + [tally];
    assert upto[..k] == table[..k] && upto[k] == table[k];
    assert tallies'[..k] == tallies && tallies'[k] == tally;
    WeighNext(upto, tallies', prev);
  }

  /** The accumulation loop of `ReadTime.__init__` (and of the older
      `Post.read_time`): for each pattern, walk its matches adding to the
      count, line and word tallies, then store the entry, add its time to
      the total and delete the matches. */
  method Accumulate(table: seq<(Regex, Impact)>, text: string, finditer: (Regex, string) -> seq<(int, int)>)
    returns (r: Result<Totals, TimeError>)
    ensures r == Run(table, text, finditer)
  {
    var overall := ZERO;
    var entries: seq<Entry> := [];
    var words: nat := 0;
    var rest := text;
    ghost var tallies: seq<Tally> := [];
    var k := 0;
    while k < |table|
      invariant 0 <= k <= |table|
      invariant Passes(table[..k], text, finditer) == Counted(tallies, rest)
      invariant Weigh(table[..k], tallies) == Ok(Weighed(entries, overall))
      invariant words == if k == 0 then 0 else tallies[k - 1].words
    {
      var (regex, impact) := table[k];
      var spans := finditer(regex, rest);
      var tally := TallyPass(rest, spans);
      PassesNext(table, text, finditer, k);
      AccumulateStep(table, k, tallies, Weighed(entries, overall), tally);
      var time := FromSeconds(FloatNum(Seconds(impact, tally)));
      if time.Err? {
        RunErr(table, text, finditer, k + 1);
        return Err(time.error);
      }
      var sum := Add(overall, time.value);
      if sum.Err? {
        RunErr(table, text, finditer, k + 1);
        return Err(sum.error);
      }
      ghost var tallies' := tallies + [tally];
      entries := entries + [Entry(tally.count, time.value)];
      overall := sum.value;
      words := tally.words;
      rest := DeleteSpans(rest, spans);
      tallies := tallies';
      k := k + 1;
    }
    assert table[..k] == table;
    return Ok(Totals(entries, overall, words, rest));
  }

  /** The `(regex, impact)` rows of a table keyed by descriptions. */
  function Rows(table: seq<(Description, Impact)>): (r: seq<(Regex, Impact)>)
    ensures |r| == |table| && forall i :: 0 <= i < |table| ==> r[i] == (table[i].0.regex, table[i].1)
  {
    seq(|table|, i requires 0 <= i < |table| => (table[i].0.regex, table[i].1))
  }

  /** `ReadTime`: the total, the word count, and the breakdown keyed by pattern. */
  datatype ReadTime = ReadTime(overallTime: Time, wordCount: nat, timeBreakdown: seq<(Description, Entry)>)

  /** `ReadTime(post_content, hint)`: content inside the hinted tags is
      stripped (by `strip`), then the `IMPACT` patterns run; a pass or a
      total of a day or more raises `ValueError`. */
  function Of(postContent: string, hint: Hint, strip: (string, seq<string>) -> string,
              finditer: (Regex, string) -> seq<(int, int)>): Result<ReadTime, TimeError>
  {
    match Run(Rows(IMPACT), strip(postContent, hint.ignoredTags), finditer)
    case Err(e) => Err(e)
    case Ok(t) =>
      RunSums(Rows(IMPACT), strip(postContent, hint.ignoredTags), finditer);
      Ok(ReadTime(t.overall, t.words, seq(|IMPACT|, i requires 0 <= i < |IMPACT| => (IMPACT[i].0, t.entries[i]))))
  }

  /** The constructor of `ReadTime`, as a loop. */
  method New(postContent: string, hint: Hint, strip: (string, seq<string>) -> string,
             finditer: (Regex, string) -> seq<(int, int)>) returns (r: Result<ReadTime, TimeError>)
    ensures r == Of(postContent, hint, strip, finditer)
  {
    var stripped := strip(postContent, hint.ignoredTags);
    var totals := Accumulate(Rows(IMPACT), stripped, finditer);
    if totals.Err? {
      return Err(totals.error);
    }
    var t := totals.value;
    RunSums(Rows(IMPACT), stripped, finditer);
    var breakdown := seq(|IMPACT|, i requires 0 <= i < |IMPACT| => (IMPACT[i].0, t.entries[i]));
    return Ok(ReadTime(t.overall, t.words, breakdown));
  }

  /** A read time lists Image, Caption and Text in that order, and its total
      is a valid time, the exact sum of the three times. */
  lemma OfShape(postContent: string, hint: Hint, strip: (string, seq<string>) -> string,
                finditer: (Regex, string) -> seq<(int, int)>)
    requires Of(postContent, hint, strip, finditer).Ok?
    ensures var rt := Of(postContent, hint, strip, finditer).value;
            && |rt.timeBreakdown| == 3
            && rt.timeBreakdown[0].0 == IMAGE_DESCRIPTION
            && rt.timeBreakdown[1].0 == CAPTION_DESCRIPTION
            && rt.timeBreakdown[2].0 == DEFAULT_DESCRIPTION
            && Valid(rt.overallTime)
            && Micros(rt.overallTime) == Micros(rt.timeBreakdown[0].1.time) + Micros(rt.timeBreakdown[1].1.time)
                                         + Micros(rt.timeBreakdown[2].1.time)
  {
    var table := Rows(IMPACT);
    var text := strip(postContent, hint.ignoredTags);
    RunSums(table, text, finditer);
    var t := Run(table, text, finditer).value;
    var e := t.entries;
    assert e == e[..2] + [e[2]];
    SumMicrosAppend(e[..2], e[2]);
    assert e[..2] == e[..1] + [e[1]];
    SumMicrosAppend(e[..1], e[1]);
    assert e[..1] == [] + [e[0]];
    SumMicrosAppend([], e[0]);
  }

  /** The word count is the word tally of the last (Text) pattern, on the
      text the Image and Caption passes left. */
  lemma OfWordCount(postContent: string, hint: Hint, strip: (string, seq<string>) -> string,
                    finditer: (Regex, string) -> seq<(int, int)>)
    requires Of(postContent, hint, strip, finditer).Ok?
    ensures var rest := Passes(Rows(IMPACT)[..2], strip(postContent, hint.ignoredTags), finditer).rest;
            Of(postContent, hint, strip, finditer).value.wordCount == TallyOf(rest, finditer(DEFAULT, rest)).words
  {
    var table := Rows(IMPACT);
    var text := strip(postContent, hint.ignoredTags);
    PassesEntry(table, text, finditer, 2);
    assert table[2].0 == DEFAULT;
    assert |table| == 3;
  }

  /** `formatted_time_breakdown`: for every entry with a non-zero count, its
      label for that count and its formatted time. */
  function FormattedTimeBreakdown(breakdown: seq<(Description, Entry)>): (r: seq<(string, Option<string>)>)
    ensures |r| <= |breakdown|
  {
    if breakdown == [] then []
    else
      var (d, e) := breakdown[0];
      var tail := FormattedTimeBreakdown(breakdown[1..]);
      if e.count > 0 then [(if e.count <= 1 then d.singular else d.plural, Format(e.time, BLOG))] + tail else tail
  }

  /** The pair an entry is shown as: its label for the count and its
      formatted time. */
  function ShownPair(x: (Description, Entry)): (string, Option<string>) {
    (Label(x.0, x.1.count), Format(x.1.time, BLOG))
  }

  /** One more entry adds its pair after the others exactly when its count
      is not zero, so the pairs keep the order of the breakdown. */
  lemma {:induction false} FormattedAppend(breakdown: seq<(Description, Entry)>, x: (Description, Entry))
    ensures FormattedTimeBreakdown(breakdown + [x])
            == FormattedTimeBreakdown(breakdown) + (if x.1.count > 0 then [ShownPair(x)] else [])
  {
    if breakdown != [] {
      assert (breakdown + [x])[0] == breakdown[0];
      assert (breakdown + [x])[1..] == breakdown[1..] + [x];
      FormattedAppend(breakdown[1..], x);
    }
  }

  /** Every entry with a non-zero count yields its pair, and every pair comes
      from such an entry. */
  lemma {:induction false} FormattedMembers(breakdown: seq<(Description, Entry)>)
    ensures forall k :: k in FormattedTimeBreakdown(breakdown) <==>
              exists i :: 0 <= i < |breakdown| && breakdown[i].1.count > 0 && k == ShownPair(breakdown[i])
  {
    if breakdown != [] {
      var rest := breakdown[1..];
      FormattedMembers(rest);
      forall k ensures k in FormattedTimeBreakdown(breakdown) <==>
                       exists i :: 0 <= i < |breakdown| && breakdown[i].1.count > 0 && k == ShownPair(breakdown[i])
      {
        if exists i :: 0 <= i < |breakdown| && breakdown[i].1.count > 0 && k == ShownPair(breakdown[i]) {
          var i :| 0 <= i < |breakdown| && breakdown[i].1.count > 0 && k == ShownPair(breakdown[i]);
          if i > 0 {
            assert rest[i - 1] == breakdown[i];
          }
        }
        if k in FormattedTimeBreakdown(rest) {
          var i :| 0 <= i < |rest| && rest[i].1.count > 0 && k == ShownPair(rest[i]);
          assert breakdown[i + 1] == rest[i];
        }
      }
    }
  }
}
