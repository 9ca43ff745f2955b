/** Read time in the older single-module blog: four patterns instead of
    three (code blocks count too), run on the raw text, and a time format
    that fails on anything an hour or longer. */
module LegacyReadTime {
  import opened Wrappers
  import opened Text
  import opened BlogTime
  import opened Pattern
  import opened ReadTime

  const CODE_BLOCK_DESCRIPTION := Description(CODE_BLOCK, "Code Block", "Code Blocks")

  /** `READ_TIME_IMPACT` with the names of `READ_TIME_IMPACT_NAME`, in
      insertion order. */
  const LEGACY_IMPACT: seq<(Description, Impact)> := [
    (IMAGE_DESCRIPTION, Impact(8.0, 0.0, 0.0)),
    (CODE_BLOCK_DESCRIPTION, Impact(0.0, 3.0, 0.0)),
    (CAPTION_DESCRIPTION, Impact(3.0, 0.0, 0.0)),
    (DEFAULT_DESCRIPTION, Impact(0.0, 0.0, PER_WORD))]

  /** The `AttributeError` raised when `format_` reads `_time.hours`, an
      attribute `datetime.time` does not have. */
  datatype FormatError = AttributeError

  /** The older `Time.format_(BLOG)`: seconds under a minute, rounded
      minutes under an hour; the hour branch tests `hours`, not `hour`,
      and raises. */
  function Format(t: Time): (r: Result<string, FormatError>)
    ensures r.Err? <==> !(t.hour == 0 && t.minute >= 0)
  {
    if t.minute == 0 && t.hour == 0 then Ok(Quantity(t.second, "Second", "Seconds"))
    else if t.hour == 0 && t.minute > 0 then Ok(Quantity(RoundMinute(t.minute, t.second), "Minute", "Minutes"))
    else Err(AttributeError)
  }

  /** On valid times the older format fails exactly for an hour or more,
      and otherwise prints what the newer format prints; in particular its
      "Millennia" fallback is never reached. */
  lemma FormatAgrees(t: Time)
    requires Valid(t)
    ensures Format(t).Err? <==> t.hour > 0
    ensures t.hour == 0 ==> Format(t) == Ok(BlogTime.Format(t, BLOG).value)
    ensures Format(t) != Ok(MILLENNIA)
  {
    if t.hour == 0 {
      assert Format(t).value[0] == BlogTime.Format(t, BLOG).value[0];
      MillenniaOnlyOutOfRange(t);
    }
  }

  /** Why the breakdown could not be built. */
  datatype ReadTimeError = TimeOutOfRange | FormatFails

  /** The older `ReadTime`: the breakdown, the total, the word count, and
      their formatted forms. */
  datatype LegacyReadTime = LegacyReadTime(timeBreakdown: seq<(Description, Entry)>, overallTime: Time, wordCount: nat,
                                           prettyTimeBreakdown: seq<(string, string)>, prettyOverallTime: string)

  /** `pretty_time_breakdown`: for each entry with a non-zero count, its
      singular name when the count is at most one and its plural otherwise,
      and its formatted time; the first time that fails to format raises. */
  function Pretty(breakdown: seq<(Description, Entry)>): (r: Result<seq<(string, string)>, FormatError>)
    ensures r.Ok? <==> forall i :: 0 <= i < |breakdown| && breakdown[i].1.count != 0 ==> Format(breakdown[i].1.time).Ok?
  {
    if breakdown == [] then Ok([])
    else
      var (d, e) := breakdown[0];
      if e.count == 0 then Pretty(breakdown[1..])
      else
        match Format(e.time)
        case Err(err) => Err(err)
        case Ok(s) =>
          match Pretty(breakdown[1..])
          case Err(err) => Err(err)
          case Ok(tail) => Ok([(if e.count <= 1 then d.singular else d.plural, s)] + tail)
  }

  /** The formatted values of a breakdown the newer format shows. */
  function Values(shown: seq<(string, Option<string>)>): seq<(string, string)> {
    if shown == [] then []
    else [(shown[0].0, if shown[0].1.Some? then shown[0].1.value else "")] + Values(shown[1..])
  }

  /** When every shown time is under an hour, the older breakdown lists the
      same names and texts as the newer `formatted_time_breakdown`. */
  lemma {:induction false} PrettyMatchesShown(breakdown: seq<(Description, Entry)>)
    requires forall i :: 0 <= i < |breakdown| ==> Valid(breakdown[i].1.time) && breakdown[i].1.time.hour == 0
    ensures Pretty(breakdown) == Ok(Values(FormattedTimeBreakdown(breakdown)))
  {
    if breakdown != [] {
      var (d, e) := breakdown[0];
      PrettyMatchesShown(breakdown[1..]);
      FormatAgrees(e.time);
      if e.count != 0 {
        var head := (if e.count <= 1 then d.singular else d.plural, BlogTime.Format(e.time, BLOG));
        var shown := [head] + FormattedTimeBreakdown(breakdown[1..]);
        assert FormattedTimeBreakdown(breakdown) == shown;
        assert shown[1..] == FormattedTimeBreakdown(breakdown[1..]);
        assert Values(shown) == [(head.0, head.1.value)] + Values(FormattedTimeBreakdown(breakdown[1..]));
      }
    }
  }

  /** `ReadTime(*Post.read_time(content))`: the four passes on the raw
      text, then the formatted breakdown and total. */
  function New(content: string, finditer: (Regex, string) -> seq<(int, int)>): Result<LegacyReadTime, ReadTimeError> {
    match Run(Rows(LEGACY_IMPACT), content, finditer)
    case Err(_) => Err(TimeOutOfRange)
    case Ok(t) =>
      RunSums(Rows(LEGACY_IMPACT), content, finditer);
      var breakdown := seq(|LEGACY_IMPACT|, i requires 0 <= i < |LEGACY_IMPACT| => (LEGACY_IMPACT[i].0, t.entries[i]));
      match Pretty(breakdown)
      case Err(_) => Err(FormatFails)
      case Ok(pretty) =>
        match Format(t.overall)
        case Err(_) => Err(FormatFails)
        case Ok(overall) => Ok(LegacyReadTime(breakdown, t.overall, t.words, pretty, overall))
  }

  /** A valid entry's time is part of the total of the entries. */
  lemma {:induction false} EntryBelowSum(entries: seq<Entry>, i: nat)
    requires i < |entries| && forall k :: 0 <= k < |entries| ==> Valid(entries[k].time)
    ensures Micros(entries[i].time) <= SumMicros(entries)
  {
    var n := |entries| - 1;
    if i < n {
      EntryBelowSum(entries[..n], i);
    } else {
      SumNonNegative(entries[..n]);
    }
  }

  lemma {:induction false} SumNonNegative(entries: seq<Entry>)
    requires forall k :: 0 <= k < |entries| ==> Valid(entries[k].time)
    ensures SumMicros(entries) >= 0
  {
    if entries != [] {
      SumNonNegative(entries[..|entries| - 1]);
    }
  }

  /** A post whose read time is an hour or more cannot be built by the
      older blog: the read time is built exactly when the passes succeed
      and their total is under an hour. */
  lemma NewOkUnderAnHour(content: string, finditer: (Regex, string) -> seq<(int, int)>)
    ensures New(content, finditer).Ok? <==>
              Run(Rows(LEGACY_IMPACT), content, finditer).Ok? && Run(Rows(LEGACY_IMPACT), content, finditer).value.overall.hour == 0
  {
    var table := Rows(LEGACY_IMPACT);
    if Run(table, content, finditer).Ok? {
      RunSums(table, content, finditer);
      var t := Run(table, content, finditer).value;
      FormatAgrees(t.overall);
      var breakdown := seq(|LEGACY_IMPACT|, i requires 0 <= i < |LEGACY_IMPACT| => (LEGACY_IMPACT[i].0, t.entries[i]));
      if t.overall.hour == 0 {
        forall i | 0 <= i < |breakdown| ensures Format(breakdown[i].1.time).Ok? {
          EntryBelowSum(t.entries, i);
          FormatAgrees(t.entries[i].time);
        }
      }
    }
  }

  /** The older read time runs Image, Code Block, Caption and Text in that
      order, its total is the exact sum of the four times, and its word
      count is the words of the Text pass on what the other three left. */
  lemma NewShape(content: string, finditer: (Regex, string) -> seq<(int, int)>)
    requires New(content, finditer).Ok?
    ensures var rt := New(content, finditer).value;
            var rest := Passes(Rows(LEGACY_IMPACT)[..3], content, finditer).rest;
            && |rt.timeBreakdown| == 4
            && rt.timeBreakdown[0].0 == IMAGE_DESCRIPTION && rt.timeBreakdown[1].0 == CODE_BLOCK_DESCRIPTION
            && rt.timeBreakdown[2].0 == CAPTION_DESCRIPTION && rt.timeBreakdown[3].0 == DEFAULT_DESCRIPTION
            && Micros(rt.overallTime) == Micros(rt.timeBreakdown[0].1.time) + Micros(rt.timeBreakdown[1].1.time)
                                         + Micros(rt.timeBreakdown[2].1.time) + Micros(rt.timeBreakdown[3].1.time)
            && rt.wordCount == TallyOf(rest, finditer(DEFAULT, rest)).words
  {
    var table := Rows(LEGACY_IMPACT);
    RunSums(table, content, finditer);
    SumMicrosFour(Run(table, content, finditer).value.entries);
    PassesEntry(table, content, finditer, 3);
    assert table[3].0 == DEFAULT;
  }
}
