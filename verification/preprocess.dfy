/**
 * The batch part of the preprocessing script: turn the "place" cells into
 * values, then run three loops over the rows (locations, dates, text) that
 * each fill their own columns, and add the twelve columns to the table.
 * A location that cannot be parsed stops the run unless the place is an
 * integer; a date that cannot be parsed gives "N/A" in its five columns;
 * a text cell that is not a string stops the run.
 */
module Preprocess {
  import opened Outcomes
  import opened Seqs
  import opened Location
  import opened Dates
  import opened Normalize
  import opened Hashtags
  import opened PyStrings

  /** A cell of the hydrated-tweets table as pandas reads it: text, or missing (NaN). */
  datatype Cell = Str(s: string) | Missing

  /** The three cells of a tweet the script reads. */
  datatype Row = Row(createdAt: Cell, fullText: Cell, place: Cell)

  /**
   * What `pd.to_datetime` makes of one timestamp: a time, NaT (not a time,
   * which pandas gives for a missing value, and whose fields all read as
   * nan), or an exception.
   */
  datatype Conversion = Converted(stamp: Timestamp) | NotATime | Raised

  /**
   * What the script takes from libraries: the emoji table, the English
   * stop-word list, `ast.literal_eval` on a string (None when it raises) and
   * `pd.to_datetime` on a timestamp string.
   */
  datatype Env = Env(
    isEmoji: char -> bool,
    stopwords: set<string>,
    literalEval: string -> Option<Place>,
    toDatetime: string -> Conversion)

  /**
   * `try_literal_eval` on a "place" cell: the literal it denotes, or None
   * when `literal_eval` raises, which it does on a missing cell (a float).
   */
  function TryLiteralEval(literalEval: string -> Option<Place>, cell: Cell): (p: Place)
    ensures cell.Missing? ==> p == NoPlace
    ensures cell.Str? && literalEval(cell.s).None? ==> p == NoPlace
    ensures cell.Str? && literalEval(cell.s).Some? ==> p == literalEval(cell.s).value
  {
    match cell
    case Missing => NoPlace
    case Str(s) =>
      match literalEval(s)
      case None => NoPlace
      case Some(place) => place
  }

  /**
   * One pass of the location loop: the triple `parse_location` returns; on
   * an exception, "N/A" three times when the place is an `int`, and no
   * value (the loop raises) otherwise.
   */
  function LocationStep(place: Place): (r: Option<LocationFields>)
    ensures r.None? <==> ParseLocation(place).Err? && !place.IntPlace?
    ensures ParseLocation(place).Ok? ==> r == Some(ParseLocation(place).value)
    ensures place.IntPlace? ==> r == Some(NoLocation)
  {
    match ParseLocation(place)
    case Ok(fields) => Some(fields)
    case Err(_) => if place.IntPlace? then Some(NoLocation) else None
  }

  /**
   * The places that stop the run: a literal that is neither None, an int
   * nor a dictionary, a dictionary without "country_code", and a "US"
   * dictionary without "full_name".
   */
  lemma FatalPlaces(place: Place)
    ensures LocationStep(place).None? <==>
              || place.OtherPlace?
              || (place.DictPlace? && "country_code" !in place.entries)
              || (place.DictPlace? && "country_code" in place.entries
                  && place.entries["country_code"] == "US" && "full_name" !in place.entries)
  {
  }

  function LocationOf(env: Env, row: Row): Option<LocationFields>
  {
    LocationStep(TryLiteralEval(env.literalEval, row.place))
  }

  /** A numeric date field: an integer, or the float nan a field of NaT reads as. */
  datatype Number = Int(n: nat) | NaN

  /** The five date columns of one row; year, day and hour are numbers or "N/A". */
  datatype DateRow = DateRow(date: string, year: Field<Number>, month: string, day: Field<Number>, hour: Field<Number>)

  const NoDate: DateRow := DateRow(NotAvailable, NA, NotAvailable, NA, NA)

  /**
   * `parse_dates` on NaT raises nothing: every field is nan, `nan < 10` is
   * false so the month is `str(nan)`, and the date string is three of them.
   */
  const NaTDate: DateRow := DateRow("nan-nan-nan", Val(NaN), "nan", Val(NaN), Val(NaN))

  /**
   * One pass of the date loop: `parse_dates`, or "N/A" five times when it
   * raises. "N/A" in the date column, or in the month column, marks exactly
   * the rows whose conversion raised, since a converted date or month
   * starts with a digit and NaT's start with "n"; nan in the year marks
   * exactly NaT; after a real conversion the year, day and hour are the
   * timestamp's own.
   */
  function DateStep(conversion: Conversion): (r: DateRow)
    ensures conversion.Raised? ==> r == NoDate
    ensures conversion.NotATime? ==> r == NaTDate
    ensures r.date == NotAvailable <==> conversion.Raised?
    ensures r.month == NotAvailable <==> conversion.Raised?
    ensures r.year.NA? <==> conversion.Raised?
    ensures r.year == Val(NaN) <==> conversion.NotATime?
    ensures conversion.Converted? ==>
              var t := conversion.stamp;
              && r.year == Val(Int(t.year)) && r.day == Val(Int(t.day)) && r.hour == Val(Int(t.hour))
              && r.month == MonthString(t.month)
              && r.date == ParseDates(t).date
  {
    match conversion
    case Raised => NoDate
    case NotATime => NaTDate
    case Converted(t) =>
      var parts := ParseDates(t);
      assert IsDigit(parts.date[0]) && IsDigit(parts.month[0]);
      DateRow(parts.date, Val(Int(parts.year)), parts.month, Val(Int(parts.day)), Val(Int(parts.hour)))
  }

  /**
   * `pd.to_datetime` gives NaT for a missing cell, and the library's answer
   * for a string; so a missing timestamp never gives "N/A".
   */
  function DatesOf(env: Env, row: Row): (r: DateRow)
    ensures row.createdAt.Missing? ==> r == NaTDate && r.date != NotAvailable
  {
    match row.createdAt
    case Missing => DateStep(NotATime)
    case Str(timestamp) => DateStep(env.toDatetime(timestamp))
  }

  /** The four text columns of one row. */
  datatype TextRow = TextRow(tokens: seq<string>, hashtags: seq<string>, nonHashtags: seq<string>, hashtagCount: nat)

  /**
   * One pass of the text loop: `clean_text`, `parse_hashtags` and
   * `count_hashtags` on the raw text. Iterating over a missing cell (a
   * float) raises, and the loop turns that into a fatal error.
   */
  function TextStep(isEmoji: char -> bool, stopwords: set<string>, cell: Cell): (r: Option<TextRow>)
    ensures r.None? <==> cell.Missing?
    ensures r.Some? ==>
              && r.value.tokens == CleanText(isEmoji, stopwords, cell.s)
              && (r.value.hashtags, r.value.nonHashtags) == ParseHashtags(cell.s)
              && r.value.hashtagCount == CountHashtags(cell.s)
    ensures r.Some? ==> forall k :: 0 <= k < |r.value.tokens| ==> CleanToken(stopwords, r.value.tokens[k])
    ensures r.Some? ==> r.value.hashtagCount + |r.value.nonHashtags| == Count(cell.s, ' ') + 1
    ensures r.Some? ==> forall k :: 0 <= k < |r.value.hashtags| ==> Count(r.value.hashtags[k], '#') == 1
    ensures r.Some? ==> forall k :: 0 <= k < |r.value.nonHashtags| ==> '#' !in r.value.nonHashtags[k]
  {
    match cell
    case Missing => None
    case Str(text) =>
      HashtagsOfText(text);
      var (hashtags, nonHashtags) := ParseHashtags(text);
      Some(TextRow(CleanText(isEmoji, stopwords, text), hashtags, nonHashtags, CountHashtags(text)))
  }

  function TextOf(env: Env, row: Row): Option<TextRow>
  {
    TextStep(env.isEmoji, env.stopwords, row.fullText)
  }

  /** The twelve columns the script adds to the table. */
  datatype Columns = Columns(
    isUSA: seq<Field<bool>>, country: seq<string>, state: seq<string>,
    date: seq<string>, year: seq<Field<Number>>, month: seq<string>, day: seq<Field<Number>>, hour: seq<Field<Number>>,
    tokens: seq<seq<string>>, hashtags: seq<seq<string>>, nonHashtags: seq<seq<string>>, hashtagCount: seq<nat>)

  /** Every column has one entry per row. */
  predicate Aligned(c: Columns, n: nat)
  {
    && |c.isUSA| == n && |c.country| == n && |c.state| == n
    && |c.date| == n && |c.year| == n && |c.month| == n && |c.day| == n && |c.hour| == n
    && |c.tokens| == n && |c.hashtags| == n && |c.nonHashtags| == n && |c.hashtagCount| == n
  }

  /** Entry `i` of every column is what the three loops computed for row `i`. */
  predicate RowMatches(env: Env, row: Row, c: Columns, n: nat, i: nat)
    requires Aligned(c, n) && i < n
  {
    && LocationOf(env, row) == Some(LocationFields(c.isUSA[i], c.country[i], c.state[i]))
    && DatesOf(env, row) == DateRow(c.date[i], c.year[i], c.month[i], c.day[i], c.hour[i])
    && TextOf(env, row) == Some(TextRow(c.tokens[i], c.hashtags[i], c.nonHashtags[i], c.hashtagCount[i]))
  }

  /** The loop that raised, and the index it reports. */
  datatype Stage = LocationStage | TextStage
  datatype Abort = Abort(stage: Stage, row: nat)

  /** The location loop raises on this row. */
  predicate FatalLocation(env: Env, row: Row)
  {
    LocationOf(env, row).None?
  }

  /** What the location loop computes for each row, before it stops at the first failure. */
  function LocationCells(env: Env, rows: seq<Row>): (r: seq<Option<LocationFields>>)
    ensures |r| == |rows| && forall i :: 0 <= i < |rows| ==> r[i] == LocationOf(env, rows[i])
  {
    if |rows| == 0 then [] else [LocationOf(env, rows[0])] + LocationCells(env, rows[1..])
  }

  /** The date loop: it never raises, so every row gets its five date columns. */
  function DatePass(env: Env, rows: seq<Row>): (r: seq<DateRow>)
    ensures |r| == |rows| && forall i :: 0 <= i < |rows| ==> r[i] == DatesOf(env, rows[i])
  {
    if |rows| == 0 then [] else [DatesOf(env, rows[0])] + DatePass(env, rows[1..])
  }

  /** What the text loop computes for each row, before it stops at the first failure. */
  function TextCells(env: Env, rows: seq<Row>): (r: seq<Option<TextRow>>)
    ensures |r| == |rows| && forall i :: 0 <= i < |rows| ==> r[i] == TextOf(env, rows[i])
  {
    if |rows| == 0 then [] else [TextOf(env, rows[0])] + TextCells(env, rows[1..])
  }

  /** Entry `i` of every column comes from the `i`-th triple, date row and text row. */
  predicate Entry(c: Columns, i: nat, location: LocationFields, date: DateRow, text: TextRow)
    requires i < |c.isUSA| && Aligned(c, |c.isUSA|)
  {
    && LocationFields(c.isUSA[i], c.country[i], c.state[i]) == location
    && DateRow(c.date[i], c.year[i], c.month[i], c.day[i], c.hour[i]) == date
    && TextRow(c.tokens[i], c.hashtags[i], c.nonHashtags[i], c.hashtagCount[i]) == text
  }

  /** The twelve lists, filled row by row, made into columns. */
  function Assemble(locations: seq<LocationFields>, dates: seq<DateRow>, texts: seq<TextRow>): (c: Columns)
    requires |dates| == |locations| && |texts| == |locations|
    ensures Aligned(c, |locations|)
    ensures forall i :: 0 <= i < |locations| ==> Entry(c, i, locations[i], dates[i], texts[i])
  {
    if |locations| == 0 then Columns([], [], [], [], [], [], [], [], [], [], [], [])
    else
      var c := Assemble(locations[1..], dates[1..], texts[1..]);
      var l, d, t := locations[0], dates[0], texts[0];
      Columns(
        [l.isUSA] + c.isUSA, [l.country] + c.country, [l.state] + c.state,
        [d.date] + c.date, [d.year] + c.year, [d.month] + c.month, [d.day] + c.day, [d.hour] + c.hour,
        [t.tokens] + c.tokens, [t.hashtags] + c.hashtags, [t.nonHashtags] + c.nonHashtags,
        [t.hashtagCount] + c.hashtagCount)
  }

  /**
   * The `__main__` block on the rows of the table: the location loop, the
   * date loop and the text loop in that order, then the twelve columns; or
   * the loop and row index of the error that stops the run.
   */
  function Run(env: Env, rows: seq<Row>): (r: Result<Columns, Abort>)
    ensures r.Ok? ==> Aligned(r.value, |rows|)
    ensures r.Err? ==> r.error.row < |rows|
    ensures r.Err? && r.error.stage == LocationStage ==> FatalLocation(env, rows[r.error.row])
    ensures r.Err? && r.error.stage == TextStage ==> rows[r.error.row].fullText.Missing?
  {
    match AllSome(LocationCells(env, rows))
    case Err(i) => Err(Abort(LocationStage, i))
    case Ok(locations) =>
      var dates := DatePass(env, rows);
      match AllSome(TextCells(env, rows))
      case Err(i) => Err(Abort(TextStage, i))
      case Ok(texts) => Ok(Assemble(locations, dates, texts))
  }

  /**
   * The run finishes exactly when no row has a fatal location and every
   * text cell is a string; the dates play no part, since a date that cannot
   * be parsed only gives "N/A".
   */
  lemma RunSucceeds(env: Env, rows: seq<Row>)
    ensures Run(env, rows).Ok? <==>
              && (forall i :: 0 <= i < |rows| ==> !FatalLocation(env, rows[i]))
              && (forall i :: 0 <= i < |rows| ==> rows[i].fullText.Str?)
  {
    LocationCellsSome(env, rows);
    TextCellsSome(env, rows);
  }

  lemma LocationCellsSome(env: Env, rows: seq<Row>)
    ensures AllSome(LocationCells(env, rows)).Ok? <==> forall i :: 0 <= i < |rows| ==> !FatalLocation(env, rows[i])
  {
    var locations := LocationCells(env, rows);
    assert (forall i :: 0 <= i < |rows| ==> !FatalLocation(env, rows[i])) <==>
           (forall i :: 0 <= i < |rows| ==> locations[i].Some?);
  }

  lemma TextCellsSome(env: Env, rows: seq<Row>)
    ensures AllSome(TextCells(env, rows)).Ok? <==> forall i :: 0 <= i < |rows| ==> rows[i].fullText.Str?
  {
    var texts := TextCells(env, rows);
    assert (forall i :: 0 <= i < |rows| ==> rows[i].fullText.Str?) <==>
           (forall i :: 0 <= i < |rows| ==> texts[i].Some?);
  }

  /**
   * A finished run gives twelve columns with one entry per row, and entry
   * `i` of every column is what the loops computed for row `i`.
   */
  lemma RunColumns(env: Env, rows: seq<Row>)
    requires Run(env, rows).Ok?
    ensures Aligned(Run(env, rows).value, |rows|)
    ensures forall i :: 0 <= i < |rows| ==> RowMatches(env, rows[i], Run(env, rows).value, |rows|, i)
  {
    var locations := AllSome(LocationCells(env, rows)).value;
    var dates := DatePass(env, rows);
    var texts := AllSome(TextCells(env, rows)).value;
    var c := Run(env, rows).value;
    assert c == Assemble(locations, dates, texts);
    forall i | 0 <= i < |rows|
      ensures RowMatches(env, rows[i], c, |rows|, i)
    {
      assert Entry(c, i, locations[i], dates[i], texts[i]);
    }
  }

  /**
   * A run stopped by the location loop reports the first row whose
   * location is fatal.
   */
  lemma RunLocationAbort(env: Env, rows: seq<Row>)
    requires Run(env, rows).Err? && Run(env, rows).error.stage == LocationStage
    ensures var row := Run(env, rows).error.row;
            && row < |rows|
            && FatalLocation(env, rows[row])
            && forall i :: 0 <= i < row ==> !FatalLocation(env, rows[i])
  {
    var locations := LocationCells(env, rows);
    assert AllSome(locations).Err?;
  }

  /**
   * A run stopped by the text loop has no fatal location in any row (the
   * location loop runs first, over every row) and reports the first row
   * whose text is missing.
   */
  lemma RunTextAbort(env: Env, rows: seq<Row>)
    requires Run(env, rows).Err? && Run(env, rows).error.stage == TextStage
    ensures var row := Run(env, rows).error.row;
            && row < |rows|
            && rows[row].fullText.Missing?
            && (forall i :: 0 <= i < row ==> rows[i].fullText.Str?)
            && forall i :: 0 <= i < |rows| ==> !FatalLocation(env, rows[i])
  {
    var locations := LocationCells(env, rows);
    var texts := TextCells(env, rows);
    assert AllSome(locations).Ok?;
    assert AllSome(texts).Err?;
  }
}
