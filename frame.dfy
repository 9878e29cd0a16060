/** The scraper's output: the four scraped columns normalised and assembled
    into the movie table (`get_data`), and the table itself, whose columns
    are assigned one at a time and later gain a `Decade` column. */
module Movies {
  import opened Results
  import opened Seqs
  import opened Text
  import opened Numbers
  import opened TitleCleaning
  import opened Decades

  /** One row of the table; the rating counts tenths (`8.6` is 86). */
  datatype Movie = Movie(title: string, year: int, director: string, rating: nat)

  /** The columns assigned after `Titles`. */
  datatype Column = ReleaseYears | Directors | Rating | DecadeColumnName

  /** Why building the table fails: the exception the scraper would raise.
      Rows are counted from 0 in page order. */
  datatype ScrapeError =
    | RatingNotNumber(row: nat)
    | YearNotInteger(row: nat)
    | LengthMismatch(column: Column)

  /** Line 23: the credits text up to its first `(`, stripped. */
  function Director(credit: string): (d: string)
    ensures '(' !in d
    ensures StrippedOf(d, Whitespace)
  {
    var name := BeforeFirst(credit, '(');
    StripAvoids(name, Whitespace, '(');
    Strip(name, Whitespace)
  }

  /** A credit without `(` yields the whole credit, stripped. */
  lemma DirectorOfPlainCredit(credit: string)
    requires '(' !in credit
    ensures Director(credit) == Strip(credit, Whitespace)
  {
    var name := BeforeFirst(credit, '(');
    assert name == credit;
  }

  /** A credit as the chart page writes it, `" Name (dir.), Star, Star"`,
      yields the name. */
  lemma DirectorOfCredit(pre: string, name: string, post: string, rest: string)
    requires AllIn(pre, Whitespace) && AllIn(post, Whitespace)
    requires StrippedOf(name, Whitespace) && '(' !in name
    ensures Director(pre + name + post + "(" + rest) == name
  {
    var head := pre + name + post;
    var credit := head + "(" + rest;
    assert credit[..|head|] == head;
    assert '(' !in head by {
      forall k | 0 <= k < |head| ensures head[k] != '(' {
        if k < |pre| {
          assert head[k] == pre[k];
        } else if k < |pre| + |name| {
          assert head[k] == name[k - |pre|];
        } else {
          assert head[k] == post[k - |pre| - |name|];
        }
      }
    }
    BeforeFirstAt(credit, '(', |head|);
    StripPadded(pre, name, post, Whitespace);
  }

  /** Lines 23, 24 and 28: a comprehension applying `parse` to every text.
      The first text `parse` rejects stops it, as the exception would;
      `Err(i)` names that text. */
  function ParseEach<T>(texts: seq<string>, parse: string -> Option<T>): Result<seq<T>, nat> {
    if texts == [] then Ok([])
    else match parse(texts[0])
      case None => Err(0)
      case Some(v) =>
        match ParseEach(texts[1..], parse)
        case Ok(vs) => Ok([v] + vs)
        case Err(i) => Err(i + 1)
  }

  /** Success parses every text, position by position. */
  lemma {:induction false} ParseEachOk<T>(texts: seq<string>, parse: string -> Option<T>)
    requires ParseEach(texts, parse).Ok?
    ensures |ParseEach(texts, parse).value| == |texts|
    ensures forall i :: 0 <= i < |texts| ==> parse(texts[i]) == Some(ParseEach(texts, parse).value[i])
  {
    if texts != [] {
      ParseEachOk(texts[1..], parse);
    }
  }

  /** Failure names the first text that does not parse. */
  lemma {:induction false} ParseEachErr<T>(texts: seq<string>, parse: string -> Option<T>)
    requires ParseEach(texts, parse).Err?
    ensures ParseEach(texts, parse).error < |texts|
    ensures parse(texts[ParseEach(texts, parse).error]) == None
    ensures forall j :: 0 <= j < ParseEach(texts, parse).error ==> parse(texts[j]).Some?
  {
    if parse(texts[0]).Some? {
      ParseEachErr(texts[1..], parse);
      var i := ParseEach(texts[1..], parse).error;
      forall j | 0 <= j < i + 1 ensures parse(texts[j]).Some? {
        if j > 0 {
          assert texts[j] == texts[1..][j - 1];
        }
      }
    }
  }

  /** The rows of four parallel columns, zipped by position. */
  function Zip(titles: seq<string>, years: seq<int>, directors: seq<string>, ratings: seq<nat>): seq<Movie>
    requires |years| == |titles| && |directors| == |titles| && |ratings| == |titles|
  {
    if titles == [] then []
    else [Movie(titles[0], years[0], directors[0], ratings[0])]
         + Zip(titles[1..], years[1..], directors[1..], ratings[1..])
  }

  /** Row `i` holds the `i`th entry of every column. */
  lemma {:induction false} ZipAt(titles: seq<string>, years: seq<int>, directors: seq<string>, ratings: seq<nat>)
    requires |years| == |titles| && |directors| == |titles| && |ratings| == |titles|
    ensures |Zip(titles, years, directors, ratings)| == |titles|
    ensures forall i :: 0 <= i < |titles| ==>
      Zip(titles, years, directors, ratings)[i] == Movie(titles[i], years[i], directors[i], ratings[i])
  {
    if titles != [] {
      ZipAt(titles[1..], years[1..], directors[1..], ratings[1..]);
    }
  }

  /** What `get_data` produces from the scraped texts: the title cells, the
      credits, the rating texts and the year spans. Ratings are read first,
      then years; the columns are then checked against the title count in
      the order they are assigned. */
  function Scrape(rawTitles: seq<string>, credits: seq<string>, ratingTexts: seq<string>,
                  yearSpans: seq<string>): Result<seq<Movie>, ScrapeError>
  {
    match ParseEach(ratingTexts, ParseTenths)
    case Err(i) => Err(RatingNotNumber(i))
    case Ok(ratings) =>
      match ParseEach(yearSpans, ParseYear)
      case Err(i) => Err(YearNotInteger(i))
      case Ok(years) =>
        if |years| != |rawTitles| then Err(LengthMismatch(ReleaseYears))
        else if |credits| != |rawTitles| then Err(LengthMismatch(Directors))
        else if |ratings| != |rawTitles| then Err(LengthMismatch(Rating))
        else Ok(Zip(Map(rawTitles, CleanTitle), years, Map(credits, Director), ratings))
  }

  /** The table is built exactly when every rating and year parses and the
      four inputs have the same length; row `i` then holds cleaned title `i`,
      year `i`, director `i` and rating `i`. */
  lemma ScrapeOk(rawTitles: seq<string>, credits: seq<string>, ratingTexts: seq<string>,
                 yearSpans: seq<string>)
    ensures Scrape(rawTitles, credits, ratingTexts, yearSpans).Ok? <==>
      && (forall i :: 0 <= i < |ratingTexts| ==> ParseTenths(ratingTexts[i]).Some?)
      && (forall i :: 0 <= i < |yearSpans| ==> ParseYear(yearSpans[i]).Some?)
      && |yearSpans| == |rawTitles| && |credits| == |rawTitles| && |ratingTexts| == |rawTitles|
    ensures Scrape(rawTitles, credits, ratingTexts, yearSpans).Ok? ==>
      var t := Scrape(rawTitles, credits, ratingTexts, yearSpans).value;
      |t| == |rawTitles| &&
      forall i :: 0 <= i < |t| ==>
        t[i] == Movie(CleanTitle(rawTitles[i]), ParseYear(yearSpans[i]).value,
                      Director(credits[i]), ParseTenths(ratingTexts[i]).value)
  {
    var rs := ParseEach(ratingTexts, ParseTenths);
    var ys := ParseEach(yearSpans, ParseYear);
    if rs.Ok? {
      ParseEachOk(ratingTexts, ParseTenths);
    } else {
      ParseEachErr(ratingTexts, ParseTenths);
    }
    if ys.Ok? {
      ParseEachOk(yearSpans, ParseYear);
    } else {
      ParseEachErr(yearSpans, ParseYear);
    }
    if rs.Ok? && ys.Ok? && |yearSpans| == |rawTitles| && |credits| == |rawTitles| && |ratingTexts| == |rawTitles| {
      MapAt(rawTitles, CleanTitle);
      MapAt(credits, Director);
      ZipAt(Map(rawTitles, CleanTitle), ys.value, Map(credits, Director), rs.value);
    }
  }

  /** The exception raised first: the first unreadable rating, else the first
      unreadable year, else the first column whose length differs from the
      title count. */
  lemma ScrapeErr(rawTitles: seq<string>, credits: seq<string>, ratingTexts: seq<string>,
                  yearSpans: seq<string>)
    requires Scrape(rawTitles, credits, ratingTexts, yearSpans).Err?
    ensures match Scrape(rawTitles, credits, ratingTexts, yearSpans).error
      case RatingNotNumber(i) =>
        i < |ratingTexts| && ParseTenths(ratingTexts[i]) == None &&
        forall j :: 0 <= j < i ==> ParseTenths(ratingTexts[j]).Some?
      case YearNotInteger(i) =>
        (forall j :: 0 <= j < |ratingTexts| ==> ParseTenths(ratingTexts[j]).Some?) &&
        i < |yearSpans| && ParseYear(yearSpans[i]) == None &&
        forall j :: 0 <= j < i ==> ParseYear(yearSpans[j]).Some?
      case LengthMismatch(c) =>
        (forall j :: 0 <= j < |ratingTexts| ==> ParseTenths(ratingTexts[j]).Some?) &&
        (forall j :: 0 <= j < |yearSpans| ==> ParseYear(yearSpans[j]).Some?) &&
        match c
        case ReleaseYears => |yearSpans| != |rawTitles|
        case Directors => |yearSpans| == |rawTitles| && |credits| != |rawTitles|
        case Rating => |yearSpans| == |rawTitles| && |credits| == |rawTitles| && |ratingTexts| != |rawTitles|
        case DecadeColumnName => false
  {
    var rs := ParseEach(ratingTexts, ParseTenths);
    var ys := ParseEach(yearSpans, ParseYear);
    if rs.Err? {
      ParseEachErr(ratingTexts, ParseTenths);
    } else {
      ParseEachOk(ratingTexts, ParseTenths);
      if ys.Err? {
        ParseEachErr(yearSpans, ParseYear);
      } else {
        ParseEachOk(yearSpans, ParseYear);
      }
    }
  }

  /** The movie table. `Titles` exists from the start; `columns` records
      which of the other columns have been assigned. An assigned column has
      one entry per title. */
  class MovieFrame {
    var titles: seq<string>
    var releaseYears: seq<int>
    var directors: seq<string>
    var ratings: seq<nat>
    var decades: seq<int>
    var columns: set<Column>

    predicate Valid()
      reads this
    {
      && (ReleaseYears in columns ==> |releaseYears| == |titles|)
      && (Directors in columns ==> |directors| == |titles|)
      && (Rating in columns ==> |ratings| == |titles|)
      && (DecadeColumnName in columns ==> |decades| == |titles|)
    }

    /** All the columns `get_data` assigns are present. */
    predicate Complete()
      reads this
    {
      Valid() && ReleaseYears in columns && Directors in columns && Rating in columns
    }

    /** The table's rows. */
    function Rows(): seq<Movie>
      reads this
      requires Complete()
    {
      Zip(titles, releaseYears, directors, ratings)
    }

    /** Line 39: a one-column table of titles. */
    constructor (titles: seq<string>)
      ensures this.titles == titles && columns == {}
      ensures Valid()
    {
      this.titles := titles;
      releaseYears := [];
      directors := [];
      ratings := [];
      decades := [];
      columns := {};
    }

    /** Line 40. A list whose length differs from the row count is refused
        (pandas raises) and the table stays as it was. */
    method SetReleaseYears(years: seq<int>) returns (ok: bool)
      requires Valid()
      modifies this
      ensures Valid()
      ensures ok <==> |years| == |titles|
      ensures ok ==> releaseYears == years && columns == old(columns) + {ReleaseYears}
      ensures !ok ==> releaseYears == old(releaseYears) && columns == old(columns)
      ensures titles == old(titles) && directors == old(directors)
      ensures ratings == old(ratings) && decades == old(decades)
    {
      ok := |years| == |titles|;
      if ok {
        releaseYears := years;
        columns := columns + {ReleaseYears};
      }
    }

    /** Line 41, with the same length check. */
    method SetDirectors(names: seq<string>) returns (ok: bool)
      requires Valid()
      modifies this
      ensures Valid()
      ensures ok <==> |names| == |titles|
      ensures ok ==> directors == names && columns == old(columns) + {Directors}
      ensures !ok ==> directors == old(directors) && columns == old(columns)
      ensures titles == old(titles) && releaseYears == old(releaseYears)
      ensures ratings == old(ratings) && decades == old(decades)
    {
      ok := |names| == |titles|;
      if ok {
        directors := names;
        columns := columns + {Directors};
      }
    }

    /** Line 42, with the same length check. */
    method SetRatings(values: seq<nat>) returns (ok: bool)
      requires Valid()
      modifies this
      ensures Valid()
      ensures ok <==> |values| == |titles|
      ensures ok ==> ratings == values && columns == old(columns) + {Rating}
      ensures !ok ==> ratings == old(ratings) && columns == old(columns)
      ensures titles == old(titles) && releaseYears == old(releaseYears)
      ensures directors == old(directors) && decades == old(decades)
    {
      ok := |values| == |titles|;
      if ok {
        ratings := values;
        columns := columns + {Rating};
      }
    }

    /** Line 64: (re)writes the `Decade` column from the release years;
        nothing else changes. */
    method AddDecadeColumn()
      requires Valid() && ReleaseYears in columns
      modifies this
      ensures Valid()
      ensures decades == DecadeColumn(releaseYears)
      ensures columns == old(columns) + {DecadeColumnName}
      ensures titles == old(titles) && releaseYears == old(releaseYears)
      ensures directors == old(directors) && ratings == old(ratings)
    {
      decades := DecadeColumn(releaseYears);
      columns := columns + {DecadeColumnName};
    }
  }

  /** `get_data` past the download: parse, clean, then assign the columns
      one by one. It fails exactly as `Scrape` says and otherwise returns a
      new, complete table whose rows are `Scrape`'s. */
  method GetData(rawTitles: seq<string>, credits: seq<string>, ratingTexts: seq<string>,
                 yearSpans: seq<string>) returns (r: Result<MovieFrame, ScrapeError>)
    ensures Scrape(rawTitles, credits, ratingTexts, yearSpans).Err? ==>
      r == Err(Scrape(rawTitles, credits, ratingTexts, yearSpans).error)
    ensures Scrape(rawTitles, credits, ratingTexts, yearSpans).Ok? ==>
      && r.Ok? && fresh(r.value) && r.value.Complete() && r.value.columns == {ReleaseYears, Directors, Rating}
      && r.value.Rows() == Scrape(rawTitles, credits, ratingTexts, yearSpans).value
  {
    var directors := Map(credits, Director);
    MapAt(credits, Director);
    var ratings := ParseEach(ratingTexts, ParseTenths);
    if ratings.Err? {
      return Err(RatingNotNumber(ratings.error));
    }
    ParseEachOk(ratingTexts, ParseTenths);
    var years := ParseEach(yearSpans, ParseYear);
    if years.Err? {
      return Err(YearNotInteger(years.error));
    }
    ParseEachOk(yearSpans, ParseYear);
    var clean := CleanTitles(rawTitles);
    MapAt(rawTitles, CleanTitle);
    assert clean == Map(rawTitles, CleanTitle);
    var frame := new MovieFrame(clean);
    var ok := frame.SetReleaseYears(years.value);
    if !ok {
      return Err(LengthMismatch(ReleaseYears));
    }
    ok := frame.SetDirectors(directors);
    if !ok {
      return Err(LengthMismatch(Directors));
    }
    ok := frame.SetRatings(ratings.value);
    if !ok {
      return Err(LengthMismatch(Rating));
    }
    return Ok(frame);
  }
}
