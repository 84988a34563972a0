/** The readership request: for the countries that speak a language, the
    language's book and author counts and each country's potential readers. */
module Readership {
  import opened Structs
  import opened Http
  import opened Text
  import opened Constants
  import opened Helpers

  /** The `limit` query value: absent or empty, an integer, or not an integer. */
  datatype LimitParam = Absent | Number(n: int) | NotANumber

  /** The country code taken from the request path, or the error for a path
      that holds none. */
  datatype PathResult = CountryCode(code: string) | PathError(error: HttpError)

  /** The path's segments, once a missing trailing slash has been added. */
  function PathSegments(path: string): seq<string>
  {
    Split(if HasSuffix(path, "/") then path else path + "/", '/')
  }

  /** Exactly five segments lack the code, fewer are an incomplete URL, and
      otherwise the code is the fifth segment. */
  function ParsePath(path: string): PathResult
  {
    var segments := PathSegments(path);
    if |segments| == 5 then PathError(HttpError(400, "Error: Please provide a country code"))
    else if |segments| < 5 then PathError(HttpError(400, "Error: Incomplete URL"))
    else CountryCode(segments[4])
  }

  /** The segments of the endpoint's path followed by one more segment. */
  lemma EndpointSegments(cc: string)
    requires '/' !in cc
    ensures Split(READERSHIP_PATH + cc, '/') == ["", "librarystats", "v1", "readership", cc]
  {
    var head: seq<string> := ["", "librarystats", "v1", "readership", cc];
    var j3 := "readership" + "/" + cc;
    var j2 := "v1" + "/" + j3;
    var j1 := "librarystats" + "/" + j2;
    assert Join(head[4..], '/') == cc by { assert head[4..] == [cc]; }
    assert Join(head[3..], '/') == j3 by { assert head[3..][1..] == head[4..]; }
    assert Join(head[2..], '/') == j2 by { assert head[2..][1..] == head[3..]; }
    assert Join(head[1..], '/') == j1 by { assert head[1..][1..] == head[2..]; }
    assert Join(head, '/') == "" + "/" + j1;
    assert "" + "/" + j1 == READERSHIP_PATH + cc;
    SplitJoin(head, '/');
  }

  /** On the readership endpoint's path, the code is the segment that follows
      it, whatever follows that segment. */
  lemma ParseReadershipPath(cc: string, rest: string)
    requires '/' !in cc
    ensures ParsePath(READERSHIP_PATH + cc + "/" + rest) == CountryCode(cc)
  {
    EndpointSegments(cc);
    SegmentsAfter(READERSHIP_PATH + cc, rest);
  }

  /** A code without a final slash is read the same way. */
  lemma ParseReadershipPathUnterminated(cc: string)
    requires '/' !in cc && cc != ""
    ensures ParsePath(READERSHIP_PATH + cc) == CountryCode(cc)
  {
    var endpoint := READERSHIP_PATH + cc;
    EndpointSegments(cc);
    assert !HasSuffix(endpoint, "/") by {
      assert endpoint[|endpoint| - 1] == cc[|cc| - 1];
      assert cc[|cc| - 1] in cc;
    }
    SplitAround(endpoint, '/', "");
    assert endpoint + "/" == endpoint + ['/'] + "";
    assert Split("", '/') == [""];
  }

  /** The bare endpoint, with or without its final slash, asks for a code. */
  lemma ParseBareEndpoint()
    ensures ParsePath(READERSHIP_PATH) == PathError(HttpError(400, "Error: Please provide a country code"))
    ensures ParsePath("/librarystats/v1/readership") == PathError(HttpError(400, "Error: Please provide a country code"))
  {
    EndpointSegments("");
    assert READERSHIP_PATH + "" == READERSHIP_PATH;
    var stem := "/librarystats/v1/readership";
    assert READERSHIP_PATH == stem + "/";
    assert HasSuffix(READERSHIP_PATH, "/") by {
      assert READERSHIP_PATH[|READERSHIP_PATH| - 1..] == "/";
    }
    assert !HasSuffix(stem, "/") by {
      assert stem[|stem| - 1] == 'p';
    }
  }

  /** Whatever follows a segment boundary, the segments before it come first. */
  lemma SegmentsAfter(x: string, rest: string)
    ensures |PathSegments(x + "/" + rest)| > |Split(x, '/')|
    ensures PathSegments(x + "/" + rest)[..|Split(x, '/')|] == Split(x, '/')
  {
    var path := x + "/" + rest;
    var tail := if HasSuffix(path, "/") then rest else rest + "/";
    assert (if HasSuffix(path, "/") then path else path + "/") == x + ['/'] + tail;
    SplitAround(x, '/', tail);
  }

  /** The number of countries to answer for: all of them when the limit is 0
      or above their number, the limit otherwise. */
  function EffectiveLimit(limit: int, countries: nat): (n: int)
    ensures n <= countries
    ensures limit == 0 || limit > countries ==> n == countries
    ensures limit != 0 && limit <= countries ==> n == limit
  {
    if limit > countries || limit == 0 then countries else limit
  }

  /** The potential readers of a country whose populations were fetched,
      or 0 when the fetch failed. */
  function Readers(f: Fetch<seq<PopulationResponse>>): int
  {
    if f.Got? then TotalPopulation(f.value) else 0
  }

  /** One output per shown country, all with the same book and author counts. */
  function CountryOutputs(shown: seq<ReadershipResponse>, books: int, authors: int,
                          populations: string -> Fetch<seq<PopulationResponse>>): seq<ReadershipOutput>
  {
    if shown == [] then []
    else
      var c := shown[|shown| - 1];
      CountryOutputs(shown[..|shown| - 1], books, authors, populations) +
      [ReadershipOutput(c.country, c.isoCode, books, authors, Readers(populations(ToLower(c.isoCode))))]
  }

  /** The i-th output names the i-th shown country, carries the given counts
      and that country's potential readers. */
  lemma {:induction false} CountryOutputsFields(shown: seq<ReadershipResponse>, books: int, authors: int,
                                                populations: string -> Fetch<seq<PopulationResponse>>)
    ensures var outs := CountryOutputs(shown, books, authors, populations);
      |outs| == |shown| &&
      forall i :: 0 <= i < |shown| ==>
        outs[i] == ReadershipOutput(shown[i].country, shown[i].isoCode, books, authors,
                                    Readers(populations(ToLower(shown[i].isoCode))))
  {
    if shown != [] {
      var init := shown[..|shown| - 1];
      CountryOutputsFields(init, books, authors, populations);
      assert forall i :: 0 <= i < |init| ==> init[i] == shown[i];
    }
  }

  /** The errors the population lookups of the shown countries write, in order. */
  function PopulationErrors(shown: seq<ReadershipResponse>,
                            populations: string -> Fetch<seq<PopulationResponse>>): seq<Write<seq<ReadershipOutput>>>
  {
    if shown == [] then []
    else
      var c := shown[|shown| - 1].isoCode;
      PopulationErrors(shown[..|shown| - 1], populations) +
      (match populations(ToLower(c))
       case Got(_) => []
       case Failed(e) => [ErrorWrite(GetAndDecodeError(e, External, COUNTRIES + "alpha/" + ToLower(c) + "/"))])
  }

  /** The countries a directory lookup lists; a failed lookup lists none. */
  function Listed(listing: Fetch<seq<ReadershipResponse>>): seq<ReadershipResponse>
  {
    if listing.Got? then listing.value else []
  }

  /** The request once the limit and the country code are known: look up the
      countries, fetch the bookcount answer, clamp the limit and answer for
      the first countries. */
  function Answer(limit: int, cc: string,
                  directory: string -> Fetch<seq<ReadershipResponse>>,
                  bookcount: string -> Fetch<seq<GutendexOutput>>,
                  populations: string -> Fetch<seq<PopulationResponse>>): Outcome<seq<ReadershipOutput>>
  {
    var listing := directory(cc);
    var countries := Listed(listing);
    var listingErrors: seq<Write<seq<ReadershipOutput>>> :=
      if listing.Got? then []
      else [ErrorWrite(GetAndDecodeError(listing.error, External, LANGUAGE2COUNTRIES + cc + "/"))];
    match bookcount(cc)
    case Failed(e) =>
      Finished(listingErrors + [ErrorWrite(GetAndDecodeError(e, Internal, LOCAL_BOOKCOUNT + "?language=" + cc))])
    case Got(responses) =>
      var n := EffectiveLimit(limit, |countries|);
      if n <= 0 then Finished(listingErrors + [JsonWrite([])])
      else if responses == [] then Panicked
      else
        var shown := countries[..n];
        Finished(listingErrors + PopulationErrors(shown, populations) +
                 [JsonWrite(CountryOutputs(shown, responses[0].count, responses[0].authors, populations))])
  }

  /** The whole request, given the limit value, the path, the countries
      directory and the service's own bookcount answer (both by country code)
      and the populations (by lower-cased ISO code). */
  function Readership(limitParam: LimitParam, path: string,
                      directory: string -> Fetch<seq<ReadershipResponse>>,
                      bookcount: string -> Fetch<seq<GutendexOutput>>,
                      populations: string -> Fetch<seq<PopulationResponse>>): Outcome<seq<ReadershipOutput>>
  {
    if limitParam.NotANumber? then Finished([ErrorWrite(HttpError(500, "Error during generation of response"))])
    else
      var limit := if limitParam.Number? then limitParam.n else 0;
      match ParsePath(path)
      case PathError(e) => Finished([ErrorWrite(e)])
      case CountryCode(cc) => Answer(limit, cc, directory, bookcount, populations)
  }

  /** Once the bookcount answer is in, the request panics exactly when some
      country is to be shown and that answer is empty; otherwise it ends with
      the JSON body, which holds one output per shown country: the first
      EffectiveLimit countries in the directory's order, none for a negative
      limit. Every output carries the first bookcount entry's counts and the
      summed population of its own ISO code. */
  lemma AnswerOutputs(limit: int, cc: string,
                      directory: string -> Fetch<seq<ReadershipResponse>>,
                      bookcount: string -> Fetch<seq<GutendexOutput>>,
                      populations: string -> Fetch<seq<PopulationResponse>>)
    requires bookcount(cc).Got?
    ensures var countries := Listed(directory(cc));
      var responses := bookcount(cc).value;
      var n := EffectiveLimit(limit, |countries|);
      var r := Answer(limit, cc, directory, bookcount, populations);
      (r.Panicked? <==> n > 0 && responses == []) &&
      (!r.Panicked? ==>
        r.Finished? && |r.writes| >= 1 && r.writes[|r.writes| - 1].JsonWrite? &&
        var outs := r.writes[|r.writes| - 1].body;
        |outs| == (if n > 0 then n else 0) &&
        forall i :: 0 <= i < |outs| ==>
          outs[i].country == countries[i].country &&
          outs[i].isocode == countries[i].isoCode &&
          outs[i].books == responses[0].count &&
          outs[i].authors == responses[0].authors &&
          outs[i].readership == Readers(populations(ToLower(countries[i].isoCode))))
  {
    var countries := Listed(directory(cc));
    var n := EffectiveLimit(limit, |countries|);
    if n > 0 {
      var responses := bookcount(cc).value;
      if responses != [] {
        CountryOutputsFields(countries[..n], responses[0].count, responses[0].authors, populations);
      }
    }
  }

  /** A failed country lookup does not stop the request: its error is
      written first, and the JSON body that follows lists no country. */
  lemma AnswerAfterListingFailure(limit: int, cc: string,
                                  directory: string -> Fetch<seq<ReadershipResponse>>,
                                  bookcount: string -> Fetch<seq<GutendexOutput>>,
                                  populations: string -> Fetch<seq<PopulationResponse>>)
    requires directory(cc).Failed? && bookcount(cc).Got?
    ensures Answer(limit, cc, directory, bookcount, populations) ==
      Finished([ErrorWrite(GetAndDecodeError(directory(cc).error, External, LANGUAGE2COUNTRIES + cc + "/")), JsonWrite([])])
    ensures StatusOf(Answer(limit, cc, directory, bookcount, populations).writes) != 200
  {
  }

  /** The limit decides how many countries are shown: all of them for 0 or a
      limit above their number, exactly `limit` for a limit in between, none
      for a negative one. */
  lemma ShownCountries(limit: int, countries: nat)
    ensures var n := EffectiveLimit(limit, countries);
      (if n > 0 then n else 0) ==
        if limit == 0 || limit > countries then countries
        else if limit < 0 then 0
        else limit
  {
  }

  /** A limit that is not an integer is a 500, and a path without a code is a
      400; neither answers JSON. */
  lemma ReadershipRejects(limitParam: LimitParam, path: string,
                          directory: string -> Fetch<seq<ReadershipResponse>>,
                          bookcount: string -> Fetch<seq<GutendexOutput>>,
                          populations: string -> Fetch<seq<PopulationResponse>>)
    ensures var r := Readership(limitParam, path, directory, bookcount, populations);
      limitParam.NotANumber? ==> StatusOf(r.writes) == 500 && !AnswersJson(r)
    ensures var r := Readership(limitParam, path, directory, bookcount, populations);
      !limitParam.NotANumber? && |PathSegments(path)| <= 5 ==> StatusOf(r.writes) == 400 && !AnswersJson(r)
  {
  }

  /** The request, step by step: default and parse the limit, then read the
      country code from the path. */
  method ReadershipGetRequest(limitParam: LimitParam, urlPath: string,
                              directory: string -> Fetch<seq<ReadershipResponse>>,
                              bookcount: string -> Fetch<seq<GutendexOutput>>,
                              populations: string -> Fetch<seq<PopulationResponse>>)
    returns (outcome: Outcome<seq<ReadershipOutput>>)
    ensures outcome == Readership(limitParam, urlPath, directory, bookcount, populations)
  {
    var limit := 0;
    match limitParam {
      case NotANumber =>
        return Finished([ErrorWrite(HttpError(500, "Error during generation of response"))]);
      case Number(n) =>
        limit := n;
      case Absent =>
    }

    var path := urlPath;
    if !HasSuffix(path, "/") {
      path := path + "/";
    }
    var pathSplit := Split(path, '/');
    if |pathSplit| == 5 {
      return Finished([ErrorWrite(HttpError(400, "Error: Please provide a country code"))]);
    }
    if |pathSplit| < 5 {
      return Finished([ErrorWrite(HttpError(400, "Error: Incomplete URL"))]);
    }
    var countryCode := pathSplit[4];
    outcome := AnswerCountries(limit, countryCode, directory, bookcount, populations);
  }

  /** The rest of the request: the country lookup, the bookcount lookup, the
      clamped limit and the loop that builds one output per country. */
  method AnswerCountries(limit: int, countryCode: string,
                         directory: string -> Fetch<seq<ReadershipResponse>>,
                         bookcount: string -> Fetch<seq<GutendexOutput>>,
                         populations: string -> Fetch<seq<PopulationResponse>>)
    returns (outcome: Outcome<seq<ReadershipOutput>>)
    ensures outcome == Answer(limit, countryCode, directory, bookcount, populations)
  {
    var countries, isoCodes, listingError := FindCountryNamesAndCode(countryCode, directory);
    var writes: seq<Write<seq<ReadershipOutput>>> := [];
    if listingError.Some? {
      writes := [ErrorWrite(listingError.value)];
    }
    ghost var listed := Listed(directory(countryCode));

    var bookcountUrl := LOCAL_BOOKCOUNT + "?language=" + countryCode;
    var fetched := bookcount(countryCode);
    if fetched.Failed? {
      return Finished(writes + [ErrorWrite(GetAndDecodeError(fetched.error, Internal, bookcountUrl))]);
    }
    var responses := fetched.value;

    var effective := limit;
    if effective > |countries| || effective == 0 {
      effective := |countries|;
    }

    if effective > 0 && responses == [] {
      // the loop's first iteration indexes the empty bookcount answer and panics
      return Panicked;
    }
    var outputs: seq<ReadershipOutput> := [];
    var errors: seq<Write<seq<ReadershipOutput>>> := [];
    if effective > 0 {
      outputs, errors := ShowCountries(countries, isoCodes, listed, effective,
                                       responses[0].count, responses[0].authors, populations);
    }
    return Finished(writes + errors + [JsonWrite(outputs)]);
  }

  /** The loop over the first `n` countries: one output each, with the given
      counts and the country's potential readers, and the error of each
      failed population lookup, in order. */
  method ShowCountries(countries: seq<string>, isoCodes: seq<string>, ghost listed: seq<ReadershipResponse>,
                       n: nat, books: int, authors: int,
                       populations: string -> Fetch<seq<PopulationResponse>>)
    returns (outputs: seq<ReadershipOutput>, errors: seq<Write<seq<ReadershipOutput>>>)
    requires n <= |countries| == |isoCodes| == |listed|
    requires forall i :: 0 <= i < |listed| ==>
      countries[i] == listed[i].country && isoCodes[i] == listed[i].isoCode
    ensures outputs == CountryOutputs(listed[..n], books, authors, populations)
    ensures errors == PopulationErrors(listed[..n], populations)
  {
    outputs, errors := [], [];
    var i := 0;
    while i < n
      invariant 0 <= i <= n
      invariant outputs == CountryOutputs(listed[..i], books, authors, populations)
      invariant errors == PopulationErrors(listed[..i], populations)
    {
      var readers, written := FindNumOfReaders(isoCodes[i], populations);
      if written.Some? {
        errors := errors + [ErrorWrite(written.value)];
      }
      assert listed[..i + 1][..i] == listed[..i];
      outputs := outputs + [ReadershipOutput(countries[i], isoCodes[i], books, authors, readers)];
      i := i + 1;
    }
  }
}
