/**
 * The fetch-and-parse pipeline of the news reader: reading the response body
 * line by line, the null-URL early return of the HTTP request, extracting
 * `Games` records from the JSON response, and the composition of the three.
 */
module QueryUtils {
  import opened Wrappers
  import opened Json
  import opened GamesRecord

  // ---------------------------------------------------------------------------
  // Reading the body: BufferedReader.readLine and readFromStream
  // ---------------------------------------------------------------------------

  /** The characters `readLine` treats as ending a line. */
  predicate IsLineTerminator(c: char) {
    c == '\n' || c == '\r'
  }

  predicate NoLineTerminator(s: string) {
    forall k :: 0 <= k < |s| ==> !IsLineTerminator(s[k])
  }

  /** The text with every line terminator character deleted. */
  function WithoutLineTerminators(s: string): (r: string)
    ensures |r| <= |s|
    ensures NoLineTerminator(r)
  {
    if s == [] then []
    else (if IsLineTerminator(s[0]) then [] else [s[0]]) + WithoutLineTerminators(s[1..])
  }

  /** Deleting terminators distributes over concatenation. */
  lemma {:induction false} WithoutLineTerminatorsAppend(a: string, b: string)
    ensures WithoutLineTerminators(a + b) == WithoutLineTerminators(a) + WithoutLineTerminators(b)
  {
    if a == [] {
      assert a + b == b;
    } else {
      assert (a + b)[0] == a[0] && (a + b)[1..] == a[1..] + b;
      WithoutLineTerminatorsAppend(a[1..], b);
    }
  }

  /** A text without terminators is left as it is. */
  lemma {:induction false} WithoutLineTerminatorsKeepsLine(s: string)
    requires NoLineTerminator(s)
    ensures WithoutLineTerminators(s) == s
  {
    if s != [] {
      WithoutLineTerminatorsKeepsLine(s[1..]);
    }
  }

  /** The length of the first line: the index of the first terminator, or the whole input. */
  function LineLength(s: string): (n: nat)
    ensures n <= |s| && NoLineTerminator(s[..n])
    ensures n < |s| ==> IsLineTerminator(s[n])
  {
    if s == [] || IsLineTerminator(s[0]) then 0 else 1 + LineLength(s[1..])
  }

  /** How many characters end the line that stops at `n`: 2 for "\r\n", 1 for "\n" or "\r", 0 at the end of input. */
  function TerminatorLength(s: string, n: nat): (t: nat)
    requires n <= |s|
    ensures n + t <= |s|
  {
    if n == |s| then 0
    else if s[n] == '\r' && n + 1 < |s| && s[n + 1] == '\n' then 2
    else 1
  }

  /**
   * `BufferedReader.readLine()` on the characters not yet read: `None` (null)
   * at the end of the stream, otherwise the line without its terminator
   * ("\n", "\r" or "\r\n") and the characters still unread after it.
   */
  function ReadLine(unread: string): (r: Option<(string, string)>)
    ensures r.None? <==> unread == []
    ensures r.Some? ==> NoLineTerminator(r.value.0) && |r.value.0| <= |unread|
    ensures r.Some? ==> unread[..|r.value.0|] == r.value.0
    ensures r.Some? && |r.value.0| < |unread| ==> IsLineTerminator(unread[|r.value.0|])
    ensures r.Some? ==> |r.value.1| < |unread|
    ensures r.Some? && |r.value.0| == |unread| ==> r.value.1 == []
    ensures r.Some? && |r.value.0| < |unread| ==>
      var n := |r.value.0|;
      if unread[n] == '\r' && n + 1 < |unread| && unread[n + 1] == '\n'
      then r.value.1 == unread[n + 2..]
      else r.value.1 == unread[n + 1..]
  {
    if unread == [] then None
    else
      var n := LineLength(unread);
      var t := TerminatorLength(unread, n);
      Some((unread[..n], unread[n + t..]))
  }

  /** What `readLine` consumes is the line plus characters that are all terminators. */
  lemma ReadLineDropsOnlyTerminators(unread: string)
    requires unread != []
    ensures WithoutLineTerminators(unread)
         == ReadLine(unread).value.0 + WithoutLineTerminators(ReadLine(unread).value.1)
  {
    var n := LineLength(unread);
    var t := TerminatorLength(unread, n);
    var line, ends, rest := unread[..n], unread[n..n + t], unread[n + t..];
    assert unread == line + ends + rest;
    WithoutLineTerminatorsAppend(line + ends, rest);
    WithoutLineTerminatorsAppend(line, ends);
    WithoutLineTerminatorsKeepsLine(line);
    assert WithoutLineTerminators(ends) == [] by {
      if t > 0 {
        assert IsLineTerminator(ends[0]) && ends[1..] == unread[n + 1..n + t];
        if t == 2 {
          assert ends[1..][1..] == [];
        }
      }
    }
  }

  /** Every line `readLine` returns before it returns null, in order. */
  function Lines(unread: string): seq<string>
    decreases |unread|
  {
    match ReadLine(unread)
    case None => []
    case Some((line, rest)) => [line] + Lines(rest)
  }

  /** The lines appended one after another, with nothing between them. */
  function Concat(lines: seq<string>): string {
    if lines == [] then "" else lines[0] + Concat(lines[1..])
  }

  /** Joining the lines without separators gives the input with its line terminators removed. */
  lemma {:induction false} ConcatLines(s: string)
    ensures Concat(Lines(s)) == WithoutLineTerminators(s)
    decreases |s|
  {
    match ReadLine(s)
    case None =>
    case Some((line, rest)) =>
      ConcatLines(rest);
      ReadLineDropsOnlyTerminators(s);
      assert Lines(s) == [line] + Lines(rest);
      assert ([line] + Lines(rest))[1..] == Lines(rest);
  }

  /**
   * `readFromStream`: appends every line to the output with no separator; a
   * null stream gives "". The stream is given as its decoded characters.
   */
  method ReadFromStream(inputStream: Option<string>) returns (output: string)
    ensures inputStream.None? ==> output == ""
    ensures inputStream.Some? ==> output == Concat(Lines(inputStream.value))
    ensures inputStream.Some? ==> output == WithoutLineTerminators(inputStream.value)
  {
    output := "";
    if inputStream.Some? {
      var reader := inputStream.value;
      var line := ReadLine(reader);
      while line.Some?
        invariant line == ReadLine(reader)
        invariant output + Concat(Lines(reader)) == Concat(Lines(inputStream.value))
        decreases |reader|
      {
        assert Lines(reader) == [line.value.0] + Lines(line.value.1);
        assert ([line.value.0] + Lines(line.value.1))[1..] == Lines(line.value.1);
        output := output + line.value.0;
        reader := line.value.1;
        line := ReadLine(reader);
      }
      ConcatLines(inputStream.value);
    }
  }

  // ---------------------------------------------------------------------------
  // The HTTP request: only its early return and the branch on the status
  // ---------------------------------------------------------------------------

  /** `HttpURLConnection.HTTP_OK`. */
  const HTTP_OK: int := 200

  /** What the server exchange produced once a connection was attempted. */
  datatype Exchange =
    | Answered(status: int, body: string) // the response code and the body stream's characters
    | Failed                              // an IOException while connecting or reading

  /**
   * `createUrl`: the URL when the text is present and well formed (what
   * `java.net.URL` accepts is the parameter `isWellFormed`), null otherwise.
   */
  function CreateUrl(stringUrl: Option<string>, isWellFormed: string -> bool): (url: Option<string>)
    ensures url.Some? <==> stringUrl.Some? && isWellFormed(stringUrl.value)
    ensures url.Some? ==> url.value == stringUrl.value
  {
    if stringUrl.Some? && isWellFormed(stringUrl.value) then stringUrl else None
  }

  /** The text `makeHttpRequest` returns. */
  function ResponseText(url: Option<string>, exchange: Exchange): string {
    if url.None? then ""
    else match exchange
      case Answered(status, body) => if status == HTTP_OK then Concat(Lines(body)) else ""
      case Failed => ""
  }

  /**
   * `makeHttpRequest`: a null URL returns "" without looking at the exchange;
   * otherwise the body of a 200 answer as `readFromStream` reads it, and ""
   * for any other status or an I/O failure.
   */
  method MakeHttpRequest(url: Option<string>, exchange: Exchange) returns (jsonResponse: string)
    ensures url.None? ==> jsonResponse == ""
    ensures jsonResponse == ResponseText(url, exchange)
  {
    jsonResponse := "";
    if url.None? {
      return;
    }
    match exchange {
      case Answered(status, body) =>
        if status == HTTP_OK {
          jsonResponse := ReadFromStream(Some(body));
        }
      case Failed =>
    }
  }

  // ---------------------------------------------------------------------------
  // Extracting records from the parsed response
  // ---------------------------------------------------------------------------

  /**
   * `new JSONObject(text).getJSONObject("response").getJSONArray("results")`
   * on the parsed document: `None` where one of the three steps throws.
   */
  function ResultsArray(root: Json): (r: Option<seq<Json>>)
    ensures r.Some? <==>
      root.JObject? && "response" in root.members && root.members["response"].JObject?
      && "results" in root.members["response"].members
      && root.members["response"].members["results"].JArray?
    ensures r.Some? ==> r.value == root.members["response"].members["results"].items
  {
    if !root.JObject? then None
    else match GetJsonObject(root.members, "response")
      case None => None
      case Some(response) => GetJsonArray(response, "results")
  }

  /** Every tag is an object, so `tags.getJSONObject(b)` never throws. */
  predicate TagsWellFormed(tags: seq<Json>) {
    forall k :: 0 <= k < |tags| ==> tags[k].JObject?
  }

  /** The author the inner loop leaves behind: the last tag's `webTitle`, null when there is no tag. */
  function LastTagTitle(tags: seq<Json>): Option<string>
    requires TagsWellFormed(tags)
  {
    if tags == [] then None else Some(OptString(tags[|tags| - 1].members, "webTitle"))
  }

  /** The record one element of `results` yields, or `None` where building it throws. */
  function GameOf(e: Json): (r: Option<Games>)
    ensures r.Some? <==>
      e.JObject? && "tags" in e.members && e.members["tags"].JArray?
      && TagsWellFormed(e.members["tags"].items)
  {
    if !e.JObject? then None
    else match GetJsonArray(e.members, "tags")
      case None => None
      case Some(tags) =>
        if !TagsWellFormed(tags) then None
        else Some(NewGames(OptString(e.members, "sectionName"), LastTagTitle(tags),
                           OptString(e.members, "webPublicationDate"),
                           OptString(e.members, "webTitle"), OptString(e.members, "webUrl")))
  }

  /**
   * The records of the elements before the first one that throws: the list
   * the loop has built when the exception reaches the catch.
   */
  function GamesUntilFailure(results: seq<Json>): (r: seq<Games>)
    ensures |r| <= |results|
  {
    if results == [] then []
    else match GameOf(results[0])
      case None => []
      case Some(g) => [g] + GamesUntilFailure(results[1..])
  }

  /**
   * The list is the records of elements 0..k-1 in array order, where element
   * k is the first that throws (or k is the length of the array).
   */
  lemma {:induction false} GamesUntilFailureIsPrefix(results: seq<Json>)
    ensures forall k :: 0 <= k < |GamesUntilFailure(results)| ==>
      GameOf(results[k]) == Some(GamesUntilFailure(results)[k])
    ensures |GamesUntilFailure(results)| < |results| ==>
      GameOf(results[|GamesUntilFailure(results)|]).None?
  {
    if results != [] && GameOf(results[0]).Some? {
      GamesUntilFailureIsPrefix(results[1..]);
    }
  }

  /** One step of the loop: element `i` either adds its record or ends the list. */
  lemma GamesUntilFailureAt(results: seq<Json>, i: nat)
    requires i < |results|
    ensures GameOf(results[i]).None? ==> GamesUntilFailure(results[i..]) == []
    ensures GameOf(results[i]).Some? ==>
      GamesUntilFailure(results[i..]) == [GameOf(results[i]).value] + GamesUntilFailure(results[i + 1..])
  {
    assert results[i..][0] == results[i] && results[i..][1..] == results[i + 1..];
  }

  /**
   * What `extractFeatureFromJson` returns: null for null or empty text, and
   * otherwise a list, empty when the document fails before the loop.
   */
  function ExtractedGames(gameJson: Option<string>, parse: string -> Option<Json>): (r: Option<seq<Games>>)
    ensures r.None? <==> gameJson.None? || gameJson.value == ""
  {
    if gameJson.None? || gameJson.value == "" then None
    else match parse(gameJson.value)
      case None => Some([])
      case Some(root) =>
        match ResultsArray(root)
        case None => Some([])
        case Some(results) => Some(GamesUntilFailure(results))
  }

  /**
   * The body of the loop over `results` for one element: reads the four
   * fields with `optString`, then walks `tags`, keeping the `webTitle` of the
   * tag read last. `None` stands for the `JSONException` thrown when the
   * element or one of its tags is not an object, or `tags` is not an array.
   */
  method ExtractGame(element: Json) returns (game: Option<Games>)
    ensures game == GameOf(element)
  {
    if !element.JObject? {
      return None;
    }
    var currentGame := element.members;
    var section := OptString(currentGame, "sectionName");
    var dateAndTime := OptString(currentGame, "webPublicationDate");
    var title := OptString(currentGame, "webTitle");
    var url := OptString(currentGame, "webUrl");
    var tags := GetJsonArray(currentGame, "tags");
    if tags.None? {
      return None;
    }
    var webTitle: Option<string> := None;
    var b := 0;
    while b < |tags.value|
      invariant 0 <= b <= |tags.value|
      invariant forall k :: 0 <= k < b ==> tags.value[k].JObject?
      invariant webTitle == if b == 0 then None else Some(OptString(tags.value[b - 1].members, "webTitle"))
    {
      var currentTag := ElementObject(tags.value, b);
      if currentTag.None? {
        assert !TagsWellFormed(tags.value);
        return None;
      }
      webTitle := Some(OptString(currentTag.value, "webTitle"));
      b := b + 1;
    }
    game := Some(NewGames(section, webTitle, dateAndTime, title, url));
  }

  /**
   * `extractFeatureFromJson`. `parse` is the `org.json` text parser, a
   * partial function. Each early `return Some(games)` is the catch of
   * `JSONException` handing back the list built so far.
   */
  method ExtractFeatureFromJson(gameJson: Option<string>, parse: string -> Option<Json>)
    returns (result: Option<seq<Games>>)
    ensures result == ExtractedGames(gameJson, parse)
  {
    if gameJson.None? || gameJson.value == "" {
      return None;
    }
    var games: seq<Games> := [];
    var baseJsonResponse := parse(gameJson.value);
    if baseJsonResponse.None? || !baseJsonResponse.value.JObject? {
      return Some(games);
    }
    var gameObject := GetJsonObject(baseJsonResponse.value.members, "response");
    if gameObject.None? {
      return Some(games);
    }
    var results := GetJsonArray(gameObject.value, "results");
    if results.None? {
      return Some(games);
    }
    var gameArray := results.value;
    assert ExtractedGames(gameJson, parse) == Some(GamesUntilFailure(gameArray));
    var i := 0;
    while i < |gameArray|
      invariant 0 <= i <= |gameArray|
      invariant ExtractedGames(gameJson, parse) == Some(GamesUntilFailure(gameArray))
      invariant GamesUntilFailure(gameArray) == games + GamesUntilFailure(gameArray[i..])
    {
      GamesUntilFailureAt(gameArray, i);
      var game := ExtractGame(gameArray[i]);
      if game.None? {
        assert games + [] == games;
        return Some(games);
      }
      games := games + [game.value];
      i := i + 1;
    }
    assert gameArray[i..] == [] && games + [] == games;
    result := Some(games);
  }

  /** A well-formed `results` array of N elements gives exactly N records, in array order. */
  lemma WellFormedResultsGiveEveryRecord(gameJson: Option<string>, parse: string -> Option<Json>,
                                         root: Json, results: seq<Json>)
    requires gameJson.Some? && gameJson.value != ""
    requires parse(gameJson.value) == Some(root) && ResultsArray(root) == Some(results)
    requires forall k :: 0 <= k < |results| ==> GameOf(results[k]).Some?
    ensures ExtractedGames(gameJson, parse).Some?
    ensures |ExtractedGames(gameJson, parse).value| == |results|
    ensures forall k :: 0 <= k < |results| ==>
      ExtractedGames(gameJson, parse).value[k] == GameOf(results[k]).value
  {
    GamesUntilFailureIsPrefix(results);
  }

  /**
   * When element k is the first that throws, the result is exactly the
   * records of elements 0..k-1: nothing built earlier is lost.
   */
  lemma FailureKeepsEarlierRecords(gameJson: Option<string>, parse: string -> Option<Json>,
                                   root: Json, results: seq<Json>, k: nat)
    requires gameJson.Some? && gameJson.value != ""
    requires parse(gameJson.value) == Some(root) && ResultsArray(root) == Some(results)
    requires k < |results| && GameOf(results[k]).None?
    requires forall j :: 0 <= j < k ==> GameOf(results[j]).Some?
    ensures ExtractedGames(gameJson, parse).Some?
    ensures |ExtractedGames(gameJson, parse).value| == k
    ensures forall j :: 0 <= j < k ==>
      ExtractedGames(gameJson, parse).value[j] == GameOf(results[j]).value
  {
    GamesUntilFailureIsPrefix(results);
  }


  /**
   * Text that cannot be parsed into an object holding `response.results`
   * gives an empty list, not null.
   */
  lemma FailureBeforeLoopGivesEmptyList(gameJson: Option<string>, parse: string -> Option<Json>)
    requires gameJson.Some? && gameJson.value != ""
    requires parse(gameJson.value).None? || ResultsArray(parse(gameJson.value).value).None?
    ensures ExtractedGames(gameJson, parse) == Some([])
  {
  }

  /**
   * The four article keys go to their own fields, "" when a key is missing;
   * the article `webTitle` is the title, never the author.
   */
  lemma ArticleFieldsDefaultToEmpty(e: Json)
    requires GameOf(e).Some?
    ensures GameOf(e).value.section == OptString(e.members, "sectionName")
    ensures GameOf(e).value.timeAndDate == OptString(e.members, "webPublicationDate")
    ensures GameOf(e).value.title == OptString(e.members, "webTitle")
    ensures GameOf(e).value.url == OptString(e.members, "webUrl")
    ensures "sectionName" !in e.members ==> GameOf(e).value.section == ""
    ensures "webPublicationDate" !in e.members ==> GameOf(e).value.timeAndDate == ""
    ensures "webTitle" !in e.members ==> GameOf(e).value.title == ""
    ensures "webUrl" !in e.members ==> GameOf(e).value.url == ""
  {
  }

  /** The author is the `webTitle` of the last tag, and null when `tags` is empty. */
  lemma AuthorIsLastTagTitle(e: Json)
    requires GameOf(e).Some?
    ensures var tags := e.members["tags"].items;
      && (tags == [] ==> GameOf(e).value.author.None?)
      && (tags != [] ==> GameOf(e).value.author == Some(OptString(tags[|tags| - 1].members, "webTitle")))
  {
  }

  /** Tags before the last one have no effect on the record. */
  lemma EarlierTagsIgnored(article: map<string, Json>, before1: seq<Json>, before2: seq<Json>, last: Json)
    requires TagsWellFormed(before1) && TagsWellFormed(before2) && last.JObject?
    ensures GameOf(JObject(article["tags" := JArray(before1 + [last])]))
         == GameOf(JObject(article["tags" := JArray(before2 + [last])]))
    ensures GameOf(JObject(article["tags" := JArray(before1 + [last])])).Some?
  {
    assert TagsWellFormed(before1 + [last]) by {
      forall k | 0 <= k < |before1 + [last]| ensures (before1 + [last])[k].JObject? {
        if k < |before1| { assert (before1 + [last])[k] == before1[k]; }
      }
    }
    assert TagsWellFormed(before2 + [last]) by {
      forall k | 0 <= k < |before2 + [last]| ensures (before2 + [last])[k].JObject? {
        if k < |before2| { assert (before2 + [last])[k] == before2[k]; }
      }
    }
  }

  // ---------------------------------------------------------------------------
  // The pipeline
  // ---------------------------------------------------------------------------

  /** What `fetchGamesData` returns. */
  function FetchedGames(requestUrl: Option<string>, isWellFormed: string -> bool,
                        exchange: Exchange, parse: string -> Option<Json>): Option<seq<Games>>
  {
    ExtractedGames(Some(ResponseText(CreateUrl(requestUrl, isWellFormed), exchange)), parse)
  }

  /** `fetchGamesData`: builds the URL, requests the body and extracts the records from it. */
  method FetchGamesData(requestUrl: Option<string>, isWellFormed: string -> bool,
                        exchange: Exchange, parse: string -> Option<Json>)
    returns (game: Option<seq<Games>>)
    ensures game == FetchedGames(requestUrl, isWellFormed, exchange, parse)
  {
    var url := CreateUrl(requestUrl, isWellFormed);
    var jsonResponse := MakeHttpRequest(url, exchange);
    game := ExtractFeatureFromJson(Some(jsonResponse), parse);
  }

  /** A null or malformed URL never reaches the network, so the pipeline returns null. */
  lemma NullUrlGivesNull(requestUrl: Option<string>, isWellFormed: string -> bool,
                         exchange: Exchange, parse: string -> Option<Json>)
    requires CreateUrl(requestUrl, isWellFormed).None?
    ensures FetchedGames(requestUrl, isWellFormed, exchange, parse).None?
  {
  }

  /** A failed connection or a status other than 200 leaves the body "", so the pipeline returns null. */
  lemma FailedRequestGivesNull(requestUrl: Option<string>, isWellFormed: string -> bool,
                               exchange: Exchange, parse: string -> Option<Json>)
    requires exchange.Failed? || exchange.status != HTTP_OK
    ensures FetchedGames(requestUrl, isWellFormed, exchange, parse).None?
  {
  }

  /**
   * A 200 answer is extracted from its body with every line terminator
   * removed; a body made only of line breaks is as good as none.
   */
  lemma AnsweredBodyIsExtracted(requestUrl: Option<string>, isWellFormed: string -> bool,
                                body: string, parse: string -> Option<Json>)
    requires CreateUrl(requestUrl, isWellFormed).Some?
    ensures FetchedGames(requestUrl, isWellFormed, Answered(HTTP_OK, body), parse)
         == ExtractedGames(Some(WithoutLineTerminators(body)), parse)
    ensures (forall k :: 0 <= k < |body| ==> IsLineTerminator(body[k])) ==>
      FetchedGames(requestUrl, isWellFormed, Answered(HTTP_OK, body), parse).None?
  {
    ConcatLines(body);
    if forall k :: 0 <= k < |body| ==> IsLineTerminator(body[k]) {
      OnlyTerminatorsLeaveNothing(body);
    }
  }

  lemma {:induction false} OnlyTerminatorsLeaveNothing(s: string)
    requires forall k :: 0 <= k < |s| ==> IsLineTerminator(s[k])
    ensures WithoutLineTerminators(s) == ""
  {
    if s != [] {
      assert forall k :: 0 <= k < |s[1..]| ==> s[1..][k] == s[k + 1];
      OnlyTerminatorsLeaveNothing(s[1..]);
    }
  }

  /**
   * One article with one contributor tag, in a well-formed response, gives
   * one record; the text itself stands for whatever `parse` accepts.
   */
  lemma OneArticleScenario(text: string)
    requires text != ""
    ensures var article := JObject(map[
              "sectionName" := JString("Games"),
              "webPublicationDate" := JString("2018-03-28T08.00.15Z"),
              "webTitle" := JString("Review"),
              "webUrl" := JString("https://x.test/a"),
              "tags" := JArray([JObject(map["webTitle" := JString("J. Doe")])])]);
      var root := JObject(map["response" := JObject(map["results" := JArray([article])])]);
      ExtractedGames(Some(text), (t: string) => Some(root))
        == Some([NewGames("Games", Some("J. Doe"), "2018-03-28T08.00.15Z", "Review", "https://x.test/a")])
  {
    var tags := [JObject(map["webTitle" := JString("J. Doe")])];
    var members := map[
      "sectionName" := JString("Games"),
      "webPublicationDate" := JString("2018-03-28T08.00.15Z"),
      "webTitle" := JString("Review"),
      "webUrl" := JString("https://x.test/a"),
      "tags" := JArray(tags)];
    var game := NewGames("Games", Some("J. Doe"), "2018-03-28T08.00.15Z", "Review", "https://x.test/a");
    assert LastTagTitle(tags) == Some("J. Doe");
    assert GameOf(JObject(members)) == Some(game);
    assert [JObject(members)][1..] == [];
    assert GamesUntilFailure([JObject(members)]) == [game];
  }

  /** With tags titled "A" then "B", the author is "B". */
  lemma TwoTagsScenario(article: map<string, Json>)
    ensures var e := JObject(article["tags" := JArray([JObject(map["webTitle" := JString("A")]),
                                                       JObject(map["webTitle" := JString("B")])])]);
      GameOf(e).Some? && GameOf(e).value.author == Some("B")
  {
  }

  /** An empty `results` array gives an empty list, which is not null. */
  lemma EmptyResultsScenario(text: string)
    requires text != ""
    ensures var root := JObject(map["response" := JObject(map["results" := JArray([])])]);
      ExtractedGames(Some(text), (t: string) => Some(root)) == Some([])
  {
  }
}
