# Games news reader: fetch, extract and display, in Dafny

This project models the deterministic core of a small Android news reader.
The reader asks The Guardian's content API for game articles and turns the JSON
answer into a list of `Games` records. The list then shows each record with its
timestamp cut into a date and a time. The model covers four things:

- **Games record** (`games.dfy`, module `GamesRecord`). The record is an
  immutable value with five fields. The constructor takes its arguments in
  the order section, author, timeAndDate, title, url. This differs from the
  order in which the class declares its fields. The datatype's destructors
  play the part of the getters.
- **Parsed JSON and the `org.json` accessors** (`json.dfy`, module `Json`).
  An already-parsed document is an object (a map), an array, a string or a
  scalar. `getJSONObject`, `getJSONArray` and the array's `getJSONObject(i)`
  throw `JSONException`, which the model writes as `None`. `optString`
  defaults to `""`.
- **`QueryUtils`** (`query_utils.dfy`). This part covers:
  - `readFromStream`, as a loop that calls `BufferedReader.readLine`. Lines
    end at `\n`, `\r` or `\r\n`.
  - the null-URL early return of `makeHttpRequest` and its branch on the
    status code.
  - `extractFeatureFromJson`, as a method with the source's loops and early
    exits.
  - the composition in `fetchGamesData`.

  Each method is proved equal to a specification function. Lemmas about those
  functions state what the source promises: null versus an empty list, N
  records in array order, `""` defaults, the last tag as author, and the
  prefix kept when an exception is caught.
- **`GamesAdapter.getView`'s text** (`games_adapter.dfy`). Java's
  `String.split("T")` keeps a leading empty piece, drops trailing empty
  pieces, and returns the whole text when there is no "T". The date is
  piece 0. The time is piece 1 with its last four characters cut off. The
  model gives the exact condition under which this does not throw, counting
  characters as Unicode scalar values (see "## Left out").
- **`GameLoader.loadInBackground`** (`game_loader.dfy`). A null URL gives
  null without a request.

Outside inputs are parameters:
- the `org.json` text parser, `parse: string -> Option<Json>`;
- which strings `java.net.URL` accepts, `isWellFormed`;
- what the server exchange produced, `Exchange`: a status code and the body's
  characters, or an I/O failure.

In `extractFeatureFromJson`, `catch (JSONException)` returns the list built so
far. So a failure at element k keeps the records of elements 0..k-1, rather
than emptying the list. An article whose `tags` array is empty gets a `null`
author, not `""`.

The loop body for one `results` element (source lines 174-205) is the method
`QueryUtils.ExtractGame`. `QueryUtils.ExtractFeatureFromJson` calls it once per
element and returns on its `None`, as the catch does.

## Model

| member | source | states |
|---|---|---|
| GamesRecord.NewGames | app/src/main/java/com/example/android/gamesnews/Games.java:43-84 | getSection, getAuthor, getTimeAndDate, getTitle and getUrl return the 1st, 2nd, 3rd, 4th and 5th constructor argument; the time goes to timeAndDate, not to title |
| GamesRecord.NewGamesFromGetters | app/src/main/java/com/example/android/gamesnews/Games.java:7-85 | every record is the constructor applied to its own getters: there is no other state and nothing changes it |
| GamesRecord.NewGamesInjective | app/src/main/java/com/example/android/gamesnews/Games.java:43-48 | two records give the same value from every getter exactly when their constructors received the same five arguments |
| Json.OptString | app/src/main/java/com/example/android/gamesnews/utils/QueryUtils.java:177-186 | a missing key gives "", a string value gives that string, a scalar gives its printed form |
| Json.GetJsonObject | app/src/main/java/com/example/android/gamesnews/utils/QueryUtils.java:165 | succeeds exactly when the key holds an object, and then yields that object |
| Json.GetJsonArray | app/src/main/java/com/example/android/gamesnews/utils/QueryUtils.java:168-189 | succeeds exactly when the key holds an array, and then yields its elements |
| Json.ElementObject | app/src/main/java/com/example/android/gamesnews/utils/QueryUtils.java:174-195 | element i of an array can be read as an object exactly when it is one |
| QueryUtils.ReadLine | app/src/main/java/com/example/android/gamesnews/utils/QueryUtils.java:135-138 | null exactly at the end of input; otherwise the line is the longest prefix without a terminator, and exactly one terminator after it is consumed: two characters for "\r\n", one for "\n" or a lone "\r", none at the end of input |
| QueryUtils.ReadLineDropsOnlyTerminators | app/src/main/java/com/example/android/gamesnews/utils/QueryUtils.java:135-138 | what readLine consumes beyond the line it returns is line terminators only |
| QueryUtils.ConcatLines | app/src/main/java/com/example/android/gamesnews/utils/QueryUtils.java:130-142 | the lines appended with no separator equal the input with every line terminator removed |
| QueryUtils.ReadFromStream | app/src/main/java/com/example/android/gamesnews/utils/QueryUtils.java:130-142 | a null stream gives ""; otherwise the concatenation of all lines, which is the input without line terminators |
| QueryUtils.CreateUrl | app/src/main/java/com/example/android/gamesnews/utils/QueryUtils.java:72-80 | a URL exactly when the text is present and well formed, null otherwise |
| QueryUtils.MakeHttpRequest | app/src/main/java/com/example/android/gamesnews/utils/QueryUtils.java:85-124 | a null URL gives "" whatever the exchange; otherwise the read body of a 200 answer, and "" for other statuses or an I/O failure |
| QueryUtils.ResultsArray | app/src/main/java/com/example/android/gamesnews/utils/QueryUtils.java:162-168 | the results array is reached exactly when the document is an object whose `response` is an object whose `results` is an array, and the result is then that array's elements |
| QueryUtils.GameOf | app/src/main/java/com/example/android/gamesnews/utils/QueryUtils.java:174-202 | an element yields a record exactly when it is an object whose `tags` is an array of objects |
| QueryUtils.GamesUntilFailure | app/src/main/java/com/example/android/gamesnews/utils/QueryUtils.java:170-206 | never more records than elements |
| QueryUtils.GamesUntilFailureIsPrefix | app/src/main/java/com/example/android/gamesnews/utils/QueryUtils.java:170-213 | record k is the record of element k, in array order, and the list stops only at an element that throws |
| QueryUtils.ExtractedGames | app/src/main/java/com/example/android/gamesnews/utils/QueryUtils.java:148-216 | null exactly for null or empty text; any other text gives a list, even when parsing fails |
| QueryUtils.ExtractGame | app/src/main/java/com/example/android/gamesnews/utils/QueryUtils.java:174-205 | the loop body for one element, including the inner loop over tags, produces that element's record or throws exactly as specified |
| QueryUtils.ExtractFeatureFromJson | app/src/main/java/com/example/android/gamesnews/utils/QueryUtils.java:148-217 | the method with its loops and caught exceptions returns exactly the specified result |
| QueryUtils.WellFormedResultsGiveEveryRecord | app/src/main/java/com/example/android/gamesnews/utils/QueryUtils.java:168-206 | N well-formed result elements give exactly N records, record k being element k's |
| QueryUtils.FailureKeepsEarlierRecords | app/src/main/java/com/example/android/gamesnews/utils/QueryUtils.java:160-216 | when element k is the first to throw, the extraction returns a list of exactly k records, record j being element j's for every j < k |
| QueryUtils.FailureBeforeLoopGivesEmptyList | app/src/main/java/com/example/android/gamesnews/utils/QueryUtils.java:155-216 | unparseable text, or a document without `response.results`, gives an empty list and not null |
| QueryUtils.ArticleFieldsDefaultToEmpty | app/src/main/java/com/example/android/gamesnews/utils/QueryUtils.java:176-202 | sectionName, webPublicationDate, webTitle and webUrl go to section, timeAndDate, title and url, each "" when missing |
| QueryUtils.AuthorIsLastTagTitle | app/src/main/java/com/example/android/gamesnews/utils/QueryUtils.java:189-198 | the author is the last tag's webTitle, and null when `tags` is empty |
| QueryUtils.EarlierTagsIgnored | app/src/main/java/com/example/android/gamesnews/utils/QueryUtils.java:190-198 | any well-formed tags before the last one leave the record unchanged |
| QueryUtils.OneArticleScenario | app/src/main/java/com/example/android/gamesnews/utils/QueryUtils.java:162-205 | one article with one tag gives the one record with every field in its place |
| QueryUtils.TwoTagsScenario | app/src/main/java/com/example/android/gamesnews/utils/QueryUtils.java:189-198 | tags titled "A" then "B" give the author "B" |
| QueryUtils.EmptyResultsScenario | app/src/main/java/com/example/android/gamesnews/utils/QueryUtils.java:155-171 | an empty `results` array gives an empty list, not null |
| QueryUtils.FetchGamesData | app/src/main/java/com/example/android/gamesnews/utils/QueryUtils.java:50-67 | the URL, the request and the extraction composed as specified |
| QueryUtils.NullUrlGivesNull | app/src/main/java/com/example/android/gamesnews/utils/QueryUtils.java:50-91 | a null or malformed URL makes the pipeline return null |
| QueryUtils.FailedRequestGivesNull | app/src/main/java/com/example/android/gamesnews/utils/QueryUtils.java:104-111 | an I/O failure or a status other than 200 makes the pipeline return null |
| QueryUtils.AnsweredBodyIsExtracted | app/src/main/java/com/example/android/gamesnews/utils/QueryUtils.java:104-106 | a 200 answer is extracted from its body with line terminators removed; a body of line breaks only gives null |
| GameLoader.LoadInBackground | app/src/main/java/com/example/android/gamesnews/GameLoader.java:40-47 | a null URL gives null, otherwise the pipeline's result |
| GamesAdapter.BeforeSeparator | app/src/main/java/com/example/android/gamesnews/GamesAdapter.java:92-94 | the longest prefix without "T", followed by "T" or by the end of the text |
| GamesAdapter.AfterSeparator | app/src/main/java/com/example/android/gamesnews/GamesAdapter.java:92-96 | the text is the prefix before the first "T", a "T", and this rest |
| GamesAdapter.Pieces | app/src/main/java/com/example/android/gamesnews/GamesAdapter.java:92 | at least one piece, the first being the text before the first "T", and no piece contains "T" |
| GamesAdapter.JoinPieces | app/src/main/java/com/example/android/gamesnews/GamesAdapter.java:92 | joining the pieces with "T" gives back the timestamp |
| GamesAdapter.PiecesAllEmpty | app/src/main/java/com/example/android/gamesnews/GamesAdapter.java:92 | every piece is empty exactly when the text consists of "T"s only |
| GamesAdapter.DropTrailingEmpty | app/src/main/java/com/example/android/gamesnews/GamesAdapter.java:92 | a prefix of the pieces that drops only empty pieces and ends in a non-empty one |
| GamesAdapter.Split | app/src/main/java/com/example/android/gamesnews/GamesAdapter.java:22-92 | a text without "T" gives the one-element list of itself; otherwise the pieces between the "T"s with exactly the trailing empty pieces dropped (a leading empty piece is kept) |
| GamesAdapter.SplitHasDate | app/src/main/java/com/example/android/gamesnews/GamesAdapter.java:92-94 | element 0 exists exactly when the timestamp is empty or has a character other than "T" |
| GamesAdapter.DisplayableIff | app/src/main/java/com/example/android/gamesnews/GamesAdapter.java:92-106 | indexing element 1 and cutting 4 characters succeed exactly when there is a "T" and the piece right after it has at least 4 characters |
| GamesAdapter.PublicationDate | app/src/main/java/com/example/android/gamesnews/GamesAdapter.java:88-94 | the date is the text before the first "T", contains no "T", and is "" when the timestamp starts with "T" |
| GamesAdapter.PublicationTime | app/src/main/java/com/example/android/gamesnews/GamesAdapter.java:96-106 | the time is the piece after the first "T", up to the next "T" or the end, minus its last 4 characters |
| GamesAdapter.GetView | app/src/main/java/com/example/android/gamesnews/GamesAdapter.java:73-110 | section, author and title are shown unchanged; date and time are cut from the timestamp as above |
| GamesAdapter.DateAndTimeOfTimestamp | app/src/main/java/com/example/android/gamesnews/GamesAdapter.java:86-106 | date + "T" + piece with no "T" inside and a piece of 4 or more characters shows that date and that piece minus 4 characters |
| GamesAdapter.TimestampScenario | app/src/main/java/com/example/android/gamesnews/GamesAdapter.java:86-106 | "2018-03-28T08.00.15Z" shows the date "2018-03-28" and the time "08.00" |

## Left out

- Network I/O in `makeHttpRequest`: opening the connection, the 10000 ms read and 15000 ms connect timeouts, the GET, disconnecting and closing the stream. What the exchange produced is a parameter.
- An `IOException` from closing the input stream. It would leave `fetchGamesData` with a null response, which gives null, the same as the empty one.
- Parsing JSON text: `new JSONObject(text)` is the parameter `parse`.
- Json.OptString: a key that holds a nested object or array gives "" here. In `org.json` it gives that value's JSON text. The JSON grammar and printer are not part of this model.
- UTF-8 decoding of the response bytes. The stream is given as decoded characters.
- `createUrl`: what `java.net.URL` accepts is the parameter `isWellFormed`.
- `Log.e` calls, which are logging only.
- GamesActivity.java: the UI, connectivity check, preferences, menu and intents, and the query URL built with `Uri.Builder`.
- The background thread of the `AsyncTaskLoader`. Only the null-URL check of `loadInBackground` is modelled.
- View inflation, the ViewHolder and the `setText` calls in `getView`. `String.format` on the time is taken as the identity, which holds for text without `%`.
- GamesAdapter.DisplayableIff, GamesAdapter.PublicationTime, GamesAdapter.GetView and GamesAdapter.DateAndTimeOfTimestamp: a string is a sequence of Unicode characters here, while Java's `length()` and `substring` count UTF-16 code units. The four-character condition and the four-character cut agree with Java only for text without characters outside the Basic Multilingual Plane, such as the ASCII timestamps the content API sends.
- A null timestamp in `getView`, which would throw a `NullPointerException`. Records built by the extraction never have one. Only `author` can be null in the model.
