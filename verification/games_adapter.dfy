/**
 * The part of `GamesAdapter.getView` that is plain computation: which text
 * each field of a list item shows, and how the publication timestamp is cut
 * into a date and a time with `String.split("T")` and `substring`.
 */
module GamesAdapter {
  import opened Wrappers
  import opened GamesRecord

  /** `DATE_SEPARATOR`. */
  const DateSeparator: char := 'T'

  predicate NoSeparator(s: string) {
    forall k :: 0 <= k < |s| ==> s[k] != DateSeparator
  }

  /** The text before the first separator; all of `s` when it has none. */
  function BeforeSeparator(s: string): (r: string)
    ensures |r| <= |s| && s[..|r|] == r && NoSeparator(r)
    ensures |r| < |s| ==> s[|r|] == DateSeparator
    ensures DateSeparator !in s ==> r == s
  {
    if s == [] || s[0] == DateSeparator then [] else [s[0]] + BeforeSeparator(s[1..])
  }

  /** The text after the first separator. */
  function AfterSeparator(s: string): (r: string)
    requires DateSeparator in s
    ensures s == BeforeSeparator(s) + [DateSeparator] + r
  {
    var n := |BeforeSeparator(s)|;
    assert n < |s| && s == s[..n] + [s[n]] + s[n + 1..];
    s[n + 1..]
  }

  /** The pieces between separators, empty pieces included: the split before Java drops trailing empties. */
  function Pieces(s: string): (r: seq<string>)
    ensures |r| >= 1 && r[0] == BeforeSeparator(s)
    ensures forall j :: 0 <= j < |r| ==> NoSeparator(r[j])
    decreases |s|
  {
    if DateSeparator !in s then [s] else [BeforeSeparator(s)] + Pieces(AfterSeparator(s))
  }

  /** The pieces glued back together with the separator. */
  function Join(pieces: seq<string>): string
    requires |pieces| >= 1
  {
    if |pieces| == 1 then pieces[0] else pieces[0] + [DateSeparator] + Join(pieces[1..])
  }

  /** Cutting at every separator loses nothing: joining the pieces gives the text back. */
  lemma {:induction false} JoinPieces(s: string)
    ensures Join(Pieces(s)) == s
    decreases |s|
  {
    if DateSeparator in s {
      JoinPieces(AfterSeparator(s));
      assert Pieces(s)[1..] == Pieces(AfterSeparator(s));
    }
  }

  /** Every piece is empty exactly when the text is nothing but separators. */
  lemma {:induction false} PiecesAllEmpty(s: string)
    ensures (forall j :: 0 <= j < |Pieces(s)| ==> Pieces(s)[j] == "")
        <==> (forall k :: 0 <= k < |s| ==> s[k] == DateSeparator)
    decreases |s|
  {
    if DateSeparator in s {
      var before, after := BeforeSeparator(s), AfterSeparator(s);
      PiecesAllEmpty(after);
      var ps := Pieces(s);
      assert ps == [before] + Pieces(after);
      if forall k :: 0 <= k < |s| ==> s[k] == DateSeparator {
        assert before == [];
        forall k | 0 <= k < |after| ensures after[k] == DateSeparator {
          assert after[k] == s[|before| + 1 + k];
        }
      }
      if forall j :: 0 <= j < |ps| ==> ps[j] == "" {
        assert before == ps[0];
        forall j | 0 <= j < |Pieces(after)| ensures Pieces(after)[j] == "" {
          assert Pieces(after)[j] == ps[j + 1];
        }
        forall k | 0 <= k < |s| ensures s[k] == DateSeparator {
          if k > 0 { assert s[k] == after[k - 1]; }
        }
      }
    } else if s != [] {
      assert Pieces(s)[0] == s && s[0] != DateSeparator;
    }
  }

  /** Drops the empty strings at the end of the list, as `String.split` does. */
  function DropTrailingEmpty(pieces: seq<string>): (r: seq<string>)
    ensures |r| <= |pieces| && r == pieces[..|r|]
    ensures forall j :: |r| <= j < |pieces| ==> pieces[j] == ""
    ensures r == [] || r[|r| - 1] != ""
  {
    if pieces == [] then []
    else if pieces[|pieces| - 1] == "" then DropTrailingEmpty(pieces[..|pieces| - 1])
    else pieces
  }

  /**
   * `s.split("T")`: a text without "T" gives itself; otherwise the pieces
   * between occurrences, with a leading empty piece kept and trailing empty
   * pieces dropped.
   */
  function Split(s: string): (r: seq<string>)
    ensures |r| <= |Pieces(s)| && r == Pieces(s)[..|r|]
    ensures forall j :: 0 <= j < |r| ==> NoSeparator(r[j])
    ensures DateSeparator !in s ==> r == [s]
    ensures DateSeparator in s ==>
      (r == [] || r[|r| - 1] != "") && forall j :: |r| <= j < |Pieces(s)| ==> Pieces(s)[j] == ""
  {
    if DateSeparator !in s then [s] else DropTrailingEmpty(Pieces(s))
  }

  /** Element 0 of the split exists unless the text is one or more separators and nothing else. */
  lemma SplitHasDate(s: string)
    ensures |Split(s)| >= 1 <==> s == "" || exists k :: 0 <= k < |s| && s[k] != DateSeparator
  {
    PiecesAllEmpty(s);
  }

  /** `getView` can index element 1 and cut four characters off it. */
  predicate Displayable(timestamp: string) {
    |Split(timestamp)| >= 2 && |Split(timestamp)[1]| >= 4
  }

  /**
   * The exact condition under which the date/time derivation does not throw:
   * the timestamp has a "T", and the piece right after the first "T" has at
   * least four characters.
   */
  lemma DisplayableIff(timestamp: string)
    ensures Displayable(timestamp) <==>
      DateSeparator in timestamp && |BeforeSeparator(AfterSeparator(timestamp))| >= 4
  {
    if DateSeparator in timestamp {
      var ps := Pieces(timestamp);
      assert ps[1..] == Pieces(AfterSeparator(timestamp));
      assert ps[1] == BeforeSeparator(AfterSeparator(timestamp));
    }
  }

  /** `dateWithoutTime[0]`: the text before the first "T" ("" when the timestamp starts with "T"). */
  function PublicationDate(timestamp: string): (date: string)
    requires |Split(timestamp)| >= 1
    ensures date == BeforeSeparator(timestamp)
    ensures NoSeparator(date) && timestamp[..|date|] == date
    ensures |timestamp| > 0 && timestamp[0] == DateSeparator ==> date == ""
  {
    Split(timestamp)[0]
  }

  /**
   * `dateWithoutTime[1]` with its last four characters cut off: the text
   * after the first "T", up to the next "T" or the end, minus four characters.
   */
  function PublicationTime(timestamp: string): (time: string)
    requires Displayable(timestamp)
    ensures DateSeparator in timestamp
    ensures var piece := BeforeSeparator(AfterSeparator(timestamp));
      |piece| >= 4 && time == piece[..|piece| - 4]
    ensures NoSeparator(time)
  {
    DisplayableIff(timestamp);
    assert Pieces(timestamp)[1..] == Pieces(AfterSeparator(timestamp));
    var piece := Split(timestamp)[1];
    piece[..|piece| - 4]
  }

  /** What one row of the list shows. */
  datatype ListItem = ListItem(section: string, author: Option<string>, date: string,
                               time: string, title: string)

  /**
   * The texts `getView` puts on the five views: section, author and title
   * unchanged, the date and time cut out of the timestamp. `String.format`
   * on the time is taken as the identity.
   */
  function GetView(currentItem: Games): (item: ListItem)
    requires Displayable(currentItem.timeAndDate)
    ensures item.section == currentItem.section
    ensures item.author == currentItem.author
    ensures item.title == currentItem.title
    ensures item.date == BeforeSeparator(currentItem.timeAndDate)
    ensures var piece := BeforeSeparator(AfterSeparator(currentItem.timeAndDate));
      item.time == piece[..|piece| - 4]
  {
    var currentDate := currentItem.timeAndDate;
    ListItem(currentItem.section, currentItem.author, PublicationDate(currentDate),
             PublicationTime(currentDate), currentItem.title)
  }

  /** Text without a separator, a separator, then anything: the cut falls at that separator. */
  lemma CutAtFirstSeparator(date: string, rest: string)
    requires NoSeparator(date)
    ensures BeforeSeparator(date + [DateSeparator] + rest) == date
    ensures AfterSeparator(date + [DateSeparator] + rest) == rest
  {
    var s := date + [DateSeparator] + rest;
    assert s[|date|] == DateSeparator;
    assert forall k :: 0 <= k < |date| ==> s[k] == date[k];
    assert s[..|date|] == date;
    assert s[|date| + 1..] == rest;
  }

  /**
   * A timestamp made of a date without "T", a "T", and a time piece of at
   * least four characters without "T" is displayed as that date and that
   * piece minus its last four characters.
   */
  lemma DateAndTimeOfTimestamp(timestamp: string, date: string, piece: string)
    requires timestamp == date + [DateSeparator] + piece
    requires NoSeparator(date) && NoSeparator(piece) && |piece| >= 4
    ensures Displayable(timestamp)
    ensures PublicationDate(timestamp) == date
    ensures PublicationTime(timestamp) == piece[..|piece| - 4]
  {
    CutAtFirstSeparator(date, piece);
    assert DateSeparator !in piece;
    DisplayableIff(timestamp);
  }

  /** An ISO timestamp as the content API sends it: the date, and the time without seconds and zone. */
  lemma TimestampScenario(timestamp: string)
    requires timestamp == "2018-03-28T08.00.15Z"
    ensures Displayable(timestamp)
    ensures PublicationDate(timestamp) == "2018-03-28"
    ensures PublicationTime(timestamp) == "08.00"
  {
    var date, piece := "2018-03-28", "08.00.15Z";
    assert timestamp == date + [DateSeparator] + piece;
    assert NoSeparator(date) && NoSeparator(piece);
    assert piece[..|piece| - 4] == "08.00";
    DateAndTimeOfTimestamp(timestamp, date, piece);
  }
}
