/**
 * The `Games` record: one news article as the list shows it. It is an
 * immutable value; there are no setters, so a datatype models it exactly.
 */
module GamesRecord {
  import opened Wrappers

  /**
   * The five fields, in the order the class declares them. The destructors
   * `section`, `author`, `title`, `timeAndDate` and `url` are the getters.
   * `author` is the only field the extraction can leave `null` (`None`).
   */
  datatype Games = Games(
    section: string,
    author: Option<string>,
    title: string,
    timeAndDate: string,
    url: string)

  /**
   * The constructor. Its argument order (section, author, timeAndDate, title,
   * url) differs from the field order; each getter returns its own argument.
   */
  function NewGames(section: string, author: Option<string>, timeAndDate: string,
                    title: string, url: string): (g: Games)
    ensures g.section == section && g.author == author
    ensures g.timeAndDate == timeAndDate && g.title == title && g.url == url
  {
    Games(section, author, title, timeAndDate, url)
  }

  /** Every record is built by the constructor from what its getters return. */
  lemma NewGamesFromGetters(g: Games)
    ensures NewGames(g.section, g.author, g.timeAndDate, g.title, g.url) == g
  {
  }

  /** Two records answer every getter alike exactly when their constructors received equal arguments. */
  lemma NewGamesInjective(s1: string, a1: Option<string>, d1: string, t1: string, u1: string,
                          s2: string, a2: Option<string>, d2: string, t2: string, u2: string)
    ensures var g1, g2 := NewGames(s1, a1, d1, t1, u1), NewGames(s2, a2, d2, t2, u2);
      (g1.section == g2.section && g1.author == g2.author && g1.timeAndDate == g2.timeAndDate
       && g1.title == g2.title && g1.url == g2.url)
        <==> s1 == s2 && a1 == a2 && d1 == d2 && t1 == t2 && u1 == u2
  {
  }
}
