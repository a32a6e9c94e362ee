/**
 * A worked session of the personal library manager: starting from an empty library,
 * add Dune (read) and 1984 (unread), take the statistics, search for "orwell" and
 * remove "dune".
 */
module Session {
  import opened Text
  import opened Sequences
  import opened Books
  import opened LibraryManager

  /** The two books of the session. */
  const Dune := Book("Dune", "Frank Herbert", 1965, "Sci-Fi", true)
  const Orwell1984 := Book("1984", "George Orwell", 1949, "Dystopian", false)

  /** The lowered fields of the two books. */
  lemma TwoBookLowered()
    ensures Lower("Dune") == "dune" && Lower("Frank Herbert") == "frank herbert"
    ensures Lower("1984") == "1984" && Lower("George Orwell") == "george orwell"
    ensures Lower("orwell") == "orwell" && Lower("dune") == "dune"
  {
  }

  /** On [Dune, 1984]: two books, one read, fifty percent. */
  lemma TwoBookStatistics()
    ensures Statistics([Dune, Orwell1984]) == Stats(2, 1, 50.0)
  {
    assert Filter([Orwell1984], IsRead) == [];
  }

  /** "orwell" occurs in 1984's lowered author. */
  lemma OrwellMatches()
    ensures KeywordMatches(Orwell1984, "orwell")
  {
    TwoBookLowered();
    assert "george orwell"[7..] == "orwell";
    ContainsAt("george orwell", "orwell");
  }

  /** Neither lowered field of Dune holds an 'o'. */
  lemma DuneHasNoO()
    ensures 'o' !in Lower(Dune.title) && 'o' !in Lower(Dune.author)
  {
    TwoBookLowered();
  }

  /** "orwell" occurs in neither lowered field of Dune, since neither holds an 'o'. */
  lemma DuneMissesOrwell()
    ensures !KeywordMatches(Dune, "orwell")
  {
    var keyword := Lower("orwell");
    assert keyword != [] && keyword[0] == 'o';
    DuneHasNoO();
    if Contains(Lower(Dune.title), keyword) {
      ContainsFirstChar(Lower(Dune.title), keyword);
    }
    if Contains(Lower(Dune.author), keyword) {
      ContainsFirstChar(Lower(Dune.author), keyword);
    }
  }

  /** On [Dune, 1984]: the keyword "orwell" finds exactly 1984, through its author. */
  lemma TwoBookSearch()
    ensures Search([Dune, Orwell1984], "orwell") == [Orwell1984]
  {
    OrwellMatches();
    DuneMissesOrwell();
    SearchAfterAdd([Dune], Orwell1984, "orwell");
    SearchAfterAdd([], Dune, "orwell");
    assert [Dune, Orwell1984] == [Dune] + [Orwell1984];
    assert [Dune] == [] + [Dune];
  }

  /** On [Dune, 1984]: removing "dune" drops Dune, whatever the case, and keeps 1984. */
  lemma TwoBookRemove()
    ensures WithoutTitle([Dune, Orwell1984], "dune") == [Orwell1984]
  {
    TwoBookLowered();
    assert TitleMatches(Dune, "dune");
    assert !TitleMatches(Orwell1984, "dune") by {
      assert Lower("1984")[0] != Lower("dune")[0];
    }
  }

  /** A session that adds two books, reads the statistics, searches and removes. */
  method DuneSession()
  {
    var library := new Library(None);
    library.AddBook("Dune", "Frank Herbert", 1965, "Sci-Fi", true);
    library.AddBook("1984", "George Orwell", 1949, "Dystopian", false);
    assert library.books == [Dune, Orwell1984];
    TwoBookStatistics();
    TwoBookSearch();
    TwoBookRemove();
    assert Statistics(library.books).total == 2 && Statistics(library.books).read == 1;
    assert Search(library.books, "orwell") == [Orwell1984];
    var removed := library.RemoveBook("dune");
    assert removed && library.books == [Orwell1984];
  }
}
