/**
 * The book records of the personal library manager (PL.py) and the pure operations
 * on them: the title filter used by removal, keyword search and the read statistics.
 */
module Books {
  import opened Text
  import opened Sequences

  /** One record of the library: the dictionary built by `add_book`. */
  datatype Book = Book(title: string, author: string, year: int, genre: string, read: bool)

  /** Removal's match: the record's title equals `title`, ignoring case. */
  predicate TitleMatches(b: Book, title: string)
  {
    Lower(b.title) == Lower(title)
  }

  /** Search's match: the lowered keyword occurs in the lowered title or the lowered author. */
  predicate KeywordMatches(b: Book, keyword: string)
  {
    Contains(Lower(b.title), Lower(keyword)) || Contains(Lower(b.author), Lower(keyword))
  }

  /** The condition of removal's comprehension, as a value. */
  function NotTitled(title: string): Book -> bool
  {
    b => !TitleMatches(b, title)
  }

  /** The condition of search's comprehension, as a value. */
  function Matching(keyword: string): Book -> bool
  {
    b => KeywordMatches(b, keyword)
  }

  /** The condition of the statistics' comprehension. */
  predicate IsRead(b: Book)
  {
    b.read
  }

  /** The library that `remove_book(title)` leaves: every record whose title matches is dropped. */
  function WithoutTitle(library: seq<Book>, title: string): (r: seq<Book>)
    ensures forall i :: 0 <= i < |r| ==> !TitleMatches(r[i], title)
    ensures IsSubsequence(r, library)
    ensures forall b :: multiset(r)[b] == if TitleMatches(b, title) then 0 else multiset(library)[b]
    ensures |r| < |library| <==> exists i :: 0 <= i < |library| && TitleMatches(library[i], title)
    ensures |r| == |library| ==> r == library
  {
    FilterIsSubsequence(library, NotTitled(title));
    FilterCount(library, NotTitled(title));
    FilterShorter(library, NotTitled(title));
    Filter(library, NotTitled(title))
  }

  /** The result of `search_books(keyword)`: the records whose title or author contains the keyword. */
  function Search(library: seq<Book>, keyword: string): (r: seq<Book>)
    ensures forall i :: 0 <= i < |r| ==> KeywordMatches(r[i], keyword)
    ensures IsSubsequence(r, library)
    ensures forall b :: b in r <==> b in library && KeywordMatches(b, keyword)
    ensures forall b :: multiset(r)[b] == if KeywordMatches(b, keyword) then multiset(library)[b] else 0
    ensures (forall i :: 0 <= i < |library| ==> KeywordMatches(library[i], keyword)) ==> r == library
  {
    FilterIsSubsequence(library, Matching(keyword));
    FilterCount(library, Matching(keyword));
    FilterContains(library, Matching(keyword));
    FilterKeepsAll(library, Matching(keyword));
    Filter(library, Matching(keyword))
  }

  /** The figures `display_statistics` shows. */
  datatype Stats = Stats(total: nat, read: nat, percentRead: real)

  /** `p` is `read` as a percentage of `total`, and 0 when `total` is 0. */
  ghost predicate IsPercentOf(p: real, read: nat, total: nat)
  {
    (total == 0 ==> p == 0.0) && (total > 0 ==> p * total as real == read as real * 100.0)
  }

  /** `read / total * 100`, guarded against division by zero: 0 when `total` is 0. */
  function Percent(read: nat, total: nat): (p: real)
    ensures IsPercentOf(p, read, total)
    ensures 0.0 <= p && (read <= total ==> p <= 100.0)
  {
    if total > 0 then
      var q := read as real / total as real;
      assert q * total as real == read as real;
      assert read <= total ==> q <= 1.0;
      q * 100.0
    else 0.0
  }

  /** The positions of the library that hold a book marked read. */
  ghost function ReadPositions(library: seq<Book>): set<int>
  {
    set i | 0 <= i < |library| && library[i].read
  }

  /** Appending a book adds its position to the read positions exactly when it is read. */
  lemma ReadPositionsAppend(library: seq<Book>, b: Book)
    ensures ReadPositions(library + [b]) == ReadPositions(library) + (if b.read then {|library|} else {})
    ensures |library| !in ReadPositions(library)
  {
  }

  /** The read count is the number of positions holding a read book. */
  lemma {:induction false} ReadCountIsReadPositions(library: seq<Book>)
    ensures |Filter(library, IsRead)| == |ReadPositions(library)|
  {
    if library != [] {
      var rest, last := library[..|library| - 1], library[|library| - 1];
      assert library == rest + [last];
      ReadCountIsReadPositions(rest);
      FilterAppend(rest, [last], IsRead);
      ReadPositionsAppend(rest, last);
    }
  }

  /** The read count is the whole library exactly when all are read, and 0 exactly when none is. */
  lemma ReadCount(library: seq<Book>)
    ensures |Filter(library, IsRead)| == |library| <==> forall i :: 0 <= i < |library| ==> library[i].read
    ensures |Filter(library, IsRead)| == 0 <==> forall i :: 0 <= i < |library| ==> !library[i].read
  {
    FilterShorter(library, IsRead);
    FilterEmpty(library, IsRead);
    assert forall i :: 0 <= i < |library| ==> IsRead(library[i]) == library[i].read;
  }

  /** Total records, records marked read, and the read percentage. */
  function Statistics(library: seq<Book>): (s: Stats)
    ensures s.total == |library|
    ensures s.read == |ReadPositions(library)|
    ensures s.read <= s.total
    ensures s.read == s.total <==> forall i :: 0 <= i < |library| ==> library[i].read
    ensures s.read == 0 <==> forall i :: 0 <= i < |library| ==> !library[i].read
    ensures s.total == 0 ==> s.percentRead == 0.0
    ensures IsPercentOf(s.percentRead, s.read, s.total)
    ensures 0.0 <= s.percentRead <= 100.0
  {
    var read := |Filter(library, IsRead)|;
    ReadCount(library);
    ReadCountIsReadPositions(library);
    Stats(|library|, read, Percent(read, |library|))
  }

  /** Searching with the empty keyword returns the whole library. */
  lemma SearchEmptyKeyword(library: seq<Book>)
    ensures Search(library, "") == library
  {
    forall i | 0 <= i < |library|
      ensures KeywordMatches(library[i], "")
    {
      assert Lower("") == "";
      assert Contains(Lower(library[i].title), "");
    }
  }

  /** After adding a book, searching for its exact title (or author) finds it. */
  lemma SearchFindsAdded(library: seq<Book>, b: Book)
    ensures b in Search(library + [b], b.title)
    ensures b in Search(library + [b], b.author)
  {
    assert b in library + [b];
    assert Contains(Lower(b.title), Lower(b.title));
    assert Contains(Lower(b.author), Lower(b.author));
  }

  /** Search ignores the case of the keyword. */
  lemma SearchIgnoresKeywordCase(library: seq<Book>, keyword: string)
    ensures Search(library, keyword) == Search(library, Lower(keyword))
  {
    LowerIdempotent(keyword);
    FilterCongruent(library, Matching(keyword), Matching(Lower(keyword)));
  }

  /** Removing twice by the same title removes no more than removing once. */
  lemma RemoveIdempotent(library: seq<Book>, title: string)
    ensures WithoutTitle(WithoutTitle(library, title), title) == WithoutTitle(library, title)
  {
  }

  /** Appending a book and then removing its title gives the same result as removing from the library without it. */
  lemma {:induction false} RemoveAfterAdd(library: seq<Book>, b: Book)
    ensures WithoutTitle(library + [b], b.title) == WithoutTitle(library, b.title)
  {
    FilterAppend(library, [b], NotTitled(b.title));
    assert Filter([b], NotTitled(b.title)) == [];
    assert Filter(library, NotTitled(b.title)) + [] == Filter(library, NotTitled(b.title));
  }

  /** Appending a book extends the search result by that book exactly when it matches. */
  lemma {:induction false} SearchAfterAdd(library: seq<Book>, b: Book, keyword: string)
    ensures Search(library + [b], keyword)
         == Search(library, keyword) + (if KeywordMatches(b, keyword) then [b] else [])
  {
    FilterAppend(library, [b], Matching(keyword));
  }

  /** Appending a book adds one to the total, and one to the read count exactly when it is read. */
  lemma {:induction false} StatisticsAfterAdd(library: seq<Book>, b: Book)
    ensures Statistics(library + [b]).total == Statistics(library).total + 1
    ensures Statistics(library + [b]).read == Statistics(library).read + (if b.read then 1 else 0)
  {
    FilterAppend(library, [b], IsRead);
  }
}
