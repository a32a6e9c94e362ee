# Personal library manager — a Dafny model

The personal library manager (`PL.py`) keeps a list of book records. Each record has a
title, an author, a year, a genre and a read flag. The list lives in the session and is
written whole to a file after every change. This project models that list and the four
operations on it: adding a book, removing every book with a given title (case-insensitive),
searching titles and authors for a keyword (case-insensitive substring), and the read
statistics. It also models the add form's guard, which requires title, author and genre.

Files and modules:

- `text.dfy`, module `Text`: ASCII lower-casing (`str.lower()`) and Python's substring test
  `needle in hay`. The recursive test is proved equal to "the needle starts at some index".
- `sequences.dfy`, module `Sequences`: the list comprehension with a condition (`Filter`).
  Its lemmas say that filtering keeps the order (a subsequence) and keeps every copy of the
  elements that pass and none of the others. They also say when the result is shorter, when
  it is empty, and how filtering distributes over appending.
- `books.dfy`, module `Books`: the `Book` record and the pure operations. `WithoutTitle` is
  the comprehension inside `remove_book`, `Search` is `search_books` and `Statistics` is the
  counting part of `display_statistics`. Each one's `ensures` states its meaning directly.
  For example, `Statistics` gives the read count as the number of positions holding a read
  book. The lemmas relate the operations to each other and to appending a book.
- `library.dfy`, module `LibraryManager`: class `Library` is the session's library. The field
  `books` is the in-memory list. The ghost field `persisted` is the last snapshot written to
  the library file. `AddBook` appends to the list in place. `RemoveBook` replaces the list
  with its filtered copy. Both then save as the source does. `SubmitAddForm` is the form's
  guard around `add_book`.
- `session.dfy`, module `Session`: a worked two-book session. Start with an empty library,
  add Dune (read) and 1984 (unread), take the statistics, search for "orwell" and remove
  "dune". The `TwoBook...` lemmas state each step on values. `DuneSession` runs the same
  steps against the class.

`search_books` and the statistics read the session's list and never change it. They are
modelled as functions of that list (`Search(library.books, k)`, `Statistics(library.books)`).

Some facts about the code that the model keeps:

- The add form requires a title, an author and a genre (PL.py:87).
- `search_books("")` returns the whole library (`SearchEmptyKeyword`). But the UI never calls
  it with an empty keyword (PL.py:104).
- `Book.year` is an unbounded `int`, because `add_book` stores whatever it is given. Only the
  form's widget makes it non-negative (PL.py:81), so `SubmitAddForm` takes a `nat`.

## Model

| member | source | states |
|---|---|---|
| Text.LowerChar | PL.py:38 | a capital A-Z becomes the lower-case letter at the same alphabet position; any other character is unchanged; the result is never a capital |
| Text.Lower | PL.py:46 | the lowered string has the same length, holds no ASCII capital, and keeps every character that is not a capital |
| Text.LowerIdempotent | PL.py:46-49 | lower-casing an already lowered string changes nothing |
| Text.ContainsAt | PL.py:49 | the substring test holds exactly when the needle is a prefix of the haystack from some index 0..len(hay) |
| Text.Contains | PL.py:49 | Python's `needle in hay` on strings; its meaning is the positional characterization proved by Text.ContainsAt |
| Text.ContainsFirstChar | PL.py:49 | a non-empty needle found in a string is no longer than the string, and its first character occurs in it |
| Sequences.Filter | PL.py:38 | a comprehension with a condition returns no more elements than its input, and each one passes the condition |
| Sequences.FilterIsSubsequence | PL.py:47-50 | the comprehension's result is a subsequence of its input, with relative order kept |
| Sequences.FilterCount | PL.py:38 | each value that passes keeps exactly as many copies as the input has; every other value has none |
| Sequences.FilterContains | PL.py:47-50 | a value is in the result exactly when it is in the input and passes the condition |
| Sequences.FilterEmpty | PL.py:63 | the result is empty exactly when no element passes |
| Sequences.FilterKeepsAll | PL.py:47-50 | when every element passes, the result is the input itself |
| Sequences.FilterShorter | PL.py:38-39 | the result is strictly shorter exactly when some element fails; a result of the same length is the input itself |
| Sequences.FilterAppend | PL.py:32 | filtering a concatenation is the concatenation of the filtered parts |
| Sequences.FilterCongruent | PL.py:46 | two conditions that agree on every element give the same result |
| Books.WithoutTitle | PL.py:38 | no kept record's lowered title equals the lowered title; the result is a subsequence of the library; every non-matching record keeps all its copies and no matching one survives; the result is shorter exactly when some record matches, and otherwise it is the library unchanged |
| Books.Search | PL.py:45-51 | every result matches; the result is a subsequence of the library; a record is in it exactly when it is in the library and the lowered keyword occurs in its lowered title or lowered author, with all its copies; when every record matches, the result is the whole library |
| Books.Percent | PL.py:64 | 0 when there are no books (the division-by-zero guard); otherwise percent times total equals read times 100; between 0 and 100 when read does not exceed total |
| Books.ReadPositionsAppend | PL.py:63 | appending a book adds its position to the read positions exactly when it is read |
| Books.ReadCountIsReadPositions | PL.py:63 | the length of the read-books comprehension is the number of positions holding a read book |
| Books.ReadCount | PL.py:63 | the read count equals the library's length exactly when every book is read, and is 0 exactly when none is |
| Books.Statistics | PL.py:61-64 | total is the library's length; read is the number of positions holding a read book, and 0 <= read <= total; read equals total exactly when every book is read, and read is 0 exactly when none is; the percentage has the properties of Percent |
| Books.SearchEmptyKeyword | PL.py:45-51 | searching with the empty keyword returns the whole library |
| Books.SearchFindsAdded | PL.py:45-50 | after a book is appended, searching for its exact title or its exact author finds it |
| Books.SearchIgnoresKeywordCase | PL.py:46 | searching for a keyword and for its lowered form give the same result |
| Books.RemoveIdempotent | PL.py:38 | removing by the same title a second time changes nothing |
| Books.RemoveAfterAdd | PL.py:24-43 | appending a book and then removing its title gives the same library as removing that title without the append |
| Books.SearchAfterAdd | PL.py:47-50 | after an append, the search result is the old result plus the new book exactly when the new book matches |
| Books.StatisticsAfterAdd | PL.py:62-63 | an append adds one to the total, and adds one to the read count exactly when the new book is read |
| Session.TwoBookStatistics | PL.py:61-64 | for the library [Dune (read), 1984 (unread)], the statistics are 2 books, 1 read, 50 percent |
| Session.TwoBookSearch | PL.py:45-51 | for that library, searching for "orwell" returns exactly the 1984 record |
| Session.TwoBookRemove | PL.py:38 | for that library, removing "dune" leaves exactly the 1984 record |
| LibraryManager.Library.constructor | PL.py:9-21 | the session starts with the stored library when the file exists, otherwise with an empty one, and memory matches the file |
| LibraryManager.Library.Save | PL.py:15-17 | the file snapshot becomes the whole in-memory library |
| LibraryManager.Library.AddBook | PL.py:24-34 | the library becomes the old library plus one last record holding the five given fields, so earlier records keep their order; afterwards the file snapshot equals the library |
| LibraryManager.Library.RemoveBook | PL.py:36-43 | the library becomes WithoutTitle of the old one; success is reported exactly when the library got shorter, which happens exactly when some title matched; on success the file snapshot equals the library; otherwise the library and the snapshot are both unchanged |
| LibraryManager.SubmitAddForm | PL.py:86-90 | a book is added exactly when title, author and genre are all non-empty; in that case the result is AddBook's; otherwise the library and the file snapshot are unchanged |

## Left out

- The Streamlit interface (menu, forms, headers, success and warning messages, PL.py:72-118) is not modelled. Only the add form's required-field guard at PL.py:87 is kept. The remove form's non-empty check (PL.py:96) and the search form's non-empty check (PL.py:104) are interface guards that the model does not include.
- `display_books` and the table display with its Yes/No column (PL.py:53-59) are presentation only.
- pickle and the file I/O of `load_library` and `save_library` (PL.py:9-17) are foreign library calls. Saving is a ghost snapshot assignment. Loading is the constructor's argument: `None` for a missing file, otherwise the stored list. A corrupt file, a failed write, and the resulting gap between memory and file are not modelled. The model assumes saving and loading round-trip a library exactly.
- The session-state lifecycle (PL.py:20-21) is a single `Library` object built at session start.
- Text.LowerChar: lowers only the ASCII capitals A-Z, not the full Unicode case mapping of Python's `str.lower()`.
- Books.Percent: is an exact rational, not the floating-point value, and the two-decimal formatting of PL.py:69 is not modelled.
