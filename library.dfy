/**
 * The session's library object of PL.py: the list held in the session state, the
 * file it is mirrored to, and the operations that change it.
 */
module LibraryManager {
  import opened Books

  datatype Option<T> = None | Some(value: T)

  /** The in-memory library together with the last snapshot written to the library file. */
  class Library {
    /** The records in insertion order. */
    var books: seq<Book>
    /** What the library file holds: the argument of the last save. */
    ghost var persisted: seq<Book>

    /** The file and the memory hold the same library. */
    ghost predicate Synced()
      reads this
    {
      persisted == books
    }

    /** Session start: the stored library when the file exists, otherwise an empty one. */
    constructor (stored: Option<seq<Book>>)
      ensures books == (if stored.Some? then stored.value else [])
      ensures Synced()
    {
      books := if stored.Some? then stored.value else [];
      persisted := books;
    }

    /** `save_library`: overwrite the file with the whole in-memory library. */
    method Save()
      modifies this`persisted
      ensures persisted == books
    {
      persisted := books;
    }

    /** `add_book`: append one record with the given fields, then save. */
    method AddBook(title: string, author: string, year: int, genre: string, read: bool)
      modifies this
      ensures books == old(books) + [Book(title, author, year, genre, read)]
      ensures |books| == |old(books)| + 1 && books[|books| - 1] == Book(title, author, year, genre, read)
      ensures Synced()
    {
      books := books + [Book(title, author, year, genre, read)];
      Save();
    }

    /**
     * `remove_book`: drop every record whose title matches `title` ignoring case; save and
     * report success only when the library got shorter.
     */
    method RemoveBook(title: string) returns (removed: bool)
      modifies this
      ensures books == WithoutTitle(old(books), title)
      ensures removed <==> |books| < |old(books)|
      ensures removed <==> exists i :: 0 <= i < |old(books)| && TitleMatches(old(books)[i], title)
      ensures removed ==> Synced()
      ensures !removed ==> books == old(books) && persisted == old(persisted)
    {
      var originalLength := |books|;
      books := WithoutTitle(books, title);
      removed := |books| < originalLength;
      if removed {
        Save();
      }
    }
  }

  /** The add form's guard: the title, author and genre fields must all be filled in. */
  predicate RequiredFieldsFilled(title: string, author: string, genre: string)
  {
    title != "" && author != "" && genre != ""
  }

  /**
   * Submitting the add form: `add_book` runs only when the required fields are filled in;
   * otherwise the library and its file are left alone. The year widget yields a non-negative integer.
   */
  method SubmitAddForm(library: Library, title: string, author: string, year: nat, genre: string, read: bool)
    returns (added: bool)
    modifies library
    ensures added <==> title != "" && author != "" && genre != ""
    ensures added ==> library.books == old(library.books) + [Book(title, author, year, genre, read)] && library.Synced()
    ensures !added ==> library.books == old(library.books) && library.persisted == old(library.persisted)
  {
    added := RequiredFieldsFilled(title, author, genre);
    if added {
      library.AddBook(title, author, year, genre, read);
    }
  }
}
