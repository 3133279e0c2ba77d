/**
 * The `Book` entity (`ch.bzz.model.Book`): a mutable record of five nullable
 * fields whose identity, for `equals` and `hashCode`, is its id alone.
 */
module BookModel {
  import opened Wrappers
  import opened JavaLang

  /** The fields of a book at one moment; `None` is Java's `null`. */
  datatype BookState = BookState(
    id: Option<Int32>,
    isbn: Option<string>,
    title: Option<string>,
    author: Option<string>,
    publicationYear: Option<Int32>)

  /** The columns the `books` table declares not null are all present. */
  predicate Complete(b: BookState) {
    b.isbn.Some? && b.title.Some? && b.author.Some?
  }

  /** `Book.toString`: `id | isbn | title | author | publicationYear`. */
  function Render(b: BookState): string {
    ShowInt(b.id) + " | " + ShowStr(b.isbn) + " | " + ShowStr(b.title) + " | "
      + ShowStr(b.author) + " | " + ShowInt(b.publicationYear)
  }

  /** The five columns of the rendering, each with the blanks around its bars. */
  function Columns(b: BookState): seq<string> {
    [ShowInt(b.id) + " ", " " + ShowStr(b.isbn) + " ", " " + ShowStr(b.title) + " ",
     " " + ShowStr(b.author) + " ", " " + ShowInt(b.publicationYear)]
  }

  /** The rendering is the five columns glued with bars. */
  lemma RenderIsJoin(b: BookState)
    ensures Render(b) == Join(Columns(b), '|')
  {
    BarColumns(ShowInt(b.id), ShowStr(b.isbn), ShowStr(b.title), ShowStr(b.author), ShowInt(b.publicationYear));
  }

  /** The rendering lists the five fields in declaration order: cutting it at
      the bars gives id, isbn, title, author and year, as long as no text
      field holds a bar itself. */
  lemma RenderColumns(b: BookState)
    ensures NoneIn(ShowStr(b.isbn), {'|'}) && NoneIn(ShowStr(b.title), {'|'}) && NoneIn(ShowStr(b.author), {'|'})
            ==> Pieces(Render(b), {'|'}) == Columns(b)
  {
    if NoneIn(ShowStr(b.isbn), {'|'}) && NoneIn(ShowStr(b.title), {'|'}) && NoneIn(ShowStr(b.author), {'|'}) {
      var c := Columns(b);
      RenderIsJoin(b);
      forall i | 0 <= i < |c|
        ensures NoneIn(c[i], {'|'})
      {
      }
      PiecesJoin(c, '|', {'|'});
    }
  }

  class Book {
    var id: Option<Int32>
    var isbn: Option<string>
    var title: Option<string>
    var author: Option<string>
    var publicationYear: Option<Int32>

    /** The fields as one value. */
    function State(): BookState
      reads this
    {
      BookState(id, isbn, title, author, publicationYear)
    }

    /** `new Book()`: every field null. */
    constructor Empty()
      ensures State() == BookState(None, None, None, None, None)
    {
      id, isbn, title, author, publicationYear := None, None, None, None, None;
    }

    /** `new Book(id, isbn, title, author, publicationYear)` stores exactly
        the given values. */
    constructor (id: Option<Int32>, isbn: Option<string>, title: Option<string>,
                 author: Option<string>, publicationYear: Option<Int32>)
      ensures State() == BookState(id, isbn, title, author, publicationYear)
    {
      this.id := id;
      this.isbn := isbn;
      this.title := title;
      this.author := author;
      this.publicationYear := publicationYear;
    }

    method SetId(v: Option<Int32>)
      modifies this
      ensures State() == old(State()).(id := v)
    {
      id := v;
    }

    method SetIsbn(v: Option<string>)
      modifies this
      ensures State() == old(State()).(isbn := v)
    {
      isbn := v;
    }

    method SetTitle(v: Option<string>)
      modifies this
      ensures State() == old(State()).(title := v)
    {
      title := v;
    }

    method SetAuthor(v: Option<string>)
      modifies this
      ensures State() == old(State()).(author := v)
    {
      author := v;
    }

    method SetPublicationYear(v: Option<Int32>)
      modifies this
      ensures State() == old(State()).(publicationYear := v)
    {
      publicationYear := v;
    }

    /** `equals`: the same object, or another book with the same non-null id. */
    predicate Equals(other: Book?)
      reads this, other
      ensures Equals(other) ==> other != null && HashCode() == other.HashCode()
    {
      this == other || (other != null && id.Some? && id == other.id)
    }

    /** `hashCode`: the id's value, 0 for a null id. */
    function HashCode(): (h: Int32)
      reads this
      ensures id.Some? ==> h == id.value
      ensures id.None? ==> h == 0
    {
      if id.Some? then id.value else 0
    }

    /** `toString`: cutting it at the bars gives back the five fields in
        declaration order when no text field holds a bar. */
    function ToString(): (s: string)
      reads this
      ensures NoneIn(ShowStr(isbn), {'|'}) && NoneIn(ShowStr(title), {'|'}) && NoneIn(ShowStr(author), {'|'})
              ==> Pieces(s, {'|'}) == Columns(State())
    {
      RenderColumns(State());
      Render(State())
    }
  }

  /** Equality is an equivalence on books. */
  lemma EqualsIsEquivalence(a: Book, b: Book, c: Book)
    ensures a.Equals(a)
    ensures a.Equals(b) ==> b.Equals(a)
    ensures a.Equals(b) && b.Equals(c) ==> a.Equals(c)
  {
  }

  /** A book without an id equals no other book, not even one with the same
      fields. */
  lemma NullIdEqualsOnlyItself(a: Book, b: Book)
    requires a.id.None?
    ensures a.Equals(b) <==> a == b
  {
  }

  /** Two distinct books are equal exactly when they carry the same id. */
  lemma DistinctBooksEqualById(a: Book, b: Book)
    requires a != b
    ensures a.Equals(b) <==> a.id.Some? && b.id.Some? && a.id.value == b.id.value
  {
  }

  /** Equal books have equal hash codes. */
  lemma EqualsAgreesWithHashCode(a: Book, b: Book)
    requires a.Equals(b)
    ensures a.HashCode() == b.HashCode()
  {
  }
}
