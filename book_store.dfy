/** The in-memory book store that stands in for a Spring Boot REST backend:
    an ordered list of book records and an id counter, with list, lookup and
    insert operations. */
module BookStore {
  import IdText

  /** A price as the caller supplied it; the record holds the number that
      parseFloat reads from this text, which the model does not compute. */
  datatype Price = Price(text: string)

  datatype Book = Book(bookId: int, title: string, author: string, price: Price)

  /** One field of an add request: missing altogether, or given as text. */
  datatype Field = Absent | Given(text: string)

  datatype BookData = BookData(title: Field, author: Field, price: Field)

  datatype Error = NotFound(id: int) | FieldsRequired

  datatype Result<T> = Success(value: T) | Failure(error: Error)

  /** JavaScript truthiness of a field: absent and empty text are falsy. */
  predicate Present(f: Field)
    ensures Present(f) <==> f != Absent && f != Given("")
  {
    f.Given? && f.text != ""
  }

  /** An add request passes the store's check when none of its three fields is falsy. */
  predicate Complete(data: BookData)
    ensures var fields := [data.title, data.author, data.price];
            Complete(data) <==> Absent !in fields && Given("") !in fields
  {
    Present(data.title) && Present(data.author) && Present(data.price)
  }

  /** The message a rejected request carries: the two kinds of refusal read
      differently, and a not-found message holds the rendered id between a
      fixed prefix and suffix. */
  function Message(e: Error): (m: string)
    ensures m == "All fields are required" <==> e.FieldsRequired?
    ensures e.NotFound? ==>
      |m| > 23 && m[..13] == "Book with ID " && m[|m| - 10..] == " not found" &&
      m[13..|m| - 10] == IdText.Render(e.id)
  {
    match e
    case NotFound(id) => "Book with ID " + IdText.Render(id) + " not found"
    case FieldsRequired => "All fields are required"
  }

  /** The three records every store starts with: ids 1, 2, 3 in that order,
      all below the first free id, so they satisfy the store invariant. */
  function SeedBooks(): (s: seq<Book>)
    ensures |s| == 3 && forall i :: 0 <= i < 3 ==> s[i].bookId == i + 1
    ensures StoreInvariant(s, FirstFreeId)
  {
    [ Book(1, "Spring Boot in Action", "Craig Walls", Price("1299.00")),
      Book(2, "Effective Java", "Joshua Bloch", Price("1499.00")),
      Book(3, "Clean Code", "Robert C. Martin", Price("1350.00")) ]
  }

  const FirstFreeId := 4

  /** Ids strictly increase in list order, are positive and lie below the
      counter, which never falls below its starting value. */
  ghost predicate StoreInvariant(books: seq<Book>, nextId: int) {
    FirstFreeId <= nextId &&
    (forall i, j :: 0 <= i < j < |books| ==> books[i].bookId < books[j].bookId) &&
    (forall i :: 0 <= i < |books| ==> 0 < books[i].bookId < nextId)
  }

  /** The first record, in list order, whose id is the one asked for. */
  function FindById(books: seq<Book>, id: int): (r: Result<Book>)
    ensures r.Success? <==> exists i :: 0 <= i < |books| && books[i].bookId == id
    ensures r.Success? ==>
      exists i :: 0 <= i < |books| && books[i] == r.value && books[i].bookId == id &&
        forall j :: 0 <= j < i ==> books[j].bookId != id
    ensures r.Failure? ==> r.error == NotFound(id)
    decreases |books|
  {
    if books == [] then Failure(NotFound(id))
    else if books[0].bookId == id then Success(books[0])
    else
      var r := FindById(books[1..], id);
      assert forall i :: 0 < i < |books| ==> books[i] == books[1..][i - 1];
      r
  }

  /** Strictly increasing ids are pairwise distinct. */
  lemma IdsUnique(books: seq<Book>, nextId: int, i: int, j: int)
    requires StoreInvariant(books, nextId)
    requires 0 <= i < |books| && 0 <= j < |books| && i != j
    ensures books[i].bookId != books[j].bookId
  {
  }

  /** Appending a record under the counter and bumping the counter keeps the invariant. */
  lemma AppendPreservesInvariant(books: seq<Book>, nextId: int, b: Book)
    requires StoreInvariant(books, nextId)
    requires b.bookId == nextId
    ensures StoreInvariant(books + [b], nextId + 1)
  {
  }

  /** A newly appended record is in the list exactly once, and its id exceeds
      every id assigned before it. */
  lemma AppendedOnce(books: seq<Book>, nextId: int, b: Book)
    requires StoreInvariant(books, nextId)
    requires b.bookId == nextId
    ensures multiset(books + [b])[b] == 1
    ensures forall i :: 0 <= i < |books| ==> books[i].bookId < b.bookId
  {
  }

  /** No record carries an id at or above the counter, nor a non-positive one. */
  lemma UnassignedNotFound(books: seq<Book>, nextId: int, id: int)
    requires StoreInvariant(books, nextId)
    requires id >= nextId || id <= 0
    ensures FindById(books, id) == Failure(NotFound(id))
  {
  }

  /** Looking up the id of a just-appended record finds that record. */
  lemma {:induction false} FindAppended(books: seq<Book>, nextId: int, b: Book)
    requires StoreInvariant(books, nextId)
    requires b.bookId == nextId
    ensures FindById(books + [b], b.bookId) == Success(b)
    decreases |books|
  {
    if books != [] {
      assert (books + [b])[1..] == books[1..] + [b];
      FindAppended(books[1..], nextId, b);
    }
  }

  /** Appending a record leaves every other id's lookup as it was. */
  lemma {:induction false} FindOtherAfterAppend(books: seq<Book>, b: Book, id: int)
    requires id != b.bookId
    ensures FindById(books + [b], id) == FindById(books, id)
    decreases |books|
  {
    if books != [] {
      assert (books + [b])[1..] == books[1..] + [b];
      FindOtherAfterAppend(books[1..], b, id);
    }
  }

  /** The not-found message names the requested id, so different ids give different messages. */
  lemma NotFoundMessageIdentifiesId(a: int, b: int)
    requires Message(NotFound(a)) == Message(NotFound(b))
    ensures a == b
  {
    var m := Message(NotFound(a));
    assert IdText.Render(a) == m[13..|m| - 10] == IdText.Render(b);
    IdText.RenderInjective(a, b);
  }

  /** Looking up id 99 in the seeded store fails with the message naming 99. */
  lemma SeedLookupMissing()
    ensures FindById(SeedBooks(), 99) == Failure(NotFound(99))
    ensures Message(NotFound(99)) == "Book with ID 99 not found"
  {
  }

  class Store {
    var books: seq<Book>
    var nextId: int

    ghost predicate Valid()
      reads this
    {
      StoreInvariant(books, nextId)
    }

    /** A store holding the three seed records, ids 1, 2 and 3, with the counter at 4. */
    constructor ()
      ensures Valid()
      ensures books == SeedBooks() && nextId == FirstFreeId
      ensures |books| == 3 && books[0].bookId == 1 && books[1].bookId == 2 && books[2].bookId == 3
    {
      books := SeedBooks();
      nextId := FirstFreeId;
    }

    /** A snapshot of every record, in insertion order; the store is unchanged. */
    method GetAllBooks() returns (r: seq<Book>)
      ensures r == books
    {
      r := books;
    }

    /** Linear scan for the first record with the given id. */
    method GetBookById(id: int) returns (r: Result<Book>)
      ensures r == FindById(books, id)
      ensures r.Success? <==> exists i :: 0 <= i < |books| && books[i].bookId == id
      ensures r.Success? ==> r.value.bookId == id
      ensures r.Failure? ==> r.error == NotFound(id)
    {
      var i := 0;
      while i < |books| && books[i].bookId != id
        invariant 0 <= i <= |books|
        invariant forall j :: 0 <= j < i ==> books[j].bookId != id
      {
        i := i + 1;
      }
      if i < |books| {
        r := Success(books[i]);
        ghost var f := FindById(books, id);
        ghost var k :| 0 <= k < |books| && books[k] == f.value && books[k].bookId == id &&
          forall j :: 0 <= j < k ==> books[j].bookId != id;
        assert k == i;
      } else {
        r := Failure(NotFound(id));
      }
    }

    /** Rejects an incomplete request and changes nothing; otherwise creates a
        record under the current counter, appends it and bumps the counter. */
    method AddBook(data: BookData) returns (r: Result<Book>)
      requires Valid()
      modifies this
      ensures Valid()
      ensures r.Failure? <==> !Complete(data)
      ensures r.Failure? ==>
        r.error == FieldsRequired && books == old(books) && nextId == old(nextId)
      ensures r.Success? ==>
        r.value == Book(old(nextId), data.title.text, data.author.text, Price(data.price.text)) &&
        books == old(books) + [r.value] && nextId == old(nextId) + 1
      ensures r.Success? ==> forall i :: 0 <= i < |old(books)| ==> old(books)[i].bookId < r.value.bookId
      ensures r.Success? ==> FindById(books, r.value.bookId) == r
      ensures forall id :: (r.Failure? || id != r.value.bookId) ==> FindById(books, id) == FindById(old(books), id)
    {
      if !Present(data.title) || !Present(data.author) || !Present(data.price) {
        r := Failure(FieldsRequired);
        return;
      }
      var b := Book(nextId, data.title.text, data.author.text, Price(data.price.text));
      nextId := nextId + 1;
      AppendPreservesInvariant(books, b.bookId, b);
      FindAppended(books, b.bookId, b);
      forall id | id != b.bookId
        ensures FindById(books + [b], id) == FindById(books, id)
      {
        FindOtherAfterAppend(books, b, id);
      }
      books := books + [b];
      r := Success(b);
    }
  }

  /** The seeded store: a complete add gets id 4 and makes four records, an
      incomplete one is refused without effect, id 4 then finds the new
      record and id 99 is not found. */
  method SeededScenario()
    returns (added: Result<Book>, rejected: Result<Book>, listed: seq<Book>, found: Result<Book>, missing: Result<Book>)
    ensures added == Success(Book(4, "X", "Y", Price("10.50")))
    ensures found == added
    ensures rejected == Failure(FieldsRequired)
    ensures |listed| == 4 && listed[3] == added.value && listed[..3] == SeedBooks()
    ensures missing == Failure(NotFound(99))
    ensures Message(missing.error) == "Book with ID 99 not found"
  {
    var store := new Store();
    var complete := BookData(Given("X"), Given("Y"), Given("10.50"));
    assert Present(complete.title) && Present(complete.author) && Present(complete.price);
    added := store.AddBook(complete);
    var untitled := BookData(Given(""), Given("Y"), Given("10.50"));
    assert !Present(untitled.title);
    rejected := store.AddBook(untitled);
    listed := store.GetAllBooks();
    found := store.GetBookById(4);
    missing := store.GetBookById(99);
    SeedLookupMissing();
  }
}
