# Book registry: the mock Spring Boot data store

This project models the in-memory book store `MockSpringBootAPI` of the Book
Registry web application and proves its contracts. The store stands in for a
REST backend. It keeps an ordered list of book records (`bookId`, `title`,
`author`, `price`) and an id counter `nextId`, and offers three operations:

- list all books: a snapshot of the list, in insertion order;
- get a book by id: the first record with that id, or a not-found failure
  whose message is `Book with ID <id> not found`;
- add a book: refuse with `All fields are required` unless title, author and
  price are all present and non-empty; otherwise create a record under the
  current counter, bump the counter and append the record.

The store is the class `BookStore.Store` (file `book_store.dfy`). Its fields are
a `seq<Book>` and an `int` counter that `AddBook` reassigns in place. The
predicate `Valid()` is the store invariant:

- ids strictly increase in list order, so they are pairwise distinct;
- every id is positive and below the counter;
- the counter never drops below its starting value 4.

The promise's resolve and reject become the `Success` and `Failure` arms of a
`Result`. The module `IdText` (file `id_text.dfy`) renders an integer id into
the not-found message and parses it back. This proves that the message
identifies the id that was asked for.

The form refuses a non-numeric or non-positive price before it calls the
store (`src/App.js:48`). The store's own check
(`src/api/MockSpringBootAPI.js:36`) tests only that each field is present, so a
direct call can store any price. The model follows the code: `AddBook`
accepts any non-empty price text.

## Model

| member | source | states |
|---|---|---|
| `BookStore.Store.constructor` | src/api/MockSpringBootAPI.js:2-10 | the new store holds exactly the three seed records, with ids 1, 2, 3 in that order; the counter is 4; the invariant holds |
| `BookStore.SeedBooks` | src/api/MockSpringBootAPI.js:4-8 | the seed list has exactly three records, with ids 1, 2, 3 in that order, and with the first free id 4 it satisfies the store invariant |
| `BookStore.Store.GetAllBooks` | src/api/MockSpringBootAPI.js:12-18 | returns the whole list, equal in content and order; reads only, so list and counter are unchanged |
| `BookStore.FindById` | src/api/MockSpringBootAPI.js:23-27 | succeeds exactly when some record has the id, and then returns the first such record in list order; otherwise fails with NotFound of that id |
| `BookStore.Store.GetBookById` | src/api/MockSpringBootAPI.js:20-31 | the linear scan returns the first record with the id or NotFound(id), agreeing with `FindById`; reads only, so the state is unchanged |
| `BookStore.Store.AddBook` | src/api/MockSpringBootAPI.js:33-52 | fails with FieldsRequired exactly when title, author or price is absent or empty, and then changes nothing; on success returns the record under the old counter, appends it, bumps the counter by one, keeps the invariant, gives it an id above every earlier id, makes its id look up to it and leaves every other id's lookup unchanged |
| `BookStore.Present` | src/api/MockSpringBootAPI.js:36 | a field passes the truthiness test exactly when it is neither absent nor the empty text |
| `BookStore.Complete` | src/api/MockSpringBootAPI.js:36 | an add request passes the store's check exactly when none of title, author and price is absent or empty |
| `BookStore.Message` | src/api/MockSpringBootAPI.js:27-37 | the message equals "All fields are required" exactly for the missing-fields refusal; a not-found message holds the rendered id between the fixed prefix "Book with ID " and suffix " not found" |
| `BookStore.IdsUnique` | src/api/MockSpringBootAPI.js:42 | under the invariant, two different positions hold different ids |
| `BookStore.AppendPreservesInvariant` | src/api/MockSpringBootAPI.js:42-48 | appending a record under the counter and bumping the counter keeps the invariant |
| `BookStore.AppendedOnce` | src/api/MockSpringBootAPI.js:48 | the appended record occurs exactly once in the new list, and its id is above every earlier id |
| `BookStore.UnassignedNotFound` | src/api/MockSpringBootAPI.js:23-27 | under the invariant, an id never assigned (non-positive, or at or above the counter) is not found |
| `BookStore.FindAppended` | src/api/MockSpringBootAPI.js:42-49 | after appending a record under the counter, looking up its id returns that record |
| `BookStore.FindOtherAfterAppend` | src/api/MockSpringBootAPI.js:48 | appending a record does not change the lookup of any other id |
| `BookStore.NotFoundMessageIdentifiesId` | src/api/MockSpringBootAPI.js:27 | two not-found messages are equal only for the same requested id |
| `BookStore.SeedLookupMissing` | src/api/MockSpringBootAPI.js:4-9 | on the seed records, id 99 is not found, with message "Book with ID 99 not found" |
| `BookStore.SeededScenario` | src/api/MockSpringBootAPI.js:2-49 | on a new store, adding X/Y/"10.50" returns id 4; adding with an empty title is refused; the list then holds the three seeds followed by the new record; id 4 finds it; id 99 is not found |
| `IdText.Render` | src/api/MockSpringBootAPI.js:27 | the rendered id is non-empty and starts with a minus sign exactly for negative ids |
| `IdText.Digits` | src/api/MockSpringBootAPI.js:27 | the decimal form of a natural number is non-empty, all digits, without a leading zero |
| `IdText.DigitsRoundTrip` | src/api/MockSpringBootAPI.js:27 | reading back the decimal digits gives the number |
| `IdText.RenderRoundTrip` | src/api/MockSpringBootAPI.js:27 | parsing the rendered id gives the id back |
| `IdText.RenderInjective` | src/api/MockSpringBootAPI.js:27 | different ids render differently |

## Left out

- The Promise and `setTimeout` wrappers of all three operations: each operation is one atomic step, and the model's sequence of steps is the order in which the timers fire, not the order of the calls. `getAllBooks` waits 500 ms, `getBookById` and `addBook` 400 ms, so calls that overlap can take effect out of call order. For example, an `addBook` issued less than 100 ms after the list call made on mount takes effect first, and that list then already holds the new record.
- BookStore.Store.AddBook: takes a `BookData` value, so it cannot express a call with no request object at all. In the source such a call throws a TypeError inside the timer callback, and its promise never settles.
- `parseFloat` of the price: a record keeps the price text (`Price`), standing for the number parseFloat reads from it. So two texts with the same value ("1299" and "1299.00") are different prices in the model. No operation compares prices.
- `parseInt` of the lookup id: `GetBookById` takes an integer, the result of that coercion.
- BookStore.Message: the source writes the raw id argument into the not-found message. The model writes the canonical decimal form of the integer, so text such as "007" or " 7" appears as "7".
- The `baseURL` field: it is never read.
- BookStore.Present: JavaScript falsiness is modelled for absent and empty-text fields only. Non-string values a direct caller might pass (0, NaN, false, null) are not modelled.
- The counter is an unbounded integer. The loss of precision of a JavaScript number beyond 2^53 is not modelled.
- Aliasing: `getAllBooks` returns a shallow copy, and `getBookById` returns the stored record object itself. The model's records are values, so a caller's later change to a returned object is not modelled.
- src/App.js: a React component (UI state hooks, effects, rendering, timers). Its client-side checks (positive numeric price, non-empty search id) rest on float parsing and UI state, and are not part of this model.
- tailwind.config.js: build styling configuration.
