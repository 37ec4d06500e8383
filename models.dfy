/** The Book entity of books/models.py: its fields, the bounds the field
    declarations put on them, and `Book.clean`. Prices are integer cents. */
module Models {
  import opened Wrappers
  import opened Text
  import opened IsbnFormat

  /** Identifiers come from a fresh-id supply that stands in for `uuid4`. */
  type BookId = nat

  /** Timestamps come from a logical clock that stands in for `auto_now`. */
  type Timestamp = nat

  datatype Book = Book(
    id: BookId,
    title: string,
    author: string,
    isbn: string,
    publishedYear: int,
    genre: string,
    priceCents: int,
    stock: int,
    description: Option<string>,
    createdAt: Timestamp,
    updatedAt: Timestamp)

  /** The client-writable fields, used to name validation errors. */
  datatype Field = Title | Author | Isbn | PublishedYear | Genre | Price | Stock | Description

  const TitleMaxLength := 200
  const AuthorMaxLength := 100
  const IsbnMaxLength := 17
  const GenreMaxLength := 50
  const DescriptionMaxLength := 1000
  const MinPublishedYear := 1000
  const MaxPublishedYear := 2025
  /** The float nearest to 0.01 is `FloatCentNumerator / 2**59`, a little above
      one cent. */
  const FloatCentNumerator := 5_764_607_523_034_235
  const TwoToThe59 := 576_460_752_303_423_488

  /** `MinValueValidator(0.01)`: the serializer's `DecimalField` gets it as
      `min_value=0.01`, a float, and Python compares the Decimal price with
      that float exactly. A price of `cents` passes when
      `cents / 100 >= FloatCentNumerator / 2**59`. */
  predicate AboveFloatMinimum(cents: int) {
    cents * TwoToThe59 >= 100 * FloatCentNumerator
  }

  /** The least price the validator lets through: 0.01 itself is refused. */
  const MinPriceCents := 2

  /** The float comparison accepts exactly the prices of two cents or more. */
  lemma FloatMinimumIsTwoCents(cents: int)
    ensures AboveFloatMinimum(cents) <==> cents >= MinPriceCents
  {
    if cents <= 1 {
      assert cents * TwoToThe59 <= TwoToThe59;
    } else {
      assert cents * TwoToThe59 >= 2 * TwoToThe59;
    }
  }
  /** `max_digits=8, decimal_places=2`: at most 999999.99 */
  const MaxPriceCents := 99_999_999
  const DefaultStock := 0

  predicate YearInRange(y: int) {
    MinPublishedYear <= y <= MaxPublishedYear
  }

  predicate PriceInRange(cents: int) {
    MinPriceCents <= cents <= MaxPriceCents
  }

  /** `PositiveIntegerField` admits zero. */
  predicate StockInRange(n: int) {
    n >= 0
  }

  /** `max_length=17` together with the `validate_isbn` validator. */
  predicate IsbnAcceptable(s: string) {
    |s| <= IsbnMaxLength && ValidIsbn(s)
  }

  predicate DescriptionAcceptable(d: Option<string>) {
    d.None? || |d.value| <= DescriptionMaxLength
  }

  /** Every bound the field declarations state. */
  predicate FieldsWithinBounds(b: Book) {
    && |b.title| <= TitleMaxLength
    && |b.author| <= AuthorMaxLength
    && IsbnAcceptable(b.isbn)
    && YearInRange(b.publishedYear)
    && |b.genre| <= GenreMaxLength
    && PriceInRange(b.priceCents)
    && StockInRange(b.stock)
    && DescriptionAcceptable(b.description)
  }

  /** The fields `clean` checks, in the order it checks them. */
  const CleanedFields: seq<Field> := [Title, Author, Genre]

  function TextOf(b: Book, f: Field): string
    requires f in CleanedFields
  {
    match f
    case Title => b.title
    case Author => b.author
    case Genre => b.genre
  }

  /** Whether `clean` checks field `f` before field `g`. */
  predicate CheckedBefore(f: Field, g: Field) {
    (f == Title && (g == Author || g == Genre)) || (f == Author && g == Genre)
  }

  /** `Book.clean`: the field named by the first ValidationError it raises,
      or None when it raises none. It reports the first of title, author and
      genre that is empty or whitespace only. */
  function Clean(b: Book): (r: Option<Field>)
    ensures r.None? <==> forall f | f in CleanedFields :: !IsBlank(TextOf(b, f))
    ensures r.Some? ==>
      && r.value in CleanedFields
      && IsBlank(TextOf(b, r.value))
      && forall f | f in CleanedFields && CheckedBefore(f, r.value) :: !IsBlank(TextOf(b, f))
  {
    assert TextOf(b, Title) == b.title && TextOf(b, Author) == b.author && TextOf(b, Genre) == b.genre;
    if IsBlank(b.title) then Some(Title)
    else if IsBlank(b.author) then Some(Author)
    else if IsBlank(b.genre) then Some(Genre)
    else None
  }

  /** What every stored row satisfies: the declared bounds and `clean`. */
  predicate BookValid(b: Book) {
    FieldsWithinBounds(b) && Clean(b).None?
  }

  /** A book is valid exactly when its text fields are not blank and every
      field is within its declared bounds. */
  lemma BookValidIff(b: Book)
    ensures BookValid(b) <==> !IsBlank(b.title) && !IsBlank(b.author) && !IsBlank(b.genre) && FieldsWithinBounds(b)
  {
    assert TextOf(b, Title) == b.title && TextOf(b, Author) == b.author && TextOf(b, Genre) == b.genre;
  }

  /** `clean` passes exactly when none of title, author and genre is made of
      whitespace only (the empty string included). */
  lemma CleanPassesIffNoneAllSpace(b: Book)
    ensures Clean(b).None? <==> !AllSpace(b.title) && !AllSpace(b.author) && !AllSpace(b.genre)
  {
    BlankIffAllSpace(b.title);
    BlankIffAllSpace(b.author);
    BlankIffAllSpace(b.genre);
  }

  /* ---------------- The book table ---------------- */

  predicate HasId(rows: seq<Book>, id: BookId) {
    exists i | 0 <= i < |rows| :: rows[i].id == id
  }

  /** `Book.objects.filter(isbn=isbn)`, optionally `.exclude(pk=except)`, is non-empty. */
  predicate IsbnHeld(rows: seq<Book>, isbn: string, except: Option<BookId>) {
    exists i | 0 <= i < |rows| :: rows[i].isbn == isbn && Some(rows[i].id) != except
  }

  /** The primary key. */
  predicate UniqueIds(rows: seq<Book>) {
    forall i, j | 0 <= i < j < |rows| :: rows[i].id != rows[j].id
  }

  /** The `unique=True` column. */
  predicate UniqueIsbns(rows: seq<Book>) {
    forall i, j | 0 <= i < j < |rows| :: rows[i].isbn != rows[j].isbn
  }

  /** The row at `i` passes `clean`. */
  predicate RowClean(rows: seq<Book>, i: int)
    requires 0 <= i < |rows|
  {
    Clean(rows[i]).None?
  }

  predicate AllClean(rows: seq<Book>) {
    forall i | 0 <= i < |rows| :: RowClean(rows, i)
  }

  /** Ids come from the supply and timestamps from the clock. */
  predicate Stamped(rows: seq<Book>, nextId: nat, clock: nat) {
    forall i | 0 <= i < |rows| :: rows[i].id < nextId && rows[i].createdAt <= rows[i].updatedAt < clock
  }

  /** `Meta.ordering = ['-created_at']`. */
  predicate NewestFirst(rows: seq<Book>) {
    forall i, j | 0 <= i < j < |rows| :: rows[j].createdAt < rows[i].createdAt
  }

  /** The row with primary key `id`, if any: what `get_object` loads. */
  function IndexOf(rows: seq<Book>, id: BookId): (r: Option<nat>)
    ensures r.None? <==> !HasId(rows, id)
    ensures r.Some? ==> r.value < |rows| && rows[r.value].id == id
    ensures r.Some? ==> forall k | 0 <= k < r.value :: rows[k].id != id
  {
    if rows == [] then None
    else if rows[0].id == id then Some(0)
    else
      var t := IndexOf(rows[1..], id);
      if t.None? then
        assert forall k | 1 <= k < |rows| :: rows[k] == rows[1..][k - 1];
        None
      else Some(t.value + 1)
  }

  /** The message the database attaches to a violation of the unique index on
      `isbn` (SQLite's wording; PostgreSQL's names the index `books_book_isbn_key`). */
  const UniqueIsbnMessage := "UNIQUE constraint failed: books_book.isbn"

  /** What `Book.save` ends in: the row written, the ValidationError `clean`
      raised (naming its field), or an IntegrityError from the database. */
  datatype SaveOutcome = Saved(book: Book) | CleanFailed(field: Field) | IntegrityError(message: string)

  /** What the table guarantees about its rows: unique keys, every row passes
      `clean` (since `save` runs it first), ids come from the supply,
      timestamps from the clock, and the rows are ordered by descending
      `created_at`. */
  predicate TableInvariant(rows: seq<Book>, nextId: nat, clock: nat) {
    UniqueIds(rows) && UniqueIsbns(rows) && AllClean(rows) && Stamped(rows, nextId, clock) && NewestFirst(rows)
  }

  lemma InsertKeepsUniqueIds(rows: seq<Book>, b: Book)
    requires UniqueIds(rows) && !HasId(rows, b.id)
    ensures UniqueIds([b] + rows)
  {
    var r := [b] + rows;
    forall i, j | 0 <= i < j < |r| ensures r[i].id != r[j].id {
      assert r[j] == rows[j - 1];
      if i > 0 { assert r[i] == rows[i - 1]; }
    }
  }

  lemma InsertKeepsUniqueIsbns(rows: seq<Book>, b: Book)
    requires UniqueIsbns(rows) && !HasId(rows, b.id) && !IsbnHeld(rows, b.isbn, Some(b.id))
    ensures UniqueIsbns([b] + rows)
  {
    var r := [b] + rows;
    forall i, j | 0 <= i < j < |r| ensures r[i].isbn != r[j].isbn {
      assert r[j] == rows[j - 1];
      if i > 0 { assert r[i] == rows[i - 1]; }
    }
  }

  lemma InsertKeepsOrder(rows: seq<Book>, nextId: nat, clock: nat, b: Book)
    requires Stamped(rows, nextId, clock) && NewestFirst(rows) && b.createdAt == clock
    ensures NewestFirst([b] + rows)
  {
    var r := [b] + rows;
    forall i, j | 0 <= i < j < |r| ensures r[j].createdAt < r[i].createdAt {
      assert r[j] == rows[j - 1];
      if i > 0 { assert r[i] == rows[i - 1]; }
    }
  }

  /** Inserting a clean row with a fresh id and an unused ISBN, stamped with the
      current time, keeps the invariant once the clock and the supply move on. */
  lemma InsertKeepsInvariant(rows: seq<Book>, nextId: nat, clock: nat, b: Book, nextId': nat)
    requires TableInvariant(rows, nextId, clock)
    requires Clean(b).None? && !HasId(rows, b.id) && !IsbnHeld(rows, b.isbn, Some(b.id))
    requires b.createdAt == clock && b.updatedAt == clock
    requires nextId <= nextId' && b.id < nextId'
    ensures TableInvariant([b] + rows, nextId', clock + 1)
  {
    InsertKeepsUniqueIds(rows, b);
    InsertKeepsUniqueIsbns(rows, b);
    InsertKeepsOrder(rows, nextId, clock, b);
    InsertKeepsClean(rows, b);
    var r := [b] + rows;
    assert forall k | 1 <= k < |r| :: r[k] == rows[k - 1];
  }

  lemma InsertKeepsClean(rows: seq<Book>, b: Book)
    requires AllClean(rows) && Clean(b).None?
    ensures AllClean([b] + rows)
  {
    var r := [b] + rows;
    forall k | 0 <= k < |r| ensures RowClean(r, k) {
      if k > 0 {
        assert r[k] == rows[k - 1] && RowClean(rows, k - 1);
      }
    }
  }

  lemma ReplaceKeepsUniqueKeys(rows: seq<Book>, i: nat, b: Book)
    requires UniqueIds(rows) && UniqueIsbns(rows)
    requires i < |rows| && b.id == rows[i].id && !IsbnHeld(rows, b.isbn, Some(b.id))
    ensures UniqueIds(rows[i := b]) && UniqueIsbns(rows[i := b])
  {
    var r := rows[i := b];
    forall k, l | 0 <= k < l < |r| ensures r[k].id != r[l].id && r[k].isbn != r[l].isbn {
      if k == i {
        assert r[l] == rows[l];
      } else if l == i {
        assert r[k] == rows[k];
      }
    }
  }

  lemma ReplaceKeepsStampsAndOrder(rows: seq<Book>, nextId: nat, clock: nat, i: nat, b: Book)
    requires Stamped(rows, nextId, clock) && NewestFirst(rows)
    requires i < |rows| && b.id == rows[i].id
    requires b.createdAt == rows[i].createdAt && b.updatedAt == clock
    ensures Stamped(rows[i := b], nextId, clock + 1) && NewestFirst(rows[i := b])
  {
    var r := rows[i := b];
    assert forall k | 0 <= k < |r| :: r[k].createdAt == rows[k].createdAt;
  }

  lemma ReplaceKeepsClean(rows: seq<Book>, i: nat, b: Book)
    requires AllClean(rows) && i < |rows| && Clean(b).None?
    ensures AllClean(rows[i := b])
  {
    var r := rows[i := b];
    forall k | 0 <= k < |r| ensures RowClean(r, k) {
      if k != i { assert r[k] == rows[k] && RowClean(rows, k); }
    }
  }

  /** Rewriting the row at `i` with a clean row of the same id and an ISBN no
      other row holds, keeping its `created_at` and stamping `updated_at`
      with the current time, keeps the invariant once the clock moves on. */
  lemma ReplaceKeepsInvariant(rows: seq<Book>, nextId: nat, clock: nat, i: nat, b: Book)
    requires TableInvariant(rows, nextId, clock)
    requires i < |rows| && b.id == rows[i].id
    requires Clean(b).None? && !IsbnHeld(rows, b.isbn, Some(b.id))
    requires b.createdAt == rows[i].createdAt && b.updatedAt == clock
    ensures TableInvariant(rows[i := b], nextId, clock + 1)
  {
    ReplaceKeepsUniqueKeys(rows, i, b);
    ReplaceKeepsStampsAndOrder(rows, nextId, clock, i, b);
    ReplaceKeepsClean(rows, i, b);
  }

  lemma RemoveKeepsPairwise(rows: seq<Book>, i: nat)
    requires UniqueIds(rows) && UniqueIsbns(rows) && NewestFirst(rows) && i < |rows|
    ensures var r := rows[..i] + rows[i + 1..]; UniqueIds(r) && UniqueIsbns(r) && NewestFirst(r)
  {
    var r := rows[..i] + rows[i + 1..];
    forall k, l | 0 <= k < l < |r|
      ensures r[k].id != r[l].id && r[k].isbn != r[l].isbn && r[l].createdAt < r[k].createdAt
    {
      var k' := if k < i then k else k + 1;
      var l' := if l < i then l else l + 1;
      assert r[k] == rows[k'] && r[l] == rows[l'] && k' < l';
    }
  }

  lemma RemoveKeepsPointwise(rows: seq<Book>, nextId: nat, clock: nat, i: nat)
    requires AllClean(rows) && Stamped(rows, nextId, clock) && i < |rows|
    ensures var r := rows[..i] + rows[i + 1..]; AllClean(r) && Stamped(r, nextId, clock)
  {
    var r := rows[..i] + rows[i + 1..];
    forall k | 0 <= k < |r|
      ensures RowClean(r, k) && r[k].id < nextId && r[k].createdAt <= r[k].updatedAt < clock
    {
      var k' := if k < i then k else k + 1;
      assert r[k] == rows[k'] && RowClean(rows, k');
    }
  }

  /** Removing the row at `i` keeps the invariant. */
  lemma RemoveKeepsInvariant(rows: seq<Book>, nextId: nat, clock: nat, i: nat)
    requires TableInvariant(rows, nextId, clock)
    requires i < |rows|
    ensures TableInvariant(rows[..i] + rows[i + 1..], nextId, clock)
  {
    RemoveKeepsPairwise(rows, i);
    RemoveKeepsPointwise(rows, nextId, clock, i);
  }

  /** `after` is `before` with every row whose id is `id` replaced by `b`. */
  predicate RowReplaced(before: seq<Book>, after: seq<Book>, id: BookId, b: Book) {
    && |after| == |before|
    && forall k | 0 <= k < |after| :: after[k] == if before[k].id == id then b else before[k]
  }

  /** `b` carries the `created_at` of every row of `rows` whose id is `id`. */
  predicate CreatedAtKept(rows: seq<Book>, id: BookId, b: Book) {
    forall k | 0 <= k < |rows| && rows[k].id == id :: b.createdAt == rows[k].createdAt
  }

  /** With unique ids, rewriting the row at `i` rewrites exactly the row whose
      id is that row's id. */
  lemma ReplaceTouchesOneRow(rows: seq<Book>, i: nat, b: Book, r: seq<Book>)
    requires UniqueIds(rows) && i < |rows| && r == rows[i := b]
    ensures forall k | 0 <= k < |rows| && rows[k].id == rows[i].id :: k == i
    ensures RowReplaced(rows, r, rows[i].id, b)
  {
  }

  /** With unique ISBNs, no other row holds the ISBN of the row at `i`. */
  lemma OwnIsbnFree(rows: seq<Book>, i: nat)
    requires UniqueIsbns(rows) && i < |rows|
    ensures !IsbnHeld(rows, rows[i].isbn, Some(rows[i].id))
  {
  }

  /** With unique ids, removing the row at `i` removes exactly the rows whose id
      is that row's id. */
  lemma RemoveTouchesOneRow(rows: seq<Book>, i: nat)
    requires UniqueIds(rows) && i < |rows|
    ensures var r := rows[..i] + rows[i + 1..];
      && !HasId(r, rows[i].id)
      && forall b :: b in r <==> b in rows && b.id != rows[i].id
  {
    var r := rows[..i] + rows[i + 1..];
    assert forall k | 0 <= k < |r| :: r[k] == rows[if k < i then k else k + 1];
    forall b ensures b in r <==> b in rows && b.id != rows[i].id {
      if b in rows && b.id != rows[i].id {
        var k :| 0 <= k < |rows| && rows[k] == b;
        if k < i { assert r[k] == b; } else { assert r[k - 1] == b; }
      }
    }
  }

  /** The `books_book` table, kept newest first (`Meta.ordering`), together
      with the fresh-id supply standing in for `uuid4` and the logical clock
      standing in for `auto_now_add`/`auto_now`. */
  class BookTable {
    var rows: seq<Book>
    var nextId: nat
    var clock: nat

    predicate Valid()
      reads this
    {
      TableInvariant(rows, nextId, clock)
    }

    constructor ()
      ensures Valid() && rows == [] && nextId == 0 && clock == 0
    {
      rows := [];
      nextId := 0;
      clock := 0;
    }
    /** `Book.save`: `clean` runs first and a ValidationError leaves the table
        alone; then the database rejects a second row with the same ISBN, or
        fails for a reason of its own (`dbFault`); otherwise the row with `b`'s
        id is updated in place (keeping its `created_at`), or a new row is
        inserted, and `updated_at` (and on insert `created_at`) is stamped. */
    method Save(b: Book, dbFault: Option<string>) returns (outcome: SaveOutcome)
      requires Valid()
      modifies this
      ensures Valid()
      ensures outcome.CleanFailed? <==> Clean(b).Some?
      ensures outcome.CleanFailed? ==> outcome.field == Clean(b).value
      ensures outcome.IntegrityError? <==> Clean(b).None? && (IsbnHeld(old(rows), b.isbn, Some(b.id)) || dbFault.Some?)
      ensures outcome.IntegrityError? ==>
        outcome.message == if IsbnHeld(old(rows), b.isbn, Some(b.id)) then UniqueIsbnMessage else dbFault.value
      ensures !outcome.Saved? ==> rows == old(rows) && nextId == old(nextId) && clock == old(clock)
      ensures outcome.Saved? ==>
        && clock == old(clock) + 1
        && outcome.book.id == b.id && outcome.book.updatedAt == old(clock)
        && outcome.book == b.(createdAt := outcome.book.createdAt, updatedAt := old(clock))
      ensures outcome.Saved? && HasId(old(rows), b.id) ==>
        && nextId == old(nextId)
        && CreatedAtKept(old(rows), b.id, outcome.book)
        && RowReplaced(old(rows), rows, b.id, outcome.book)
      ensures outcome.Saved? && !HasId(old(rows), b.id) ==>
        && rows == [outcome.book] + old(rows)
        && outcome.book.createdAt == old(clock)
        && nextId == if b.id < old(nextId) then old(nextId) else b.id + 1
    {
      var failed := Clean(b);
      if failed.Some? {
        return CleanFailed(failed.value);
      }
      if IsbnHeld(rows, b.isbn, Some(b.id)) {
        return IntegrityError(UniqueIsbnMessage);
      }
      if dbFault.Some? {
        return IntegrityError(dbFault.value);
      }
      var stored := Store(b);
      outcome := Saved(stored);
    }

    /** The write `save` issues once `clean` and the unique index have passed. */
    method Store(b: Book) returns (stored: Book)
      requires Valid()
      requires Clean(b).None? && !IsbnHeld(rows, b.isbn, Some(b.id))
      modifies this
      ensures Valid()
      ensures clock == old(clock) + 1
      ensures stored == b.(createdAt := stored.createdAt, updatedAt := old(clock))
      ensures HasId(old(rows), b.id) ==>
        && nextId == old(nextId)
        && CreatedAtKept(old(rows), b.id, stored)
        && RowReplaced(old(rows), rows, b.id, stored)
      ensures !HasId(old(rows), b.id) ==>
        && rows == [stored] + old(rows)
        && stored.createdAt == old(clock)
        && nextId == if b.id < old(nextId) then old(nextId) else b.id + 1
    {
      var at := IndexOf(rows, b.id);
      if at.Some? {
        stored := Rewrite(at.value, b);
      } else {
        stored := Insert(b);
      }
    }

    /** The UPDATE `save` issues for a row that exists. */
    method Rewrite(i: nat, b: Book) returns (stored: Book)
      requires Valid()
      requires i < |rows| && rows[i].id == b.id
      requires Clean(b).None? && !IsbnHeld(rows, b.isbn, Some(b.id))
      modifies this
      ensures Valid()
      ensures stored == b.(createdAt := old(rows)[i].createdAt, updatedAt := old(clock))
      ensures CreatedAtKept(old(rows), b.id, stored)
      ensures RowReplaced(old(rows), rows, b.id, stored)
      ensures nextId == old(nextId) && clock == old(clock) + 1
    {
      stored := b.(createdAt := rows[i].createdAt, updatedAt := clock);
      ReplaceTouchesOneRow(rows, i, stored, rows[i := stored]);
      assert Clean(stored) == Clean(b) by {
        assert stored.title == b.title && stored.author == b.author && stored.genre == b.genre;
      }
      ReplaceKeepsInvariant(rows, nextId, clock, i, stored);
      rows := rows[i := stored];
      clock := clock + 1;
    }

    /** The INSERT `save` issues for a row that does not exist yet. */
    method Insert(b: Book) returns (stored: Book)
      requires Valid()
      requires !HasId(rows, b.id)
      requires Clean(b).None? && !IsbnHeld(rows, b.isbn, Some(b.id))
      modifies this
      ensures Valid()
      ensures stored == b.(createdAt := old(clock), updatedAt := old(clock))
      ensures rows == [stored] + old(rows)
      ensures nextId == (if b.id < old(nextId) then old(nextId) else b.id + 1) && clock == old(clock) + 1
    {
      stored := b.(createdAt := clock, updatedAt := clock);
      assert Clean(stored) == Clean(b) by {
        assert stored.title == b.title && stored.author == b.author && stored.genre == b.genre;
      }
      var supply := if b.id < nextId then nextId else b.id + 1;
      InsertKeepsInvariant(rows, nextId, clock, stored, supply);
      rows := [stored] + rows;
      nextId := supply;
      clock := clock + 1;
    }

    /** `book.delete()`: the row with primary key `id` disappears and every
        other row stays, in the same order. */
    method Delete(id: BookId)
      requires Valid()
      modifies this
      ensures Valid()
      ensures nextId == old(nextId) && clock == old(clock)
      ensures !HasId(rows, id)
      ensures forall b :: b in rows <==> b in old(rows) && b.id != id
      ensures |rows| == if HasId(old(rows), id) then |old(rows)| - 1 else |old(rows)|
    {
      var at := IndexOf(rows, id);
      if at.Some? {
        var i := at.value;
        RemoveKeepsInvariant(rows, nextId, clock, i);
        RemoveTouchesOneRow(rows, i);
        rows := rows[..i] + rows[i + 1..];
      }
    }
  }
}
