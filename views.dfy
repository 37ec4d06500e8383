/** `BookViewSet` of books/views.py: which serializer each action uses, how
    each handler turns an exception into a response, and the create,
    retrieve, update, destroy, list and stats actions over the book table. */
module Views {
  import opened Wrappers
  import opened Text
  import opened Models
  import opened Serializers
  import opened Filters
  import opened Statistics

  const HTTP_200_OK := 200
  const HTTP_201_CREATED := 201
  const HTTP_204_NO_CONTENT := 204
  const HTTP_400_BAD_REQUEST := 400
  const HTTP_404_NOT_FOUND := 404
  const HTTP_409_CONFLICT := 409
  const HTTP_500_INTERNAL_SERVER_ERROR := 500

  const BookAlreadyExists := "Book already exists"
  const ConstraintViolation := "Database constraint violation"
  const ValidationFailed := "Validation failed"
  const SomethingWentWrong := "Something went wrong!"
  const BookNotFound := "Book not found"

  /** The exceptions a handler can meet. The two ValidationError classes are
      distinct: the handlers name Django's, the serializers raise REST
      framework's. `get_object` raises `Http404` for a key no row has, never
      `Book.DoesNotExist`, so the handlers' `DoesNotExist` clauses are dead. */
  datatype Exception =
    | IntegrityError(message: string)
    | DjangoValidationError(field: Field)
    | DrfValidationError(error: SerializerError)
    | DoesNotExist
    | Http404
    | InvalidFilter
    | OtherException

  /** What the client receives. `Success` and `Failure` carry the `success`
      flag of the body, `Failure` its `error` text; `Unhandled` means an
      exception escaped the view. */
  datatype Body = NoBody | BookBody(book: Book) | ListBody(books: seq<Book>, count: nat) | StatsBody(stats: Stats)

  datatype Response =
    | Success(status: int, body: Body)
    | Failure(status: int, error: string)
    | Unhandled

  /** `'isbn' in str(e).lower()` */
  predicate MentionsIsbn(message: string) {
    Contains(Lower(message), "isbn")
  }

  /** The `IntegrityError` handler shared by create and update. */
  function IntegrityResponse(message: string): (r: Response)
    ensures r.Failure?
    ensures r.status == HTTP_409_CONFLICT <==> MentionsIsbn(message)
    ensures r.status == HTTP_409_CONFLICT ==> r.error == BookAlreadyExists
    ensures r.status != HTTP_409_CONFLICT ==> r == Failure(HTTP_400_BAD_REQUEST, ConstraintViolation)
  {
    if MentionsIsbn(message) then Failure(HTTP_409_CONFLICT, BookAlreadyExists)
    else Failure(HTTP_400_BAD_REQUEST, ConstraintViolation)
  }

  /** The `except` clauses of `create`, in their order. */
  function CreateErrorResponse(e: Exception): (r: Response)
    ensures r.Failure?
    ensures r.status == HTTP_409_CONFLICT <==> e.IntegrityError? && MentionsIsbn(e.message)
    ensures r.status == HTTP_400_BAD_REQUEST <==>
      (e.IntegrityError? && !MentionsIsbn(e.message)) || e.DjangoValidationError?
    ensures r.status == HTTP_500_INTERNAL_SERVER_ERROR <==> !e.IntegrityError? && !e.DjangoValidationError?
    ensures e.DjangoValidationError? ==> r.error == ValidationFailed
    ensures r.status == HTTP_500_INTERNAL_SERVER_ERROR ==> r.error == SomethingWentWrong
  {
    match e
    case IntegrityError(m) => IntegrityResponse(m)
    case DjangoValidationError(_) => Failure(HTTP_400_BAD_REQUEST, ValidationFailed)
    case _ => Failure(HTTP_500_INTERNAL_SERVER_ERROR, SomethingWentWrong)
  }

  /** The `except` clauses of `_update_book`. Its `Book.DoesNotExist` handler
      reads `kwargs`, which that method does not have, so the handler itself
      raises and the exception leaves the view. */
  function UpdateErrorResponse(e: Exception): (r: Response)
    ensures r.Unhandled? <==> e.DoesNotExist?
    ensures !e.DoesNotExist? ==> r == CreateErrorResponse(e)
  {
    match e
    case DoesNotExist => Unhandled
    case IntegrityError(m) => IntegrityResponse(m)
    case DjangoValidationError(_) => Failure(HTTP_400_BAD_REQUEST, ValidationFailed)
    case _ => Failure(HTTP_500_INTERNAL_SERVER_ERROR, SomethingWentWrong)
  }

  /** The `except` clauses of `retrieve` and of `destroy`. */
  function LookupErrorResponse(e: Exception): (r: Response)
    ensures r.Failure?
    ensures r.status == HTTP_404_NOT_FOUND <==> e.DoesNotExist?
    ensures r.status != HTTP_404_NOT_FOUND ==> r == Failure(HTTP_500_INTERNAL_SERVER_ERROR, SomethingWentWrong)
  {
    if e.DoesNotExist? then Failure(HTTP_404_NOT_FOUND, BookNotFound)
    else Failure(HTTP_500_INTERNAL_SERVER_ERROR, SomethingWentWrong)
  }

  /** Every exception gets an error response from create, retrieve and
      destroy, with one of the statuses they document; update answers every
      exception but `DoesNotExist` the way create does. */
  lemma ErrorRoutingTotal(e: Exception)
    ensures CreateErrorResponse(e).Failure? && CreateErrorResponse(e).status in {400, 409, 500}
    ensures LookupErrorResponse(e).Failure? && LookupErrorResponse(e).status in {404, 500}
    ensures UpdateErrorResponse(e).Unhandled? || UpdateErrorResponse(e).status in {400, 409, 500}
  {
  }

  /** Whatever the serializers reject, the client sees a 500 and never the
      400 "Validation failed" response, which only Django's ValidationError
      reaches. */
  lemma SerializerRejectionIsServerError(se: SerializerError)
    ensures CreateErrorResponse(DrfValidationError(se)) == Failure(HTTP_500_INTERNAL_SERVER_ERROR, SomethingWentWrong)
    ensures UpdateErrorResponse(DrfValidationError(se)) == Failure(HTTP_500_INTERNAL_SERVER_ERROR, SomethingWentWrong)
  {
  }

  /** A key no row has: `get_object` raises `Http404`, which the 404
      clauses do not catch, so the catch-all answers 500 in retrieve, update
      and destroy. */
  lemma MissingIdIsServerError()
    ensures LookupErrorResponse(Http404) == Failure(HTTP_500_INTERNAL_SERVER_ERROR, SomethingWentWrong)
    ensures UpdateErrorResponse(Http404) == Failure(HTTP_500_INTERNAL_SERVER_ERROR, SomethingWentWrong)
    ensures LookupErrorResponse(Http404) != LookupErrorResponse(DoesNotExist)
  {
  }

  /** The `retrieve` and `destroy` handlers as their 404 clauses intend
      them: a missing row, however it is reported, is "Book not found". */
  function IntendedLookupErrorResponse(e: Exception): (r: Response)
    ensures r.Failure?
    ensures r.status == HTTP_404_NOT_FOUND <==> e.DoesNotExist? || e.Http404?
    ensures r.status == HTTP_404_NOT_FOUND ==> r.error == BookNotFound
    ensures r.status != HTTP_404_NOT_FOUND ==> r == Failure(HTTP_500_INTERNAL_SERVER_ERROR, SomethingWentWrong)
  {
    if e.DoesNotExist? || e.Http404? then Failure(HTTP_404_NOT_FOUND, BookNotFound)
    else Failure(HTTP_500_INTERNAL_SERVER_ERROR, SomethingWentWrong)
  }

  /** The `_update_book` handlers as intended: a missing row is answered
      with 404 "Book not found", every other exception as create answers it. */
  function IntendedUpdateErrorResponse(e: Exception): (r: Response)
    ensures r.Failure?
    ensures e.DoesNotExist? || e.Http404? ==> r == Failure(HTTP_404_NOT_FOUND, BookNotFound)
    ensures !e.DoesNotExist? && !e.Http404? ==> r == CreateErrorResponse(e)
  {
    match e
    case DoesNotExist => Failure(HTTP_404_NOT_FOUND, BookNotFound)
    case Http404 => Failure(HTTP_404_NOT_FOUND, BookNotFound)
    case _ => CreateErrorResponse(e)
  }

  /** With the intended handlers a missing key answers 404 in all three
      actions, and every other exception is answered exactly as before. */
  lemma IntendedMissingIdIsNotFound(e: Exception)
    ensures IntendedLookupErrorResponse(Http404) == Failure(HTTP_404_NOT_FOUND, BookNotFound)
    ensures IntendedUpdateErrorResponse(Http404) == Failure(HTTP_404_NOT_FOUND, BookNotFound)
    ensures !e.Http404? ==> IntendedLookupErrorResponse(e) == LookupErrorResponse(e)
    ensures !e.Http404? && !e.DoesNotExist? ==> IntendedUpdateErrorResponse(e) == UpdateErrorResponse(e)
  {
  }

  /** The serializer classes of books/serializers.py. */
  datatype SerializerClass = BookSerializer | BookCreateSerializer | BookUpdateSerializer

  /** `get_serializer_class`. */
  function GetSerializerClass(action: string): (r: SerializerClass)
    ensures r == BookCreateSerializer <==> action == "create"
    ensures r == BookUpdateSerializer <==> action == "update" || action == "partial_update"
  {
    if action == "create" then BookCreateSerializer
    else if action in ["update", "partial_update"] then BookUpdateSerializer
    else BookSerializer
  }

  /** The read-only actions all serialize with the read serializer, and only
      the three writing actions get a validating one. */
  lemma SerializerPerAction()
    ensures GetSerializerClass("list") == BookSerializer
    ensures GetSerializerClass("retrieve") == BookSerializer
    ensures GetSerializerClass("destroy") == BookSerializer
    ensures GetSerializerClass("stats") == BookSerializer
    ensures forall a :: GetSerializerClass(a) != BookSerializer <==> a in {"create", "update", "partial_update"}
  {
  }

  /** What the handlers make of a `save` that did not write. */
  function Raised(o: SaveOutcome): (e: Exception)
    requires !o.Saved?
    ensures o.CleanFailed? <==> e.DjangoValidationError?
    ensures o.IntegrityError? ==> e == Exception.IntegrityError(o.message)
  {
    match o
    case CleanFailed(f) => DjangoValidationError(f)
    case IntegrityError(m) => Exception.IntegrityError(m)
  }

  /** The row with primary key `id`. */
  function Row(rows: seq<Book>, id: BookId): (b: Book)
    requires HasId(rows, id)
    ensures b in rows && b.id == id
  {
    rows[IndexOf(rows, id).value]
  }

  /** `get_object`: the filter backend narrows the table by the query
      parameters first, and the key is then looked up in what is left. A
      malformed parameter makes the backend raise REST framework's
      ValidationError, and a key the narrowed table lacks raises `Http404`. */
  function GetObject(rows: seq<Book>, q: Query, id: BookId): (r: Result<Book, Exception>)
    ensures q.Malformed? ==> r == Err(InvalidFilter)
    ensures q.Parsed? ==> (r.Ok? <==> exists i | 0 <= i < |rows| :: rows[i].id == id && Matches(q.filter, rows[i]))
    ensures r.Ok? ==> q.Parsed? && r.value in rows && r.value.id == id && Matches(q.filter, r.value)
    ensures q.Parsed? && r.Err? ==> r.error == Http404
  {
    if q.Malformed? then Err(InvalidFilter)
    else
      var visible := Apply(rows, q.filter);
      ApplyKeepsExactlyMatches(rows, q.filter);
      var at := IndexOf(visible, id);
      if at.None? then Err(Http404)
      else
        assert visible[at.value] in visible;
        Ok(visible[at.value])
  }

  /** The table holds the key and its row passes every filter of a
      well-formed query. */
  predicate Found(rows: seq<Book>, q: Query, id: BookId) {
    q.Parsed? && HasId(rows, id) && Matches(q.filter, Row(rows, id))
  }

  /** With unique keys, `get_object` finds a row exactly when the table holds
      the key and that row matches the query, and the row it finds is the
      keyed one. */
  lemma GetObjectFindsKeyedRow(rows: seq<Book>, q: Query, id: BookId)
    requires UniqueIds(rows)
    ensures GetObject(rows, q, id).Ok? <==> Found(rows, q, id)
    ensures GetObject(rows, q, id).Ok? ==> GetObject(rows, q, id).value == Row(rows, id)
    ensures GetObject(rows, q, id).Err? ==> GetObject(rows, q, id).error in {Http404, InvalidFilter}
  {
    var r := GetObject(rows, q, id);
    if HasId(rows, id) {
      var row := Row(rows, id);
      var j :| 0 <= j < |rows| && rows[j] == row;
      if r.Ok? {
        var i :| 0 <= i < |rows| && rows[i] == r.value;
      }
      if Found(rows, q, id) {
        assert rows[j].id == id && Matches(q.filter, rows[j]);
      }
    }
  }

  /** Every row is within the bounds the field declarations set. */
  predicate AllWithinBounds(rows: seq<Book>) {
    forall i | 0 <= i < |rows| :: RowWithinBounds(rows, i)
  }

  predicate RowWithinBounds(rows: seq<Book>, i: int)
    requires 0 <= i < |rows|
  {
    FieldsWithinBounds(rows[i])
  }

  /** Timestamps play no part in the field bounds. */
  lemma BoundsIgnoreStamps(b: Book, c: Book)
    requires c == b.(createdAt := c.createdAt, updatedAt := c.updatedAt)
    ensures FieldsWithinBounds(c) == FieldsWithinBounds(b)
  {
  }

  lemma InsertKeepsBounds(rows: seq<Book>, b: Book, r: seq<Book>)
    requires AllWithinBounds(rows) && FieldsWithinBounds(b) && r == [b] + rows
    ensures AllWithinBounds(r)
  {
    forall i | 0 <= i < |r| ensures RowWithinBounds(r, i) {
      if i > 0 {
        assert r[i] == rows[i - 1] && RowWithinBounds(rows, i - 1);
      }
    }
  }

  lemma ReplaceKeepsBounds(rows: seq<Book>, id: BookId, b: Book, r: seq<Book>)
    requires AllWithinBounds(rows) && FieldsWithinBounds(b) && RowReplaced(rows, r, id, b)
    ensures AllWithinBounds(r)
  {
    forall i | 0 <= i < |r| ensures RowWithinBounds(r, i) {
      assert r[i] == if rows[i].id == id then b else rows[i];
      assert RowWithinBounds(rows, i);
    }
  }

  lemma SubsetKeepsBounds(rows: seq<Book>, r: seq<Book>)
    requires AllWithinBounds(rows) && forall b | b in r :: b in rows
    ensures AllWithinBounds(r)
  {
    forall i | 0 <= i < |r| ensures RowWithinBounds(r, i) {
      assert r[i] in rows;
      var j :| 0 <= j < |rows| && rows[j] == r[i];
      assert RowWithinBounds(rows, j);
    }
  }

  /** Stored stock is never negative. */
  lemma StockNonNegative(rows: seq<Book>)
    requires AllWithinBounds(rows)
    ensures forall i | 0 <= i < |rows| :: StockInRange(rows[i].stock)
  {
    forall i | 0 <= i < |rows| ensures StockInRange(rows[i].stock) {
      assert RowWithinBounds(rows, i);
    }
  }

  /** The book `update` builds from a stored row and a payload the update
      serializer accepts can be saved: it passes `clean`, stays within the
      field bounds, keeps the row's key and `created_at`, and takes no other
      row's ISBN. */
  lemma MergedBookStorable(rows: seq<Book>, at: nat, p: Payload, partial: bool)
    requires UniqueIsbns(rows) && AllClean(rows) && AllWithinBounds(rows)
    requires at < |rows| && UpdateValidate(p, rows, rows[at].id, partial).Ok?
    ensures var b := Merge(rows[at], UpdateValidate(p, rows, rows[at].id, partial).value);
      && BookValid(b)
      && b.id == rows[at].id && b.createdAt == rows[at].createdAt
      && !IsbnHeld(rows, b.isbn, Some(b.id))
  {
    var instance := rows[at];
    var a := UpdateValidate(p, rows, instance.id, partial).value;
    assert BookValid(instance) by {
      assert RowClean(rows, at) && RowWithinBounds(rows, at);
    }
    UpdatedBookValid(p, rows, instance, partial);
    if a.isbn.None? {
      OwnIsbnFree(rows, at);
    }
  }

  class BookViewSet {
    const table: BookTable

    /** Every stored row is within the bounds the field declarations set:
        rows only arrive through the serializers. */
    predicate Valid()
      reads this, table
    {
      && table.Valid()
      && AllWithinBounds(table.rows)
    }

    constructor ()
      ensures Valid() && fresh(table) && table.rows == []
    {
      table := new BookTable();
    }

    /** `create`: validate with `BookCreateSerializer`, save, answer 201 with
        the new book; any exception leaves the table as it was. */
    method Create(payload: Payload, dbFault: Option<string>) returns (resp: Response)
      requires Valid()
      modifies table
      ensures Valid()
      ensures CreateValidate(payload, old(table.rows)).Err? ==>
        resp == Failure(HTTP_500_INTERNAL_SERVER_ERROR, SomethingWentWrong)
      ensures CreateValidate(payload, old(table.rows)).Ok? && dbFault.Some? ==>
        resp == IntegrityResponse(dbFault.value)
      ensures resp.Success? <==> CreateValidate(payload, old(table.rows)).Ok? && dbFault.None?
      ensures resp.Success? ==>
        && resp.status == HTTP_201_CREATED
        && table.rows == [NewBook(CreateValidate(payload, old(table.rows)).value, old(table.nextId), old(table.clock))]
                         + old(table.rows)
        && resp.body == BookBody(table.rows[0])
      ensures !resp.Success? ==> table.rows == old(table.rows)
    {
      var v := CreateValidate(payload, table.rows);
      if v.Err? {
        resp := CreateErrorResponse(DrfValidationError(v.error));
        return;
      }
      var id := table.nextId;
      CreatedBookValid(payload, table.rows, id, table.clock);
      var book := NewBook(v.value, id, table.clock);
      assert !HasId(table.rows, id);
      ghost var before := table.rows;
      var outcome := table.Save(book, dbFault);
      if outcome.Saved? {
        assert outcome.book == book;
        assert table.rows == [book] + before;
        InsertKeepsBounds(before, book, table.rows);
        assert table.rows[0] == outcome.book;
        resp := Success(HTTP_201_CREATED, BookBody(outcome.book));
      } else {
        resp := CreateErrorResponse(Raised(outcome));
        assert !resp.Success?;
      }
      assert table.Valid() && AllWithinBounds(table.rows);
    }

    /** `retrieve`: 200 with the book `get_object` finds. When it finds none
        (a malformed query, a key no row has, or a row the query's filters
        exclude) the catch-all answers 500. */
    function Retrieve(id: BookId, q: Query): (r: Response)
      requires Valid()
      reads this, table
      ensures r.Success? <==> Found(table.rows, q, id)
      ensures r.Success? ==> r.status == HTTP_200_OK && r.body == BookBody(Row(table.rows, id))
      ensures !r.Success? ==> r == Failure(HTTP_500_INTERNAL_SERVER_ERROR, SomethingWentWrong)
    {
      GetObjectFindsKeyedRow(table.rows, q, id);
      var obj := GetObject(table.rows, q, id);
      if obj.Ok? then Success(HTTP_200_OK, BookBody(obj.value))
      else LookupErrorResponse(obj.error)
    }

    /** `update` and `partial_update`: load the row, validate with
        `BookUpdateSerializer`, set the attributes and save, answer 200 with
        the book. When `get_object` finds no row (a malformed query, a key no
        row has, or a row the query's filters exclude) the catch-all answers
        500. */
    method Update(id: BookId, q: Query, payload: Payload, partial: bool, dbFault: Option<string>) returns (resp: Response)
      requires Valid()
      modifies table
      ensures Valid()
      ensures !resp.Success? ==> table.rows == old(table.rows)
      ensures !Found(old(table.rows), q, id) ==> resp == Failure(HTTP_500_INTERNAL_SERVER_ERROR, SomethingWentWrong)
      ensures Found(old(table.rows), q, id) && UpdateValidate(payload, old(table.rows), id, partial).Err? ==>
        resp == Failure(HTTP_500_INTERNAL_SERVER_ERROR, SomethingWentWrong)
      ensures Found(old(table.rows), q, id) && UpdateValidate(payload, old(table.rows), id, partial).Ok? && dbFault.Some? ==>
        resp == IntegrityResponse(dbFault.value)
      ensures resp.Success? <==>
        Found(old(table.rows), q, id) && UpdateValidate(payload, old(table.rows), id, partial).Ok? && dbFault.None?
      ensures resp.Success? ==>
        && resp.status == HTTP_200_OK
        && resp.body.BookBody?
        && resp.body.book == Merge(Row(old(table.rows), id), UpdateValidate(payload, old(table.rows), id, partial).value)
                               .(updatedAt := old(table.clock))
        && RowReplaced(old(table.rows), table.rows, id, resp.body.book)
    {
      GetObjectFindsKeyedRow(table.rows, q, id);
      var obj := GetObject(table.rows, q, id);
      if obj.Err? {
        resp := UpdateErrorResponse(obj.error);
        return;
      }
      resp := UpdateFound(id, payload, partial, dbFault);
    }

    /** The part of `_update_book` after `get_object` found the row with key
        `id`: validate, set the attributes and save. */
    method UpdateFound(id: BookId, payload: Payload, partial: bool, dbFault: Option<string>) returns (resp: Response)
      requires Valid() && HasId(table.rows, id)
      modifies table
      ensures Valid()
      ensures !resp.Success? ==> table.rows == old(table.rows)
      ensures UpdateValidate(payload, old(table.rows), id, partial).Err? ==>
        resp == Failure(HTTP_500_INTERNAL_SERVER_ERROR, SomethingWentWrong)
      ensures UpdateValidate(payload, old(table.rows), id, partial).Ok? && dbFault.Some? ==>
        resp == IntegrityResponse(dbFault.value)
      ensures resp.Success? <==> UpdateValidate(payload, old(table.rows), id, partial).Ok? && dbFault.None?
      ensures resp.Success? ==>
        && resp.status == HTTP_200_OK
        && resp.body.BookBody?
        && resp.body.book == Merge(Row(old(table.rows), id), UpdateValidate(payload, old(table.rows), id, partial).value)
                               .(updatedAt := old(table.clock))
        && RowReplaced(old(table.rows), table.rows, id, resp.body.book)
    {
      var at := IndexOf(table.rows, id);
      var instance := table.rows[at.value];
      var v := UpdateValidate(payload, table.rows, id, partial);
      if v.Err? {
        resp := UpdateErrorResponse(DrfValidationError(v.error));
        assert resp == Failure(HTTP_500_INTERNAL_SERVER_ERROR, SomethingWentWrong);
        return;
      }
      MergedBookStorable(table.rows, at.value, payload, partial);
      assert instance == Row(table.rows, id);
      var book := Merge(instance, v.value);
      resp := SaveMerged(at.value, book, dbFault);
      assert table.Valid() && AllWithinBounds(table.rows);
    }

    /** The part of `update` after validation: `serializer.save()` with the
        row at index `at` turned into `book`, answered with 200 and the saved
        book. */
    method SaveMerged(at: nat, book: Book, dbFault: Option<string>) returns (resp: Response)
      requires Valid()
      requires at < |table.rows|
      requires book.id == table.rows[at].id && book.createdAt == table.rows[at].createdAt
      requires BookValid(book) && !IsbnHeld(table.rows, book.isbn, Some(book.id))
      modifies table
      ensures Valid()
      ensures !resp.Success? ==> table.rows == old(table.rows)
      ensures dbFault.Some? ==> resp == IntegrityResponse(dbFault.value)
      ensures resp.Success? <==> dbFault.None?
      ensures resp.Success? ==>
        && resp.status == HTTP_200_OK
        && resp.body == BookBody(book.(updatedAt := old(table.clock)))
        && RowReplaced(old(table.rows), table.rows, book.id, resp.body.book)
    {
      ghost var before := table.rows;
      var outcome := table.Save(book, dbFault);
      if outcome.Saved? {
        assert HasId(before, book.id);
        assert before[at].id == book.id && outcome.book.createdAt == before[at].createdAt;
        BoundsIgnoreStamps(book, outcome.book);
        ReplaceKeepsBounds(before, book.id, outcome.book, table.rows);
        resp := Success(HTTP_200_OK, BookBody(outcome.book));
      } else {
        resp := UpdateErrorResponse(Raised(outcome));
      }
      assert table.Valid() && AllWithinBounds(table.rows);
    }

    /** `destroy`: 204 once the row `get_object` finds is gone. When it finds
        none (a malformed query, a key no row has, or a row the query's
        filters exclude) the catch-all answers 500. */
    method Destroy(id: BookId, q: Query) returns (resp: Response)
      requires Valid()
      modifies table
      ensures Valid()
      ensures Found(old(table.rows), q, id) ==>
        && resp == Success(HTTP_204_NO_CONTENT, NoBody)
        && |table.rows| == |old(table.rows)| - 1
        && forall b :: b in table.rows <==> b in old(table.rows) && b.id != id
      ensures !Found(old(table.rows), q, id) ==>
        resp == Failure(HTTP_500_INTERNAL_SERVER_ERROR, SomethingWentWrong) && table.rows == old(table.rows)
    {
      GetObjectFindsKeyedRow(table.rows, q, id);
      var obj := GetObject(table.rows, q, id);
      if obj.Err? {
        resp := LookupErrorResponse(obj.error);
        return;
      }
      ghost var before := table.rows;
      table.Delete(id);
      SubsetKeepsBounds(before, table.rows);
      resp := Success(HTTP_204_NO_CONTENT, NoBody);
    }

    /** `list` without pagination: the filtered books, newest first, and
        their count. A malformed query makes the filter backend raise, and
        the catch-all answers 500. */
    function List(q: Query): (r: Response)
      requires Valid()
      reads this, table
      ensures r.Success? <==> q.Parsed?
      ensures q.Malformed? ==> r == Failure(HTTP_500_INTERNAL_SERVER_ERROR, SomethingWentWrong)
      ensures r.Success? ==> r.status == HTTP_200_OK && r.body.ListBody? && r.body.count == |r.body.books|
      ensures r.Success? ==> forall b :: b in r.body.books <==> b in table.rows && Matches(q.filter, b)
      ensures r.Success? ==> Subsequence(r.body.books, table.rows) && NewestFirst(r.body.books)
      ensures r.Success? ==> forall i, j | 0 <= i < j < |r.body.books| :: r.body.books[i] != r.body.books[j]
    {
      if q.Malformed? then Failure(HTTP_500_INTERNAL_SERVER_ERROR, SomethingWentWrong)
      else
        ApplyKeepsExactlyMatches(table.rows, q.filter);
        ChainIsSubsequence(table.rows, Criteria(q.filter));
        var data := Apply(table.rows, q.filter);
        Success(HTTP_200_OK, ListBody(data, |data|))
    }

    /** `stats`. */
    function Stats(): (r: Response)
      requires Valid()
      reads this, table
      ensures r.Success? && r.status == HTTP_200_OK && r.body.StatsBody?
      ensures r.body.stats == ComputeStats(table.rows)
      ensures var s := r.body.stats;
        && s.totalBooks == |table.rows|
        && s.outOfStockBooks <= s.totalBooks
        && s.genresCount <= s.totalBooks
        && s.cheapestCents <= s.mostExpensiveCents
        && s.totalStock >= 0
        && s.cheapestCents * s.totalBooks <= s.priceSumCents <= s.mostExpensiveCents * s.totalBooks
    {
      StockNonNegative(table.rows);
      StatsRelations(table.rows);
      Success(HTTP_200_OK, StatsBody(ComputeStats(table.rows)))
    }
  }
}
