# Bookstore catalogue in Dafny

A model of the catalogue core of a Django / Django REST framework bookstore
API, with the properties its code promises stated and proved.

The model covers these parts:

- The `Book` entity and its declared field bounds.
- `Book.clean` and `Book.save`.
- The shape check `validate_isbn`.
- The create and update serializers, including the field pass that REST
  framework derives from the model fields.
- The `BookFilter` query filters.
- The `BookViewSet` actions: `create`, `retrieve`, `update`/`partial_update`,
  `destroy`, unpaginated `list`, and `stats`.
- The way each action turns an exception into a status code.

The database table is a class, `Models.BookTable`. It holds three things:

- the rows, newest first, as `Meta.ordering = ['-created_at']` asks;
- a fresh-id supply standing in for `uuid4`;
- a logical clock standing in for `auto_now_add`/`auto_now`.

`Save` and `Delete` change the table in place. The view set, `Views.BookViewSet`,
holds the table and its `Create`, `Update` and `Destroy` methods modify it.
Validators, filters, statistics and error routing are pure functions.

Prices are integer cents. The `DecimalField(max_digits=8, decimal_places=2)`
becomes at most 99 999 999 cents. Its `MinValueValidator(0.01)` holds the
float `0.01`, and the decimal price is compared with that float exactly. The
float is a little above one cent, so the least accepted price is 2 cents.

Modules:

| file | module | contents |
|---|---|---|
| wrappers.dfy | `Wrappers` | `Option`, `Result` |
| text.dfy | `Text` | `str.strip`, `str.isspace`, blank test, lower-casing, substring search |
| isbn.dfy | `IsbnFormat` | the `validate_isbn` regular expression |
| models.dfy | `Models` | `Book`, field bounds, `clean`, the table and `save` |
| serializers.dfy | `Serializers` | `BookCreateSerializer`, `BookUpdateSerializer` |
| filters.dfy | `Filters` | `BookFilter` |
| stats.dfy | `Statistics` | the `stats` figures |
| views.dfy | `Views` | `BookViewSet` and its exception handlers |

### Where the code and its documentation disagree

The model follows the code in each of these cases.

- **Serializer rejections become 500, not 400.** The handlers' 400
  "Validation failed" branch catches Django's
  `django.core.exceptions.ValidationError`. The serializers raise REST
  framework's `serializers.ValidationError`, which is a different class. Any
  rejected payload therefore falls to the catch-all 500 branch. This covers
  a blank title, a duplicate ISBN on create, and an empty PATCH. See
  `Views.SerializerRejectionIsServerError`,
  `Serializers.DuplicateIsbnRejectedOnCreate`,
  `Serializers.BlankTextRejectedOnCreate` and the contract of
  `Views.BookViewSet.Create`.
- **A duplicate ISBN on create does not give 409.** The serializer checks
  the ISBN before the database does, so the 409 branch is reached only when
  the database itself raises an IntegrityError. In the model that is the
  `dbFault` parameter.
- **A missing id answers 500, not 404.** `get_object` raises REST
  framework's `Http404` for a key no row has, not `Book.DoesNotExist`. The
  `DoesNotExist` clauses of `retrieve`, `_update_book` and `destroy` never
  run, and the catch-all answers 500 "Something went wrong!". See the
  Findings table below.
- **The list filters also narrow the detail routes.** `get_object` runs the
  filter backend before the lookup. A retrieve, update or destroy whose
  query parameters exclude the row answers 500 and changes nothing, as for a
  missing key. A query parameter that does not parse makes the backend raise
  REST framework's ValidationError, which every one of these actions and
  `list` answer with 500.
- **The update handler for a missing row is broken as well.** Its
  `Book.DoesNotExist` clause reads `kwargs`, which `_update_book` does not
  have, so it would raise if it were ever reached. The model keeps that
  mapping as `Unhandled` in `Views.UpdateErrorResponse`.
- **The least price is 2 cents, not 1.** See `Models.FloatMinimumIsTwoCents`.

## Model

| member | source | states |
|---|---|---|
| Text.Strip | books/serializers.py:66 | `strip()` returns a string no longer than its argument that neither starts nor ends with whitespace |
| Text.StripRemovesOnlySpace | books/serializers.py:66 | `strip()` keeps one slice of the argument, and everything outside that slice is whitespace |
| Text.StripEmptyIffAllSpace | books/serializers.py:64 | `value.strip()` is empty exactly when `value` is whitespace only |
| Text.BlankIffAllSpace | books/models.py:103 | `not s or not s.strip()` holds exactly when `s` is whitespace only (the empty string included) |
| Text.StripIdempotent | books/serializers.py:62-78 | stripping a stripped value changes nothing |
| Text.StrippedNotBlank | books/serializers.py:64-66 | a value that is not blank strips to a non-empty value with no whitespace at either end, which is not blank either |
| Text.StripIsSubstring | books/serializers.py:66 | what `strip()` returns occurs in its argument |
| Text.LowerChar | books/views.py:266 | each upper-case ASCII letter maps to its own lower-case letter (code point plus 32); every other character is unchanged |
| Text.Lower | books/filters.py:9-11 | lower-casing keeps the length and maps each character by `LowerChar` |
| IsbnFormat.WithoutFinalNewline | books/models.py:10 | `$` also matches before a final newline: the pattern is matched against the value with at most that newline removed |
| IsbnFormat.Isbn10ShapeAccepted | books/models.py:8-12 | any nine digits followed by a digit or `X` pass; no check digit is computed |
| IsbnFormat.Isbn13ShapeAccepted | books/models.py:8-12 | `978` or `979` followed by any ten digits passes |
| IsbnFormat.PlainIsbnOnlyPlainForms | books/models.py:8-12 | a value made only of digits and `X` that passes has one of those two forms |
| IsbnFormat.PlainIsbnCharacterised | books/models.py:8-12 | for values made only of digits and `X`, passing holds exactly for the two plain forms |
| IsbnFormat.BodyChars | books/models.py:10 | the part of the pattern after the lookahead matches only digits and separators, except the last character |
| IsbnFormat.GroupedIsbn13Accepted | books/models.py:10 | an ISBN-13 written 3-1-3-5-1 with hyphens or spaces passes |
| IsbnFormat.HyphenatedIsbn13Accepted | books/models.py:10 | `978-0-306-40615-7` passes |
| IsbnFormat.LabelledIsbnAccepted | books/models.py:10 | `ISBN-10: 0306406152` followed by a newline passes |
| Models.FloatMinimumIsTwoCents | books/models.py:55-58 | a price passes `MinValueValidator(0.01)`, which compares it with the float nearest 0.01, exactly when it is at least 2 cents |
| Models.Clean | books/models.py:98-110 | `clean` passes exactly when title, author and genre are all non-blank. Otherwise it reports the first blank one, in the order title, author, genre |
| Models.BookValidIff | books/models.py:25-110 | a stored book is valid exactly when its three text fields are non-blank and every field is within its declared bounds |
| Models.CleanPassesIffNoneAllSpace | books/models.py:103-110 | `clean` passes exactly when none of title, author and genre is whitespace only |
| Models.IndexOf | books/views.py:335 | finds the first row with the given key, and finds none exactly when no row has it |
| Models.InsertKeepsInvariant | books/models.py:112-115 | inserting a row that passes `clean`, with a fresh id, an unused ISBN and the current time keeps the table invariant: unique ids and ISBNs, every row clean, stamps from the clock, newest first |
| Models.ReplaceKeepsInvariant | books/models.py:112-115 | rewriting a row with a clean book of the same id, an ISBN no other row holds, its old `created_at` and the current `updated_at` keeps the table invariant |
| Models.RemoveKeepsInvariant | books/views.py:430 | removing a row keeps the table invariant |
| Models.ReplaceTouchesOneRow | books/models.py:18-19 | with unique primary keys, rewriting the row at one index rewrites exactly the row with that key |
| Models.OwnIsbnFree | books/models.py:35-37 | with unique ISBNs, no row other than a book's own holds that book's ISBN |
| Models.RemoveTouchesOneRow | books/views.py:430 | with unique primary keys, removing one row removes exactly the rows with that key and keeps all others |
| Models.BookTable.Save | books/models.py:112-115 | `clean` runs first, and a ValidationError leaves the table unchanged. Then a duplicate ISBN or a database fault raises IntegrityError, again with the table unchanged. Otherwise the existing row is rewritten in place (keeping `created_at`) or the new row is inserted first; the invariant is kept either way |
| Models.BookTable.Store | books/models.py:115 | the database write: an UPDATE when the key exists, otherwise an INSERT; the clock is stamped and the invariant kept |
| Models.BookTable.Rewrite | books/models.py:115 | the UPDATE replaces exactly the row with the book's key, keeps its `created_at` and stamps `updated_at` |
| Models.BookTable.Insert | books/models.py:115 | the INSERT puts the new row first, stamps both timestamps and advances the id supply |
| Models.BookTable.Delete | books/views.py:430 | the row with the key disappears, every other row stays, and the invariant is kept |
| Serializers.ValidateCreateText | books/serializers.py:62-78 | rejects exactly whitespace-only values and names the field. Otherwise it returns exactly the stripped value, which is non-blank, a substring of the input and no longer than it |
| Serializers.ValidateCreateTextIdempotent | books/serializers.py:62-78 | what a create text validator returns passes it again unchanged |
| Serializers.ValidateCreateIsbn | books/serializers.py:80-84 | rejects exactly the ISBNs some stored book holds, and returns any other unchanged |
| Serializers.ValidateUpdateText | books/serializers.py:97-113 | passes `None` through, rejects exactly the empty and whitespace-only strings, and strips everything else (agreeing with the create validator) |
| Serializers.ValidateUpdateIsbn | books/serializers.py:115-119 | rejects exactly a non-empty ISBN held by a book other than the one being updated; an empty value skips the lookup |
| Serializers.ValidateUpdateAttrs | books/serializers.py:121-125 | rejects exactly the empty attribute set, and otherwise returns the attributes unchanged |
| Serializers.ResubmittedIsbnAccepted | books/serializers.py:115-119 | resubmitting a book's own ISBN is accepted on update |
| Serializers.CharFieldPass | books/serializers.py:55-60 | a model `CharField` accepts exactly a present, non-blank value whose stripped form fits `max_length` and holds no NUL character, and keeps the stripped form. A missing key is skipped only on a partial update |
| Serializers.NumberFieldPass | books/models.py:42-65 | an integer or price field accepts exactly a present value within its validators' bounds. A missing key is skipped on a partial update or when the model has a default |
| Serializers.DescriptionFieldPass | books/models.py:67-72 | `description` is never required and accepts `null`; a given value is accepted exactly when its stripped form fits 1000 characters and holds no NUL character |
| Serializers.TextField | books/serializers.py:62-78 | title, author and genre are accepted exactly when the field pass accepts them, and the custom validator keeps the stripped value |
| Serializers.IsbnField | books/models.py:35-40 | `isbn` is accepted exactly when it fits 17 characters, has the ISBN shape and is held by no other book |
| Serializers.CreateAcceptsExactly | books/serializers.py:52-84 | the create serializer accepts a payload exactly when every field meets its declared bounds (a price of 2 to 99 999 999 cents), title, author and genre are not blank, no text holds a NUL character, and the ISBN has the right shape and is unused |
| Serializers.DuplicateIsbnRejectedOnCreate | books/serializers.py:80-84 | a create payload whose ISBN a stored book holds is rejected |
| Serializers.BlankTextRejectedOnCreate | books/serializers.py:62-78 | a create payload with a whitespace-only title, author or genre is rejected |
| Serializers.CreatedBookValid | books/serializers.py:52-84 | what the create serializer accepts builds a valid book with an unused ISBN and the stripped text fields |
| Serializers.UpdatedBookValid | books/serializers.py:87-125 | what the update serializer accepts, set on a valid book, gives a valid book; a new ISBN is held by no other book; a full update supplies every required field |
| Serializers.EmptyPartialUpdateRejected | books/serializers.py:121-125 | a PATCH with an empty body fails with the "at least one field" error |
| Serializers.EmptyFullUpdateRejected | books/serializers.py:87-95 | a PUT with an empty body fails on exactly the six required fields |
| Serializers.TextValidatorsNeverReject | books/serializers.py:62-113 | the custom text validators of both serializers return unchanged whatever the field pass accepted |
| Filters.Keep | books/filters.py:9-34 | a filter keeps exactly the books satisfying its predicate and never adds any |
| Filters.SubsequenceTransitive | books/filters.py:5-54 | leaving books out of a list that already left books out is leaving books out of the original |
| Filters.SubsequenceKeepsOrder | books/views.py:298 | leaving books out of a newest-first list keeps it newest first |
| Filters.KeepIsSubsequence | books/filters.py:9-34 | a filter returns the queryset with some books left out and the rest in their order; a newest-first queryset stays newest first |
| Filters.FilterInStock | books/filters.py:48-54 | `True` keeps exactly the books with stock above 0, `False` exactly those with stock 0, and no value keeps the queryset unchanged |
| Filters.InStockPartition | books/filters.py:48-54 | with no negative stock, `in_stock=true` and `in_stock=false` split the queryset between them |
| Filters.RangeIsMinThenMax | books/filters.py:15-25 | a range filter narrows exactly as the inclusive `gte` filter followed by the inclusive `lte` filter |
| Filters.Chain | books/filters.py:5-34 | applying filters one after another keeps exactly the books that satisfy all of them, and never adds any |
| Filters.ChainIsSubsequence | books/filters.py:5-54 | the filters one after another only leave books out, keeping the order of the rest, so a newest-first queryset stays newest first |
| Filters.CriteriaMeanMatches | books/filters.py:9-34 | a book passes every declared filter exactly when it matches each given parameter: `icontains` on the text fields, exact ISBN, inclusive bounds on price, year, stock and timestamps, and the stock status |
| Filters.ApplyKeepsExactlyMatches | books/filters.py:9-54 | the filtered list holds exactly the books of the queryset that match every given parameter, and no book the queryset lacks |
| Filters.NoFilterKeepsAll | books/filters.py:9-54 | with no parameters the list is the whole queryset, in order |
| Statistics.SumStock | books/views.py:492 | `Sum('stock')` is None exactly on an empty queryset. Otherwise, with no negative stock, it is non-negative and at least every row's stock |
| Statistics.SumStockAppend | books/views.py:492 | the stock total of two querysets together is the sum of their totals |
| Statistics.MaxPrice | books/views.py:496 | `Max('price')` is None exactly on an empty queryset. Otherwise it is at least every price and equal to one of them |
| Statistics.MinPrice | books/views.py:497 | `Min('price')` is None exactly on an empty queryset. Otherwise it is at most every price and equal to one of them |
| Statistics.Genres | books/views.py:494 | the distinct genres are exactly the genre strings that occur |
| Statistics.OrZero | books/views.py:492-497 | `x or 0` turns a missing aggregate into 0 and keeps any other value |
| Statistics.EmptyCatalogueStats | books/views.py:490-498 | an empty catalogue reports zero for every figure |
| Statistics.GenresAtMostBooks | books/views.py:494 | there are no more distinct genres than books |
| Statistics.PriceSumBetweenExtremes | books/views.py:495-497 | the price sum lies between cheapest × count and dearest × count, so the average lies between the two |
| Statistics.StatsRelations | books/views.py:490-498 | out-of-stock count ≤ total; genres ≤ total, and at least one when there are books; cheapest ≤ dearest; total stock is non-negative and at least any row's stock; average bounded by the extremes |
| Statistics.OutOfStockMatchesFilter | books/views.py:493 | the out-of-stock count plus the size of the `in_stock=true` list is the number of books |
| Views.IntegrityResponse | books/views.py:264-277 | an IntegrityError whose message contains "isbn" in any case gives 409 "Book already exists"; any other gives 400 |
| Views.CreateErrorResponse | books/views.py:264-293 | `create`'s handlers: 409/400 for IntegrityError as above, 400 for Django's ValidationError, 500 for everything else |
| Views.UpdateErrorResponse | books/views.py:385-421 | `_update_book`'s handlers answer like `create`'s, so `Http404` gets 500, except that `DoesNotExist` escapes the view |
| Views.LookupErrorResponse | books/views.py:344-357 | `retrieve`'s and `destroy`'s handlers give 404 exactly for `DoesNotExist`, and 500 for everything else, `Http404` included |
| Views.MissingIdIsServerError | books/views.py:335-357 | for a key no row has, `get_object` raises `Http404`, which retrieve, update and destroy answer with 500 rather than the 404 "Book not found" response |
| Views.IntendedLookupErrorResponse | books/views.py:344-349 | the intended retrieve and destroy handlers: 404 "Book not found" exactly for a missing row, however it is reported, and 500 otherwise |
| Views.IntendedUpdateErrorResponse | books/views.py:385-390 | the intended update handlers: 404 "Book not found" for a missing row, and create's answer for every other exception |
| Views.IntendedMissingIdIsNotFound | books/views.py:344-349 | with the intended handlers a missing key answers 404 in all three actions, and every other exception is answered exactly as the code answers it |
| Views.ErrorRoutingTotal | books/views.py:264-452 | every exception gets a documented status from create (400/409/500) and from retrieve and destroy (404/500). Update answers every exception except a missing row |
| Views.SerializerRejectionIsServerError | books/views.py:279-293 | whatever the serializers reject, create and update answer 500, never 400 |
| Views.GetSerializerClass | books/views.py:239-245 | the create serializer exactly for `create`, the update serializer exactly for `update`/`partial_update` |
| Views.SerializerPerAction | books/views.py:239-245 | only the three writing actions get a validating serializer; list, retrieve, destroy and stats get the read serializer |
| Views.Raised | books/models.py:103-115 | a failing `clean` surfaces as Django's ValidationError, and a database rejection as IntegrityError with its message |
| Views.Row | books/views.py:335 | `get_object` returns a stored row with the requested key |
| Views.GetObject | books/views.py:232-233 | `get_object` narrows the table by the filter set first: a malformed query raises the filter backend's ValidationError; otherwise it finds a row exactly when some stored row has the key and matches every filter, and raises `Http404` when none does |
| Views.GetObjectFindsKeyedRow | books/views.py:335 | with unique keys, `get_object` finds a row exactly when the query is well formed, the key is stored and its row matches the filters; the row it finds is that row, and every failure is `Http404` or the filter error |
| Views.StockNonNegative | books/models.py:62-65 | stored stock is never negative |
| Views.MergedBookStorable | books/views.py:370-374 | the book `update` builds from a stored row and an accepted payload passes `clean`, is within bounds, keeps the key and `created_at`, and takes no other row's ISBN |
| Views.BookViewSet.Create | books/views.py:247-293 | 201 with the new book exactly when the payload validates and the database accepts it; the table gains exactly that book, first. A rejected payload gives 500 and a database error is routed by the IntegrityError handler; either way the table is unchanged |
| Views.BookViewSet.Retrieve | books/views.py:332-357 | 200 with the stored book of that key exactly when the query is well formed, the key is stored and its row passes the query's filters; otherwise 500 "Something went wrong!" |
| Views.BookViewSet.Update | books/views.py:359-421 | 200 with the merged book exactly when `get_object` finds the row (well-formed query, stored key, row passing the filters), the payload validates and the database accepts it; only that row changes. A row not found and a rejected payload give 500, and on every failure the table is unchanged |
| Views.BookViewSet.UpdateFound | books/views.py:371-421 | once the row is found: 200 with the merged book exactly when the payload validates and the database accepts it, and only that row changes; a rejected payload gives 500 and a database error is routed, with the table unchanged |
| Views.BookViewSet.SaveMerged | books/views.py:374-383 | saving the merged book answers 200 with it and rewrites only its row, or routes the database error, leaving the table unchanged |
| Views.BookViewSet.Destroy | books/views.py:423-452 | 204 and exactly the target row removed when `get_object` finds it (well-formed query, stored key, row passing the filters); otherwise 500 "Something went wrong!" with the table unchanged |
| Views.BookViewSet.List | books/views.py:295-330 | for a well-formed query, 200 with exactly the stored books matching the filters, in the table's newest-first order with no book twice, and a count equal to their number; for a malformed query, 500 "Something went wrong!" |
| Views.BookViewSet.Stats | books/views.py:483-504 | 200 with exactly the figures `aggregate` computes over the whole catalogue, which satisfy the relations above |

## Findings

| source | as written | input that shows it | evidently intended | confidence | as-written member | corrected member |
|---|---|---|---|---|---|---|
| books/views.py:335-357, 370-421, 426-452 | a missing row is caught only as `Book.DoesNotExist`, but `get_object` raises `Http404`, so the catch-all answers 500 | `GET /books/<a key no row has>/`, and the same key with `PUT`, `PATCH` or `DELETE` | 404 "Book not found" in all three actions | high; not executed | Views.MissingIdIsServerError | Views.IntendedMissingIdIsNotFound |

The view set keeps the code's 500 answer, because that is what clients
receive. `Views.IntendedLookupErrorResponse` and
`Views.IntendedUpdateErrorResponse` are the corrected handlers.

## Left out

- HTTP routing, URL configuration, the health-check endpoint, the OpenAPI
  decorators and the documentation-only serializers: framework plumbing with
  constant output.
- Logging: it has no effect on behaviour.
- Pagination, the `search` backend and the `ordering` backend: their
  semantics live in REST framework. `List` models the unpaginated branch in
  the default newest-first order.
- Views.BookViewSet.Retrieve, Update, Destroy and List: a `search`
  parameter narrows these lookups too, and an `ordering` parameter reorders
  the list; neither is modelled. The query holds only the `BookFilter`
  parameters.
- Which parameter strings fail to parse is not modelled: a query is either
  parsed into a `BookFilter` or `Malformed`.
- `uuid4` and real time: modelled as a fresh-id supply and a logical clock.
  The `created_after`-style filters compare clock values.
- The `float` conversions of `stats`: `average_price` is kept as the price sum over the
  book count rather than as the `float` division, and the other figures stay
  in integer cents rather than `float`.
- Concurrency: the late IntegrityError a race would cause is the `dbFault`
  parameter of `Save`, `Create` and `Update`.
- The `filter(...).exists()` lookups run against the table as it is when
  validation runs; no concurrent writer is modelled between validation and
  save.
- Text.LowerChar: lower-casing for `icontains` and for reading
  IntegrityError messages is ASCII-only, because the database's case folding
  for other scripts is not part of this model.
- Serializers.NumberFieldPass: REST framework's coercion of strings to
  numbers, and the decimal-place check of the price field, are not modelled;
  values arrive as integers (prices in cents).
- Serializers.NumberFieldPass: the database's upper limit on
  `PositiveIntegerField` is not modelled, so stock has no upper bound.
- The filter set's `Meta.fields` also generates `exact`/`gte`/`lte` lookups
  under field-lookup names; only the explicitly declared filters are
  modelled.
- Response message texts that vary with input (`str(e)`, the id in
  "No book found with ID") are not modelled; responses carry the status and
  the `error` text.
- The `Book.__str__` method and the `Meta.indexes`: no behavioural effect.
- The admin site, the sample-data management command and the smoke-test
  scripts: they are not part of the catalogue's behaviour.
