/** The write serializers of books/serializers.py, `BookCreateSerializer` and
    `BookUpdateSerializer`, as the validation steps their `is_valid` runs: the field
    pass that Django REST framework derives from the `Book` field declarations
    (presence, null, blank, whitespace trimming, length, the model validators
    and the unique-ISBN validator), each field's own `validate_<field>` method,
    and finally `validate` over the collected attributes. */
module Serializers {
  import opened Wrappers
  import opened Text
  import opened IsbnFormat
  import opened Models

  /** One key of the request body: missing, JSON `null`, or a value. */
  datatype Input<+T> = Absent | Null | Given(value: T)

  /** The request body, restricted to the writable fields. Prices arrive in cents. */
  datatype Payload = Payload(
    title: Input<string>,
    author: Input<string>,
    isbn: Input<string>,
    publishedYear: Input<int>,
    genre: Input<string>,
    priceCents: Input<int>,
    stock: Input<int>,
    description: Input<string>)

  /** `validated_data`: an entry per field that survived the field pass.
      `description` may be present with the value `None`. */
  datatype Attrs = Attrs(
    title: Option<string>,
    author: Option<string>,
    isbn: Option<string>,
    publishedYear: Option<int>,
    genre: Option<string>,
    priceCents: Option<int>,
    stock: Option<int>,
    description: Option<Option<string>>)

  const NoAttrs := Attrs(None, None, None, None, None, None, None, None)

  /** Why `is_valid` failed: errors against named fields, or the non-field
      error of `BookUpdateSerializer.validate`. */
  datatype SerializerError = FieldErrors(fields: set<Field>) | EmptyUpdate

  /** What the field pass makes of one field: left out of `validated_data`
      (`SkipField`), accepted with a value, or rejected with an error. */
  datatype Checked<+T> = Skipped | Accepted(value: T) | Rejected

  /* ---------------- The validators the serializers declare ---------------- */

  /** `BookCreateSerializer.validate_title`, `validate_author` and
      `validate_genre` (identical but for the field they name). */
  function ValidateCreateText(field: Field, value: string): (r: Result<string, Field>)
    ensures r.Err? <==> AllSpace(value)
    ensures r.Err? ==> r.error == field
    ensures r.Ok? ==> r.value == Strip(value)
    ensures r.Ok? ==> |r.value| <= |value| && !IsBlank(r.value)
    ensures r.Ok? ==> !IsSpace(r.value[0]) && !IsSpace(r.value[|r.value| - 1])
    ensures r.Ok? ==> Contains(value, r.value)
  {
    BlankIffAllSpace(value);
    if IsBlank(value) then Err(field)
    else
      StrippedNotBlank(value);
      StripIsSubstring(value);
      Ok(Strip(value))
  }

  /** What a create text validator returns passes it again, unchanged. */
  lemma {:induction false} ValidateCreateTextIdempotent(field: Field, value: string)
    requires ValidateCreateText(field, value).Ok?
    ensures ValidateCreateText(field, ValidateCreateText(field, value).value) == ValidateCreateText(field, value)
  {
    StripIdempotent(value);
    BlankIffAllSpace(value);
  }

  /** `BookCreateSerializer.validate_isbn`: rejects an ISBN some stored book
      already has, and returns any other unchanged. */
  function ValidateCreateIsbn(value: string, rows: seq<Book>): (r: Result<string, Field>)
    ensures r.Ok? <==> forall i | 0 <= i < |rows| :: rows[i].isbn != value
    ensures r.Ok? ==> r.value == value
    ensures r.Err? ==> r.error == Isbn
  {
    if IsbnHeld(rows, value, None) then Err(Isbn) else Ok(value)
  }

  /** `BookUpdateSerializer.validate_title`, `validate_author` and
      `validate_genre`: `None` passes through, the empty string and
      whitespace-only strings are rejected, anything else is stripped. */
  function ValidateUpdateText(field: Field, value: Option<string>): (r: Result<Option<string>, Field>)
    ensures value.None? ==> r == Ok(None)
    ensures value.Some? ==> (r.Err? <==> AllSpace(value.value))
    ensures r.Err? ==> r.error == field
    ensures value.Some? && r.Ok? ==>
      && r.value.Some? && !IsBlank(r.value.value) && |r.value.value| <= |value.value|
      && ValidateCreateText(field, value.value) == Ok(r.value.value)
  {
    if value.Some? && IsBlank(value.value) then
      BlankIffAllSpace(value.value);
      Err(field)
    else if value.Some? then
      BlankIffAllSpace(value.value);
      StrippedNotBlank(value.value);
      Ok(Some(Strip(value.value)))
    else Ok(value)
  }

  /** `BookUpdateSerializer.validate_isbn`: an empty ISBN is returned without
      a lookup; otherwise it is rejected when a book other than the one being
      updated holds it. */
  function ValidateUpdateIsbn(value: string, rows: seq<Book>, instance: BookId): (r: Result<string, Field>)
    ensures r.Err? <==> value != [] && exists i | 0 <= i < |rows| :: rows[i].isbn == value && rows[i].id != instance
    ensures r.Ok? ==> r.value == value
    ensures r.Err? ==> r.error == Isbn
  {
    if value != [] && IsbnHeld(rows, value, Some(instance)) then Err(Isbn) else Ok(value)
  }

  /** `BookUpdateSerializer.validate`: at least one field must be present. */
  function ValidateUpdateAttrs(attrs: Attrs): (r: Result<Attrs, SerializerError>)
    ensures r.Err? <==> attrs == NoAttrs
    ensures r.Err? ==> r.error == EmptyUpdate
    ensures r.Ok? ==> r.value == attrs
  {
    if attrs == NoAttrs then Err(EmptyUpdate) else Ok(attrs)
  }

  /** Resubmitting the ISBN the book already has is accepted by the update
      validator, whatever else the table holds (its ISBNs being unique). */
  lemma ResubmittedIsbnAccepted(rows: seq<Book>, i: nat)
    requires UniqueIsbns(rows) && i < |rows|
    ensures ValidateUpdateIsbn(rows[i].isbn, rows, rows[i].id) == Ok(rows[i].isbn)
  {
  }

  /* ---------------- The field pass ---------------- */

  /** `ProhibitNullCharactersValidator`, which every REST framework
      `CharField` runs on its (trimmed) value. */
  predicate NoNullCharacter(s: string) {
    '\0' !in s
  }

  /** A text field as the serializer declares it for a model `CharField`: on a
      partial update a missing key is skipped, otherwise it is an error (every
      such field of `Book` is required); `null` is an error; a value that is
      empty once trimmed is an error (`allow_blank` is off); otherwise the
      trimmed value is kept if it fits `max_length` and holds no NUL
      character. */
  function CharFieldPass(v: Input<string>, partial: bool, maxLength: nat): (r: Checked<string>)
    ensures r.Skipped? <==> v.Absent? && partial
    ensures r.Accepted? <==>
      v.Given? && !AllSpace(v.value) && |Strip(v.value)| <= maxLength && NoNullCharacter(Strip(v.value))
    ensures r.Accepted? ==> r.value == Strip(v.value) && !IsBlank(r.value) && |r.value| <= maxLength
  {
    match v
    case Absent => if partial then Skipped else Rejected
    case Null => Rejected
    case Given(s) =>
      BlankIffAllSpace(s);
      if IsBlank(s) then Rejected
      else
        StrippedNotBlank(s);
        if |Strip(s)| <= maxLength && NoNullCharacter(Strip(s)) then Accepted(Strip(s)) else Rejected
  }

  /** An integer or decimal field: a missing key is skipped on a partial update
      or when the model declares a default, and is an error otherwise; `null`
      is an error; a value is kept when it lies within the bounds the model's
      validators (and `max_digits`) set. */
  function NumberFieldPass(v: Input<int>, required: bool, partial: bool, lo: int, hi: Option<int>): (r: Checked<int>)
    ensures r.Skipped? <==> v.Absent? && (partial || !required)
    ensures r.Accepted? <==> v.Given? && lo <= v.value && (hi.None? || v.value <= hi.value)
    ensures r.Accepted? ==> r.value == v.value
  {
    match v
    case Absent => if partial || !required then Skipped else Rejected
    case Null => Rejected
    case Given(n) => if lo <= n && (hi.None? || n <= hi.value) then Accepted(n) else Rejected
  }

  /** `description` (`blank=True, null=True`, `max_length=1000`): never
      required, `null` is kept as `None`, a blank value becomes the empty
      string, anything else is trimmed and must fit and hold no NUL
      character. */
  function DescriptionFieldPass(v: Input<string>): (r: Checked<Option<string>>)
    ensures r.Skipped? <==> v.Absent?
    ensures v.Null? ==> r == Accepted(None)
    ensures v.Given? ==>
      (r.Accepted? <==> |Strip(v.value)| <= DescriptionMaxLength && NoNullCharacter(Strip(v.value)))
    ensures r.Accepted? ==> DescriptionAcceptable(r.value)
  {
    match v
    case Absent => Skipped
    case Null => Accepted(None)
    case Given(s) =>
      if |Strip(s)| <= DescriptionMaxLength && NoNullCharacter(Strip(s)) then Accepted(Some(Strip(s))) else Rejected
  }

  /** A text field followed by its `validate_<field>` method, of the create
      serializer or of the update serializer. */
  function TextField(v: Input<string>, field: Field, partial: bool, maxLength: nat, update: bool): (r: Checked<string>)
    ensures r.Skipped? <==> v.Absent? && partial
    ensures r.Accepted? <==> CharFieldPass(v, partial, maxLength).Accepted?
    ensures r.Accepted? ==> r.value == Strip(v.value) && !IsBlank(r.value) && |r.value| <= maxLength
  {
    match CharFieldPass(v, partial, maxLength)
    case Accepted(s) =>
      if update then
        (match ValidateUpdateText(field, Some(s))
         case Ok(t) => Accepted(t.value)
         case Err(_) => Rejected)
      else
        (match ValidateCreateText(field, s)
         case Ok(t) => StripIdempotent(v.value); Accepted(t)
         case Err(_) => Rejected)
    case c => c
  }

  /** `isbn`: the text field pass, then the model's `validate_isbn`, then the
      `UniqueValidator` (which leaves out the instance being updated), then
      the serializer's own `validate_isbn`. */
  function IsbnField(v: Input<string>, rows: seq<Book>, partial: bool, instance: Option<BookId>): (r: Checked<string>)
    ensures r.Skipped? <==> v.Absent? && partial
    ensures r.Accepted? <==>
      && CharFieldPass(v, partial, IsbnMaxLength).Accepted?
      && ValidIsbn(Strip(v.value))
      && !IsbnHeld(rows, Strip(v.value), instance)
    ensures r.Accepted? ==> r.value == Strip(v.value) && IsbnAcceptable(r.value)
  {
    match CharFieldPass(v, partial, IsbnMaxLength)
    case Accepted(s) =>
      if !ValidIsbn(s) || IsbnHeld(rows, s, instance) then Rejected
      else if instance.Some? then
        (match ValidateUpdateIsbn(s, rows, instance.value)
         case Ok(t) => Accepted(t)
         case Err(_) => Rejected)
      else
        (match ValidateCreateIsbn(s, rows)
         case Ok(t) => Accepted(t)
         case Err(_) => Rejected)
    case c => c
  }

  /** The outcome of the field pass, field by field. */
  datatype Pass = Pass(
    title: Checked<string>,
    author: Checked<string>,
    isbn: Checked<string>,
    publishedYear: Checked<int>,
    genre: Checked<string>,
    priceCents: Checked<int>,
    stock: Checked<int>,
    description: Checked<Option<string>>)

  /** The keys of `serializer.errors` after the field pass. */
  function Rejections(p: Pass): (r: set<Field>)
    ensures r == {} <==>
      && !p.title.Rejected? && !p.author.Rejected? && !p.isbn.Rejected? && !p.publishedYear.Rejected?
      && !p.genre.Rejected? && !p.priceCents.Rejected? && !p.stock.Rejected? && !p.description.Rejected?
  {
    (if p.title.Rejected? then {Title} else {})
    + (if p.author.Rejected? then {Author} else {})
    + (if p.isbn.Rejected? then {Isbn} else {})
    + (if p.publishedYear.Rejected? then {PublishedYear} else {})
    + (if p.genre.Rejected? then {Genre} else {})
    + (if p.priceCents.Rejected? then {Price} else {})
    + (if p.stock.Rejected? then {Stock} else {})
    + (if p.description.Rejected? then {Description} else {})
  }

  function Kept<T>(c: Checked<T>): Option<T> {
    if c.Accepted? then Some(c.value) else None
  }

  /** `validated_data` after a field pass with no errors. */
  function Collected(p: Pass): Attrs {
    Attrs(Kept(p.title), Kept(p.author), Kept(p.isbn), Kept(p.publishedYear),
          Kept(p.genre), Kept(p.priceCents), Kept(p.stock), Kept(p.description))
  }

  /** The field pass of either write serializer. `instance` is the book being
      updated (None on create), which also selects the serializer. */
  function FieldPass(p: Payload, rows: seq<Book>, instance: Option<BookId>, partial: bool): Pass {
    var update := instance.Some?;
    Pass(
      TextField(p.title, Title, partial, TitleMaxLength, update),
      TextField(p.author, Author, partial, AuthorMaxLength, update),
      IsbnField(p.isbn, rows, partial, instance),
      NumberFieldPass(p.publishedYear, true, partial, MinPublishedYear, Some(MaxPublishedYear)),
      TextField(p.genre, Genre, partial, GenreMaxLength, update),
      NumberFieldPass(p.priceCents, true, partial, MinPriceCents, Some(MaxPriceCents)),
      NumberFieldPass(p.stock, false, partial, 0, None),
      DescriptionFieldPass(p.description))
  }

  /** `BookCreateSerializer(data=payload).is_valid()`: field errors, or the
      validated data (the inherited `validate` returns it unchanged). */
  function CreateValidate(p: Payload, rows: seq<Book>): Result<Attrs, SerializerError> {
    var pass := FieldPass(p, rows, None, false);
    if Rejections(pass) != {} then Err(FieldErrors(Rejections(pass))) else Ok(Collected(pass))
  }

  /** `BookUpdateSerializer(instance, data=payload, partial=partial).is_valid()`:
      field errors, then `validate`'s check that something was provided. */
  function UpdateValidate(p: Payload, rows: seq<Book>, instance: BookId, partial: bool): Result<Attrs, SerializerError> {
    var pass := FieldPass(p, rows, Some(instance), partial);
    if Rejections(pass) != {} then Err(FieldErrors(Rejections(pass))) else ValidateUpdateAttrs(Collected(pass))
  }

  /* ---------------- Saving validated data ---------------- */

  /** The fields a new row cannot do without: those with no model default. */
  predicate Complete(a: Attrs) {
    a.title.Some? && a.author.Some? && a.isbn.Some? && a.publishedYear.Some? && a.genre.Some? && a.priceCents.Some?
  }

  /** `Book.objects.create(**validated_data)` before it is saved: the model
      defaults fill `stock` (0) and `description` (None). */
  function NewBook(a: Attrs, id: BookId, now: Timestamp): Book
    requires Complete(a)
  {
    Book(id, a.title.value, a.author.value, a.isbn.value, a.publishedYear.value, a.genre.value, a.priceCents.value,
         if a.stock.Some? then a.stock.value else DefaultStock,
         if a.description.Some? then a.description.value else None,
         now, now)
  }

  /** `ModelSerializer.update`: every validated attribute is set on the instance. */
  function Merge(b: Book, a: Attrs): Book {
    Book(b.id,
         if a.title.Some? then a.title.value else b.title,
         if a.author.Some? then a.author.value else b.author,
         if a.isbn.Some? then a.isbn.value else b.isbn,
         if a.publishedYear.Some? then a.publishedYear.value else b.publishedYear,
         if a.genre.Some? then a.genre.value else b.genre,
         if a.priceCents.Some? then a.priceCents.value else b.priceCents,
         if a.stock.Some? then a.stock.value else b.stock,
         if a.description.Some? then a.description.value else b.description,
         b.createdAt, b.updatedAt)
  }

  /* ---------------- What validation guarantees ---------------- */

  /** A text value the field pass accepts for a field of the given length. */
  predicate TextAcceptable(v: Input<string>, maxLength: nat) {
    v.Given? && !AllSpace(v.value) && |Strip(v.value)| <= maxLength && NoNullCharacter(Strip(v.value))
  }

  /** The request bodies the create serializer accepts, stated field by field
      from the model's declarations. */
  predicate CreatePayloadAcceptable(p: Payload, rows: seq<Book>) {
    && TextAcceptable(p.title, TitleMaxLength)
    && TextAcceptable(p.author, AuthorMaxLength)
    && TextAcceptable(p.genre, GenreMaxLength)
    && TextAcceptable(p.isbn, IsbnMaxLength)
    && ValidIsbn(Strip(p.isbn.value))
    && (forall i | 0 <= i < |rows| :: rows[i].isbn != Strip(p.isbn.value))
    && p.publishedYear.Given? && YearInRange(p.publishedYear.value)
    && p.priceCents.Given? && PriceInRange(p.priceCents.value)
    && (p.stock.Absent? || (p.stock.Given? && StockInRange(p.stock.value)))
    && (p.description.Given? ==>
          |Strip(p.description.value)| <= DescriptionMaxLength && NoNullCharacter(Strip(p.description.value)))
  }

  lemma RequiredTextOutcome(v: Input<string>, field: Field, maxLength: nat, update: bool)
    ensures var c := TextField(v, field, false, maxLength, update);
      (!c.Rejected? <==> c.Accepted?) && (c.Accepted? <==> TextAcceptable(v, maxLength))
  {
  }

  lemma CreateIsbnOutcome(v: Input<string>, rows: seq<Book>)
    ensures var c := IsbnField(v, rows, false, None);
      !c.Rejected? <==>
        && TextAcceptable(v, IsbnMaxLength)
        && ValidIsbn(Strip(v.value))
        && (forall i | 0 <= i < |rows| :: rows[i].isbn != Strip(v.value))
  {
  }

  lemma CreateAcceptsExactly(p: Payload, rows: seq<Book>)
    ensures CreateValidate(p, rows).Ok? <==> CreatePayloadAcceptable(p, rows)
  {
    var pass := FieldPass(p, rows, None, false);
    RequiredTextOutcome(p.title, Title, TitleMaxLength, false);
    RequiredTextOutcome(p.author, Author, AuthorMaxLength, false);
    RequiredTextOutcome(p.genre, Genre, GenreMaxLength, false);
    CreateIsbnOutcome(p.isbn, rows);
    assert !pass.publishedYear.Rejected? <==> p.publishedYear.Given? && YearInRange(p.publishedYear.value);
    assert !pass.priceCents.Rejected? <==> p.priceCents.Given? && PriceInRange(p.priceCents.value);
    assert !pass.stock.Rejected? <==> p.stock.Absent? || (p.stock.Given? && StockInRange(p.stock.value));
    assert !pass.description.Rejected? <==>
      (p.description.Given? ==>
         |Strip(p.description.value)| <= DescriptionMaxLength && NoNullCharacter(Strip(p.description.value)));
  }

  /** A create request whose ISBN, once trimmed, some stored book already
      holds fails validation (so it never reaches the database's unique index). */
  lemma DuplicateIsbnRejectedOnCreate(p: Payload, rows: seq<Book>, i: nat)
    requires i < |rows| && p.isbn.Given? && rows[i].isbn == Strip(p.isbn.value)
    ensures CreateValidate(p, rows).Err?
  {
    CreateAcceptsExactly(p, rows);
  }

  /** A create request whose title, author or genre is made of whitespace only
      (or is empty) fails validation. */
  lemma BlankTextRejectedOnCreate(p: Payload, rows: seq<Book>)
    requires || (p.title.Given? && AllSpace(p.title.value))
             || (p.author.Given? && AllSpace(p.author.value))
             || (p.genre.Given? && AllSpace(p.genre.value))
    ensures CreateValidate(p, rows).Err?
  {
    CreateAcceptsExactly(p, rows);
  }

  /** What the create serializer lets through makes a row the table accepts:
      every field within its declared bounds, `clean` passing, and an ISBN no
      stored book holds. */
  lemma CreatedBookValid(p: Payload, rows: seq<Book>, id: BookId, now: Timestamp)
    requires CreateValidate(p, rows).Ok?
    ensures var a := CreateValidate(p, rows).value;
      && Complete(a)
      && BookValid(NewBook(a, id, now))
      && !IsbnHeld(rows, a.isbn.value, Some(id))
      && a.title == Some(Strip(p.title.value))
      && a.author == Some(Strip(p.author.value))
      && a.genre == Some(Strip(p.genre.value))
  {
    var pass := FieldPass(p, rows, None, false);
    var a := Collected(pass);
    RequiredTextOutcome(p.title, Title, TitleMaxLength, false);
    RequiredTextOutcome(p.author, Author, AuthorMaxLength, false);
    RequiredTextOutcome(p.genre, Genre, GenreMaxLength, false);
    assert pass.isbn.Accepted? && pass.publishedYear.Accepted? && pass.priceCents.Accepted?;
    assert Complete(a);
    var b := NewBook(a, id, now);
    assert !IsBlank(b.title) && !IsBlank(b.author) && !IsBlank(b.genre);
    assert StockInRange(b.stock) && DescriptionAcceptable(b.description);
    assert FieldsWithinBounds(b);
    BookValidIff(b);
  }

  /** What the update serializer lets through, set on a valid stored book,
      gives a book that is valid again, and a new ISBN is held by no other
      book. */
  lemma UpdatedBookValid(p: Payload, rows: seq<Book>, instance: Book, partial: bool)
    requires BookValid(instance)
    requires UpdateValidate(p, rows, instance.id, partial).Ok?
    ensures var a := UpdateValidate(p, rows, instance.id, partial).value;
      && BookValid(Merge(instance, a))
      && (a.isbn.Some? ==> !IsbnHeld(rows, a.isbn.value, Some(instance.id)))
      && (!partial ==> Complete(a))
  {
    var pass := FieldPass(p, rows, Some(instance.id), partial);
    assert Rejections(pass) == {};
    var a := Collected(pass);
    BookValidIff(instance);
    var b := Merge(instance, a);
    MergedTextNotBlank(pass, instance);
    MergedWithinBounds(pass, instance);
    BookValidIff(b);
  }

  lemma MergedTextNotBlank(pass: Pass, instance: Book)
    requires !IsBlank(instance.title) && !IsBlank(instance.author) && !IsBlank(instance.genre)
    requires pass.title.Accepted? ==> !IsBlank(pass.title.value)
    requires pass.author.Accepted? ==> !IsBlank(pass.author.value)
    requires pass.genre.Accepted? ==> !IsBlank(pass.genre.value)
    ensures var b := Merge(instance, Collected(pass)); !IsBlank(b.title) && !IsBlank(b.author) && !IsBlank(b.genre)
  {
  }

  lemma MergedWithinBounds(pass: Pass, instance: Book)
    requires FieldsWithinBounds(instance)
    requires pass.title.Accepted? ==> |pass.title.value| <= TitleMaxLength
    requires pass.author.Accepted? ==> |pass.author.value| <= AuthorMaxLength
    requires pass.genre.Accepted? ==> |pass.genre.value| <= GenreMaxLength
    requires pass.isbn.Accepted? ==> IsbnAcceptable(pass.isbn.value)
    requires pass.publishedYear.Accepted? ==> YearInRange(pass.publishedYear.value)
    requires pass.priceCents.Accepted? ==> PriceInRange(pass.priceCents.value)
    requires pass.stock.Accepted? ==> StockInRange(pass.stock.value)
    requires pass.description.Accepted? ==> DescriptionAcceptable(pass.description.value)
    ensures FieldsWithinBounds(Merge(instance, Collected(pass)))
  {
  }

  const EmptyPayload := Payload(Absent, Absent, Absent, Absent, Absent, Absent, Absent, Absent)

  /** A PATCH with an empty body fails on `validate`'s non-field error. */
  lemma EmptyPartialUpdateRejected(rows: seq<Book>, instance: BookId)
    ensures UpdateValidate(EmptyPayload, rows, instance, true) == Err(EmptyUpdate)
  {
    assert FieldPass(EmptyPayload, rows, Some(instance), true)
      == Pass(Skipped, Skipped, Skipped, Skipped, Skipped, Skipped, Skipped, Skipped);
  }

  /** A PUT with an empty body fails on every required field instead. */
  lemma EmptyFullUpdateRejected(rows: seq<Book>, instance: BookId)
    ensures UpdateValidate(EmptyPayload, rows, instance, false)
      == Err(FieldErrors({Title, Author, Isbn, PublishedYear, Genre, Price}))
  {
    var pass := FieldPass(EmptyPayload, rows, Some(instance), false);
    assert pass == Pass(Rejected, Rejected, Rejected, Rejected, Rejected, Rejected, Skipped, Skipped);
    assert Rejections(pass) == {Title, Author, Isbn, PublishedYear, Genre, Price};
    assert UpdateValidate(EmptyPayload, rows, instance, false) == Err(FieldErrors(Rejections(pass)));
  }

  /** The text validators of both serializers can never reject what reaches
      them: the field pass has already refused blank values. */
  lemma TextValidatorsNeverReject(v: Input<string>, field: Field, partial: bool, maxLength: nat)
    requires CharFieldPass(v, partial, maxLength).Accepted?
    ensures var s := CharFieldPass(v, partial, maxLength).value;
      && ValidateCreateText(field, s) == Ok(s)
      && ValidateUpdateText(field, Some(s)) == Ok(Some(s))
  {
    StripIdempotent(v.value);
  }
}
