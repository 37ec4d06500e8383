/** `BookFilter` of books/filters.py: the query-string filters of the book
    list. Every filter narrows a queryset by a predicate on one field; a
    filter whose value is missing or empty leaves the queryset alone, as
    django-filter skips empty values. */
module Filters {
  import opened Wrappers
  import opened Text
  import opened Models

  /** The numeric and timestamp columns the range filters read. */
  datatype Column = PriceColumn | YearColumn | StockColumn | CreatedColumn | UpdatedColumn

  function ValueOf(b: Book, c: Column): int {
    match c
    case PriceColumn => b.priceCents
    case YearColumn => b.publishedYear
    case StockColumn => b.stock
    case CreatedColumn => b.createdAt
    case UpdatedColumn => b.updatedAt
  }

  /* ---------------- One predicate per declared filter ---------------- */

  /** A `CharFilter` with `lookup_expr='icontains'`; `None` and `""` are skipped. */
  predicate MatchesText(s: string, value: Option<string>) {
    value.None? || value.value == [] || IContains(s, value.value)
  }

  /** A `CharFilter` with `lookup_expr='exact'`. */
  predicate MatchesExact(s: string, value: Option<string>) {
    value.None? || value.value == [] || s == value.value
  }

  /** A `NumberFilter` or `DateTimeFilter` with `lookup_expr='gte'`. */
  predicate AtLeast(n: int, bound: Option<int>) {
    bound.None? || bound.value <= n
  }

  /** A `NumberFilter` or `DateTimeFilter` with `lookup_expr='lte'`. */
  predicate AtMost(n: int, bound: Option<int>) {
    bound.None? || n <= bound.value
  }

  /** A `RangeFilter`: both ends given is an inclusive `__range`, one end
      alone is `gte` or `lte`, neither leaves the queryset alone. */
  predicate InRange(n: int, start: Option<int>, stop: Option<int>) {
    if start.Some? && stop.Some? then start.value <= n <= stop.value
    else if start.Some? then n >= start.value
    else if stop.Some? then n <= stop.value
    else true
  }

  /** `filter_in_stock`: True keeps `stock > 0`, False keeps `stock == 0`,
      anything else keeps everything. */
  predicate StockStatus(stock: int, value: Option<bool>) {
    match value
    case Some(true) => stock > 0
    case Some(false) => stock == 0
    case None => true
  }

  /** One declared filter together with the value the query string gave it. */
  datatype Criterion =
    | TitleContains(text: Option<string>)
    | AuthorContains(text: Option<string>)
    | GenreContains(text: Option<string>)
    | IsbnIs(text: Option<string>)
    | Gte(column: Column, bound: Option<int>)
    | Lte(column: Column, bound: Option<int>)
    | Range(column: Column, start: Option<int>, stop: Option<int>)
    | InStock(flag: Option<bool>)

  predicate Holds(c: Criterion, b: Book) {
    match c
    case TitleContains(v) => MatchesText(b.title, v)
    case AuthorContains(v) => MatchesText(b.author, v)
    case GenreContains(v) => MatchesText(b.genre, v)
    case IsbnIs(v) => MatchesExact(b.isbn, v)
    case Gte(col, v) => AtLeast(ValueOf(b, col), v)
    case Lte(col, v) => AtMost(ValueOf(b, col), v)
    case Range(col, lo, hi) => InRange(ValueOf(b, col), lo, hi)
    case InStock(v) => StockStatus(b.stock, v)
  }

  /** `r` is `s` with some of its elements left out and the others kept in
      their order. */
  predicate Subsequence(r: seq<Book>, s: seq<Book>)
    decreases |s|
  {
    |r| <= |s| && (r == [] || (r[0] == s[0] && Subsequence(r[1..], s[1..])) || Subsequence(r, s[1..]))
  }

  lemma {:induction false} SubsequenceTransitive(a: seq<Book>, b: seq<Book>, c: seq<Book>)
    requires Subsequence(a, b) && Subsequence(b, c)
    ensures Subsequence(a, c)
    decreases |c|
  {
    if a != [] {
      if b[0] == c[0] && Subsequence(b[1..], c[1..]) {
        if a[0] == b[0] && Subsequence(a[1..], b[1..]) {
          SubsequenceTransitive(a[1..], b[1..], c[1..]);
        } else {
          SubsequenceTransitive(a, b[1..], c[1..]);
        }
      } else {
        SubsequenceTransitive(a, b, c[1..]);
      }
    }
  }

  lemma {:induction false} SubsequenceMembers(r: seq<Book>, s: seq<Book>)
    requires Subsequence(r, s)
    ensures forall x | x in r :: x in s
    decreases |s|
  {
    if r != [] {
      if r[0] == s[0] && Subsequence(r[1..], s[1..]) {
        SubsequenceMembers(r[1..], s[1..]);
        assert forall x | x in r :: x == r[0] || x in r[1..];
      } else {
        SubsequenceMembers(r, s[1..]);
      }
    }
  }

  /** Leaving books out of a newest-first list keeps it newest first. */
  lemma {:induction false} SubsequenceKeepsOrder(r: seq<Book>, s: seq<Book>)
    requires Subsequence(r, s) && NewestFirst(s)
    ensures NewestFirst(r)
    decreases |s|
  {
    if r != [] {
      assert NewestFirst(s[1..]) by {
        forall i, j | 0 <= i < j < |s[1..]| ensures s[1..][j].createdAt < s[1..][i].createdAt {
          assert s[1..][i] == s[i + 1] && s[1..][j] == s[j + 1];
        }
      }
      if r[0] == s[0] && Subsequence(r[1..], s[1..]) {
        SubsequenceKeepsOrder(r[1..], s[1..]);
        SubsequenceMembers(r[1..], s[1..]);
        forall i, j | 0 <= i < j < |r| ensures r[j].createdAt < r[i].createdAt {
          assert r[j] == r[1..][j - 1];
          if i == 0 {
            assert r[j] in r[1..];
            var k :| 0 <= k < |s[1..]| && s[1..][k] == r[j];
            assert s[k + 1] == r[j];
          } else {
            assert r[i] == r[1..][i - 1];
          }
        }
      } else {
        SubsequenceKeepsOrder(r, s[1..]);
      }
    }
  }

  lemma {:induction false} SubsequenceReflexive(s: seq<Book>)
    ensures Subsequence(s, s)
    decreases |s|
  {
    if s != [] {
      SubsequenceReflexive(s[1..]);
    }
  }

  lemma SubsequenceKeepsOrderIf(r: seq<Book>, s: seq<Book>)
    requires Subsequence(r, s)
    ensures NewestFirst(s) ==> NewestFirst(r)
  {
    if NewestFirst(s) {
      SubsequenceKeepsOrder(r, s);
    }
  }

  /** `queryset.filter(...)` by one criterion: the books satisfying it, in their order. */
  function Keep(books: seq<Book>, c: Criterion): (r: seq<Book>)
    ensures |r| <= |books|
    ensures forall b :: b in r <==> b in books && Holds(c, b)
    ensures multiset(r) <= multiset(books)
  {
    if books == [] then []
    else
      var rest := Keep(books[1..], c);
      assert books == [books[0]] + books[1..];
      if Holds(c, books[0]) then [books[0]] + rest else rest
  }

  /** A filter only leaves books out: the rest keep their order, so a
      newest-first queryset stays newest first. */
  lemma {:induction false} KeepIsSubsequence(books: seq<Book>, c: Criterion)
    ensures Subsequence(Keep(books, c), books)
    ensures NewestFirst(books) ==> NewestFirst(Keep(books, c))
  {
    if books != [] {
      KeepIsSubsequence(books[1..], c);
      var r := Keep(books, c);
      if Holds(c, books[0]) {
        assert r[0] == books[0] && r[1..] == Keep(books[1..], c);
      } else {
        assert r == Keep(books[1..], c);
        if r != [] {
          assert Subsequence(r, books[1..]);
        }
      }
      SubsequenceKeepsOrderIf(r, books);
    }
  }

  /** Filtering a list with a head is deciding on the head and filtering the tail. */
  lemma KeepCons(b: Book, rest: seq<Book>, c: Criterion)
    ensures Keep([b] + rest, c) == if Holds(c, b) then [b] + Keep(rest, c) else Keep(rest, c)
  {
    assert ([b] + rest)[0] == b && ([b] + rest)[1..] == rest;
  }

  /** `filter_in_stock`. */
  function FilterInStock(books: seq<Book>, value: Option<bool>): (r: seq<Book>)
    ensures value == Some(true) ==> forall b :: b in r <==> b in books && b.stock > 0
    ensures value == Some(false) ==> forall b :: b in r <==> b in books && b.stock == 0
    ensures value.None? ==> r == books
  {
    if value.Some? then Keep(books, InStock(value)) else books
  }

  /** With no negative stock, the books in stock and the books out of stock
      split the queryset between them. */
  lemma {:induction false} InStockPartition(books: seq<Book>)
    requires forall i | 0 <= i < |books| :: StockInRange(books[i].stock)
    ensures |FilterInStock(books, Some(true))| + |FilterInStock(books, Some(false))| == |books|
    ensures forall b | b in books :: b in FilterInStock(books, Some(true)) <==> b !in FilterInStock(books, Some(false))
  {
    if books != [] {
      var b, rest := books[0], books[1..];
      InStockPartition(rest);
      assert books == [b] + rest;
      KeepCons(b, rest, InStock(Some(true)));
      KeepCons(b, rest, InStock(Some(false)));
    }
  }

  /** A `RangeFilter` narrows exactly as the `gte` and `lte` filters on the
      same column and bounds do one after the other. */
  lemma {:induction false} RangeIsMinThenMax(books: seq<Book>, col: Column, start: Option<int>, stop: Option<int>)
    ensures Keep(books, Range(col, start, stop)) == Keep(Keep(books, Gte(col, start)), Lte(col, stop))
  {
    if books != [] {
      var b, rest := books[0], books[1..];
      var lo, hi := Gte(col, start), Lte(col, stop);
      RangeIsMinThenMax(rest, col, start, stop);
      assert books == [b] + rest;
      assert Holds(Range(col, start, stop), b) <==> Holds(lo, b) && Holds(hi, b);
      KeepCons(b, rest, Range(col, start, stop));
      KeepCons(b, rest, lo);
      if Holds(lo, b) {
        KeepCons(b, Keep(rest, lo), hi);
      } else {
        assert Keep(books, lo) == Keep(rest, lo);
      }
    }
  }

  /* ---------------- The filter set ---------------- */

  /** The query parameters `BookFilter` declares. The `price`,
      `published_year` and `stock` range filters read the same `_min`/`_max`
      parameters as the `gte`/`lte` number filters. Prices are in cents. */
  datatype BookFilter = BookFilter(
    title: Option<string>,
    author: Option<string>,
    genre: Option<string>,
    isbn: Option<string>,
    priceMin: Option<int>,
    priceMax: Option<int>,
    publishedYearMin: Option<int>,
    publishedYearMax: Option<int>,
    stockMin: Option<int>,
    stockMax: Option<int>,
    inStock: Option<bool>,
    createdAfter: Option<Timestamp>,
    createdBefore: Option<Timestamp>,
    updatedAfter: Option<Timestamp>,
    updatedBefore: Option<Timestamp>)

  const NoFilter := BookFilter(None, None, None, None, None, None, None, None, None, None, None, None, None, None, None)

  /** The query string as the filter set's form reads it: either every
      declared parameter parses as its field's type, or some parameter does
      not (`price_min=abc`), and the form is invalid. */
  datatype Query = Parsed(filter: BookFilter) | Malformed

  /** The declared filters in declaration order, each with its value. */
  function Criteria(f: BookFilter): seq<Criterion> {
    [ TitleContains(f.title), AuthorContains(f.author), GenreContains(f.genre), IsbnIs(f.isbn),
      Gte(PriceColumn, f.priceMin), Lte(PriceColumn, f.priceMax), Range(PriceColumn, f.priceMin, f.priceMax),
      Gte(YearColumn, f.publishedYearMin), Lte(YearColumn, f.publishedYearMax),
      Range(YearColumn, f.publishedYearMin, f.publishedYearMax),
      Gte(StockColumn, f.stockMin), Lte(StockColumn, f.stockMax), Range(StockColumn, f.stockMin, f.stockMax),
      InStock(f.inStock),
      Gte(CreatedColumn, f.createdAfter), Lte(CreatedColumn, f.createdBefore),
      Gte(UpdatedColumn, f.updatedAfter), Lte(UpdatedColumn, f.updatedBefore) ]
  }

  /** Whether `b` satisfies every criterion of `cs`. */
  predicate AllHold(cs: seq<Criterion>, b: Book) {
    forall k | 0 <= k < |cs| :: Holds(cs[k], b)
  }

  lemma AllHoldCons(cs: seq<Criterion>, b: Book)
    requires cs != []
    ensures AllHold(cs, b) <==> Holds(cs[0], b) && AllHold(cs[1..], b)
  {
    if Holds(cs[0], b) && AllHold(cs[1..], b) {
      forall k | 0 <= k < |cs| ensures Holds(cs[k], b) {
        if k > 0 { assert cs[k] == cs[1..][k - 1]; }
      }
    }
  }

  /** Runs the filters one after the other over the queryset. */
  function Chain(books: seq<Book>, cs: seq<Criterion>): (r: seq<Book>)
    decreases |cs|
    ensures |r| <= |books|
    ensures multiset(r) <= multiset(books)
    ensures forall b :: b in r <==> b in books && AllHold(cs, b)
  {
    if cs == [] then books
    else
      var r := Chain(Keep(books, cs[0]), cs[1..]);
      assert forall b :: AllHold(cs, b) <==> Holds(cs[0], b) && AllHold(cs[1..], b) by {
        forall b ensures AllHold(cs, b) <==> Holds(cs[0], b) && AllHold(cs[1..], b) {
          AllHoldCons(cs, b);
        }
      }
      r
  }

  /** `BookFilter(params, queryset).qs`. */
  function Apply(books: seq<Book>, f: BookFilter): seq<Book> {
    Chain(books, Criteria(f))
  }

  /** The filters one after another leave books out and reorder nothing. */
  lemma {:induction false} ChainIsSubsequence(books: seq<Book>, cs: seq<Criterion>)
    ensures Subsequence(Chain(books, cs), books)
    ensures NewestFirst(books) ==> NewestFirst(Chain(books, cs))
    decreases |cs|
  {
    if cs == [] {
      SubsequenceReflexive(books);
    } else {
      var kept := Keep(books, cs[0]);
      KeepIsSubsequence(books, cs[0]);
      ChainIsSubsequence(kept, cs[1..]);
      SubsequenceTransitive(Chain(kept, cs[1..]), kept, books);
      SubsequenceKeepsOrderIf(Chain(books, cs), books);
    }
  }

  /** Whether a book passes every filter of `f`, stated field by field. */
  predicate Matches(f: BookFilter, b: Book) {
    && MatchesText(b.title, f.title)
    && MatchesText(b.author, f.author)
    && MatchesText(b.genre, f.genre)
    && MatchesExact(b.isbn, f.isbn)
    && AtLeast(b.priceCents, f.priceMin) && AtMost(b.priceCents, f.priceMax)
    && AtLeast(b.publishedYear, f.publishedYearMin) && AtMost(b.publishedYear, f.publishedYearMax)
    && AtLeast(b.stock, f.stockMin) && AtMost(b.stock, f.stockMax)
    && StockStatus(b.stock, f.inStock)
    && AtLeast(b.createdAt, f.createdAfter) && AtMost(b.createdAt, f.createdBefore)
    && AtLeast(b.updatedAt, f.updatedAfter) && AtMost(b.updatedAt, f.updatedBefore)
  }

  lemma CriteriaMeanMatches(f: BookFilter, b: Book)
    ensures AllHold(Criteria(f), b) <==> Matches(f, b)
  {
    if AllHold(Criteria(f), b) {
      AllHoldGivesMatches(f, b);
    }
    if Matches(f, b) {
      MatchesGivesAllHold(f, b);
    }
  }

  lemma AllHoldGivesMatches(f: BookFilter, b: Book)
    requires AllHold(Criteria(f), b)
    ensures Matches(f, b)
  {
    var cs := Criteria(f);
    assert Holds(cs[0], b) && Holds(cs[1], b) && Holds(cs[2], b) && Holds(cs[3], b);
    assert Holds(cs[4], b) && Holds(cs[5], b) && Holds(cs[7], b) && Holds(cs[8], b);
    assert Holds(cs[10], b) && Holds(cs[11], b) && Holds(cs[13], b);
    assert Holds(cs[14], b) && Holds(cs[15], b) && Holds(cs[16], b) && Holds(cs[17], b);
  }

  lemma MatchesGivesAllHold(f: BookFilter, b: Book)
    requires Matches(f, b)
    ensures AllHold(Criteria(f), b)
  {
    var cs := Criteria(f);
    assert forall k | 0 <= k < |cs| :: Holds(cs[k], b);
  }

  /** The filtered list holds exactly the books of the queryset that match
      every given parameter, and never a book the queryset lacks. */
  lemma ApplyKeepsExactlyMatches(books: seq<Book>, f: BookFilter)
    ensures forall b :: b in Apply(books, f) <==> b in books && Matches(f, b)
    ensures multiset(Apply(books, f)) <= multiset(books)
  {
    forall b ensures AllHold(Criteria(f), b) <==> Matches(f, b) {
      CriteriaMeanMatches(f, b);
    }
  }

  /** A criterion whose parameter was not given: it holds of every book. */
  predicate Inert(c: Criterion) {
    match c
    case TitleContains(v) => v.None?
    case AuthorContains(v) => v.None?
    case GenreContains(v) => v.None?
    case IsbnIs(v) => v.None?
    case Gte(_, v) => v.None?
    case Lte(_, v) => v.None?
    case Range(_, lo, hi) => lo.None? && hi.None?
    case InStock(v) => v.None?
  }

  /** With no parameters the list is the whole queryset, in order. */
  lemma NoFilterKeepsAll(books: seq<Book>)
    ensures Apply(books, NoFilter) == books
  {
    var cs := Criteria(NoFilter);
    assert forall k | 0 <= k < |cs| :: Inert(cs[k]);
    ChainInert(books, cs);
  }

  lemma {:induction false} KeepInert(books: seq<Book>, c: Criterion)
    requires Inert(c)
    ensures Keep(books, c) == books
  {
    if books != [] {
      KeepInert(books[1..], c);
      KeepCons(books[0], books[1..], c);
      assert books == [books[0]] + books[1..];
    }
  }

  lemma {:induction false} ChainInert(books: seq<Book>, cs: seq<Criterion>)
    requires forall k | 0 <= k < |cs| :: Inert(cs[k])
    ensures Chain(books, cs) == books
    decreases |cs|
  {
    if cs != [] {
      KeepInert(books, cs[0]);
      assert forall k | 0 <= k < |cs[1..]| :: Inert(cs[1..][k]) by {
        forall k | 0 <= k < |cs[1..]| ensures Inert(cs[1..][k]) {
          assert cs[1..][k] == cs[k + 1];
        }
      }
      ChainInert(books, cs[1..]);
    }
  }
}
