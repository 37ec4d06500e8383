/** The `stats` action of `BookViewSet` (books/views.py): aggregate figures
    over the whole catalogue. Prices stay in integer cents; the average price
    is kept as the sum of prices over `totalBooks` rather than as a float. */
module Statistics {
  import opened Wrappers
  import opened Models
  import opened Filters

  datatype Stats = Stats(
    totalBooks: nat,
    totalStock: int,
    outOfStockBooks: nat,
    genresCount: nat,
    priceSumCents: int,
    mostExpensiveCents: int,
    cheapestCents: int)

  /** `aggregate(Sum('stock'))['stock__sum']`: None on an empty queryset. */
  function SumStock(books: seq<Book>): (r: Option<int>)
    ensures r.None? <==> books == []
    ensures (forall i | 0 <= i < |books| :: StockInRange(books[i].stock)) && r.Some? ==>
      r.value >= 0 && forall i | 0 <= i < |books| :: books[i].stock <= r.value
  {
    if books == [] then None
    else
      var rest := SumStock(books[1..]);
      Some(books[0].stock + if rest.Some? then rest.value else 0)
  }

  /** `aggregate(Sum('price'))`, the numerator of `Avg('price')`. */
  function SumPrice(books: seq<Book>): (r: int)
  {
    if books == [] then 0 else books[0].priceCents + SumPrice(books[1..])
  }

  /** `aggregate(Max('price'))['price__max']`. */
  function MaxPrice(books: seq<Book>): (r: Option<int>)
    ensures r.None? <==> books == []
    ensures r.Some? ==> forall i | 0 <= i < |books| :: books[i].priceCents <= r.value
    ensures r.Some? ==> exists i | 0 <= i < |books| :: books[i].priceCents == r.value
  {
    if books == [] then None
    else
      var rest := MaxPrice(books[1..]);
      if rest.None? || books[0].priceCents >= rest.value then Some(books[0].priceCents)
      else
        assert exists i | 1 <= i < |books| :: books[i].priceCents == rest.value by {
          var j :| 0 <= j < |books[1..]| && books[1..][j].priceCents == rest.value;
          assert books[j + 1].priceCents == rest.value;
        }
        rest
  }

  /** `aggregate(Min('price'))['price__min']`. */
  function MinPrice(books: seq<Book>): (r: Option<int>)
    ensures r.None? <==> books == []
    ensures r.Some? ==> forall i | 0 <= i < |books| :: r.value <= books[i].priceCents
    ensures r.Some? ==> exists i | 0 <= i < |books| :: books[i].priceCents == r.value
  {
    if books == [] then None
    else
      var rest := MinPrice(books[1..]);
      if rest.None? || books[0].priceCents <= rest.value then Some(books[0].priceCents)
      else
        assert exists i | 1 <= i < |books| :: books[i].priceCents == rest.value by {
          var j :| 0 <= j < |books[1..]| && books[1..][j].priceCents == rest.value;
          assert books[j + 1].priceCents == rest.value;
        }
        rest
  }

  /** `values('genre').distinct()`: the genre strings that occur. */
  function Genres(books: seq<Book>): (r: set<string>)
    ensures forall g :: g in r <==> exists i | 0 <= i < |books| :: books[i].genre == g
  {
    if books == [] then {}
    else
      var rest := Genres(books[1..]);
      assert forall g :: (exists i | 1 <= i < |books| :: books[i].genre == g) <==> g in rest by {
        forall g ensures (exists i | 1 <= i < |books| :: books[i].genre == g) <==> g in rest {
          if g in rest {
            var j :| 0 <= j < |books[1..]| && books[1..][j].genre == g;
            assert books[j + 1].genre == g;
          }
        }
      }
      {books[0].genre} + rest
  }

  /** Python's `x or 0` on an aggregate: None (and zero) become 0. */
  function OrZero(x: Option<int>): (r: int)
    ensures x.None? ==> r == 0
    ensures x.Some? ==> r == x.value
  {
    if x.None? || x.value == 0 then 0 else x.value
  }

  /** The `stats` dictionary. */
  function ComputeStats(books: seq<Book>): Stats {
    Stats(
      |books|,
      OrZero(SumStock(books)),
      |FilterInStock(books, Some(false))|,
      |Genres(books)|,
      SumPrice(books),
      OrZero(MaxPrice(books)),
      OrZero(MinPrice(books)))
  }

  /* ---------------- What the figures satisfy ---------------- */

  /** An empty catalogue reports zero everywhere. */
  lemma EmptyCatalogueStats()
    ensures ComputeStats([]) == Stats(0, 0, 0, 0, 0, 0, 0)
  {
    assert FilterInStock([], Some(false)) == [];
  }

  lemma {:induction false} GenresAtMostBooks(books: seq<Book>)
    ensures |Genres(books)| <= |books|
  {
    if books != [] {
      GenresAtMostBooks(books[1..]);
      assert Genres(books) == {books[0].genre} + Genres(books[1..]);
    }
  }

  /** The stock total of two querysets put together is the sum of their
      totals: `Sum('stock')` adds up every row. */
  lemma {:induction false} SumStockAppend(a: seq<Book>, b: seq<Book>)
    ensures OrZero(SumStock(a + b)) == OrZero(SumStock(a)) + OrZero(SumStock(b))
  {
    if a == [] {
      assert a + b == b;
    } else {
      SumStockAppend(a[1..], b);
      assert (a + b)[0] == a[0] && (a + b)[1..] == a[1..] + b;
    }
  }

  /** Prices bounded by `lo` and `hi` sum to between `lo * n` and `hi * n`. */
  lemma {:induction false} PriceSumBetween(books: seq<Book>, lo: int, hi: int)
    requires forall i | 0 <= i < |books| :: lo <= books[i].priceCents <= hi
    ensures lo * |books| <= SumPrice(books) <= hi * |books|
  {
    if books != [] {
      PriceSumBetween(books[1..], lo, hi);
      var n := |books[1..]|;
      assert lo * |books| == lo + lo * n && hi * |books| == hi + hi * n;
    }
  }

  /** The price sum lies between `cheapest * n` and `most_expensive * n`, so
      the average price lies between the cheapest and the dearest. */
  lemma PriceSumBetweenExtremes(books: seq<Book>)
    requires books != []
    ensures MinPrice(books).value * |books| <= SumPrice(books) <= MaxPrice(books).value * |books|
  {
    PriceSumBetween(books, MinPrice(books).value, MaxPrice(books).value);
  }

  /** The relations among the figures the `stats` action reports. */
  lemma StatsRelations(books: seq<Book>)
    requires forall i | 0 <= i < |books| :: StockInRange(books[i].stock)
    ensures var s := ComputeStats(books);
      && s.outOfStockBooks <= s.totalBooks
      && s.genresCount <= s.totalBooks
      && (s.totalBooks > 0 ==> s.genresCount >= 1)
      && s.cheapestCents <= s.mostExpensiveCents
      && s.totalStock >= 0
      && (forall i | 0 <= i < |books| :: books[i].stock <= s.totalStock)
      && s.cheapestCents * s.totalBooks <= s.priceSumCents <= s.mostExpensiveCents * s.totalBooks
  {
    GenresAtMostBooks(books);
    if books != [] {
      assert books[0].genre in Genres(books);
      PriceSumBetweenExtremes(books);
      assert MinPrice(books).value <= books[0].priceCents <= MaxPrice(books).value;
    } else {
      EmptyCatalogueStats();
    }
  }

  /** The out-of-stock count is what the `in_stock=false` filter returns, and
      together with the `in_stock=true` filter it accounts for every book. */
  lemma OutOfStockMatchesFilter(books: seq<Book>)
    requires forall i | 0 <= i < |books| :: StockInRange(books[i].stock)
    ensures ComputeStats(books).outOfStockBooks + |FilterInStock(books, Some(true))| == |books|
  {
    InStockPartition(books);
  }
}
