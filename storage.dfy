/** The storage layer of server/storage.ts over in-memory tables. Each table
    is a sequence of rows in insertion order, so "ORDER BY created_at DESC"
    reads a table back to front. Queries are functions of the tables; the
    writes are methods of DatabaseStorage, which also holds each table's
    serial id sequence. */
module Storage {
  import opened Common
  import opened Schema

  // ---------------------------------------------------------------------
  // getBooks and countLowStockBooks
  // ---------------------------------------------------------------------

  /** A query parameter is used only when it is a non-empty string. */
  predicate Truthy(s: Option<string>) {
    s.Some? && s.value != ""
  }

  /** The lower-cased search text occurs in the lower-cased Arabic title,
      English title or author. */
  predicate MatchesSearch(b: Book, search: string) {
    var s := Lower(search);
    Contains(Lower(b.titleAr), s) || Contains(Lower(b.titleEn), s) || Contains(Lower(b.author), s)
  }

  predicate KeepBook(b: Book, category: Option<string>, search: Option<string>) {
    (Truthy(category) ==> b.category == category.value)
    && (Truthy(search) ==> MatchesSearch(b, search.value))
  }

  function BookFilter(category: Option<string>, search: Option<string>): Book -> bool {
    (b: Book) => KeepBook(b, category, search)
  }

  /** getBooks: the books, newest first, that pass the category and search filters. */
  function GetBooks(books: seq<Book>, category: Option<string>, search: Option<string>): seq<Book> {
    Filter(Reverse(books), BookFilter(category, search))
  }

  /** A book is listed exactly when its category matches (or no category is
      given) and the search text occurs in one of its titles or its author
      (or no search text is given). */
  lemma GetBooksSelects(books: seq<Book>, category: Option<string>, search: Option<string>, b: Book)
    ensures b in GetBooks(books, category, search) <==>
      b in books
      && (Truthy(category) ==> b.category == category.value)
      && (Truthy(search) ==> MatchesSearch(b, search.value))
  {
    FilterMembership(Reverse(books), BookFilter(category, search), b);
    assert b in Reverse(books) <==> b in books by {
      if b in books {
        var i :| 0 <= i < |books| && books[i] == b;
        assert Reverse(books)[|books| - 1 - i] == b;
      }
    }
  }

  /** Without a category and without a search text every book is listed, newest first. */
  lemma GetBooksUnfiltered(books: seq<Book>, category: Option<string>, search: Option<string>)
    requires !Truthy(category) && !Truthy(search)
    ensures GetBooks(books, category, search) == Reverse(books)
  {
    FilterKeepsAll(Reverse(books), BookFilter(category, search));
  }

  /** Filtering keeps the listing's order: with serial ids, the listed books
      are newest first (their ids strictly decrease). */
  lemma GetBooksNewestFirst(books: seq<Book>, next: int, category: Option<string>, search: Option<string>)
    requires SerialIds(books, BookId, next)
    ensures var r := GetBooks(books, category, search);
      forall i, j :: 0 <= i < j < |r| ==> r[i].id > r[j].id
  {
    DescendingFilter(Reverse(books), BookId, BookFilter(category, search));
  }

  predicate Descending<T>(s: seq<T>, key: T -> int) {
    forall i, j :: 0 <= i < j < |s| ==> key(s[i]) > key(s[j])
  }

  lemma {:induction false} DescendingFilter<T>(s: seq<T>, key: T -> int, keep: T -> bool)
    requires Descending(s, key)
    ensures Descending(Filter(s, keep), key)
  {
    if s != [] {
      DescendingFilter(s[1..], key, keep);
      var rest := Filter(s[1..], keep);
      if keep(s[0]) {
        assert Filter(s, keep) == [s[0]] + rest;
        forall j | 0 <= j < |rest| ensures key(s[0]) > key(rest[j]) {
          FilterMembership(s[1..], keep, rest[j]);
        }
      }
    }
  }

  function LowStock(b: Book): bool { b.stock < 5 }

  /** countLowStockBooks: the number of books with fewer than 5 in stock. */
  function CountLowStockBooks(books: seq<Book>): nat {
    |Filter(books, LowStock)|
  }

  /** A new book raises the low-stock count by one exactly when its stock is
      below 5, as it is for a book created without a stock. */
  lemma CountLowStockAfterCreate(books: seq<Book>, id: int, b: InsertBook)
    ensures CountLowStockBooks(books + [NewBook(id, b)]) ==
      CountLowStockBooks(books) + (if b.stock.None? || b.stock.value < 5 then 1 else 0)
  {
    FilterAppend(books, [NewBook(id, b)], LowStock);
  }

  /** The count never exceeds the number of books. */
  lemma CountLowStockBounded(books: seq<Book>)
    ensures CountLowStockBooks(books) <= |books|
    ensures (forall i :: 0 <= i < |books| ==> books[i].stock >= 5) ==> CountLowStockBooks(books) == 0
  {
    if forall i :: 0 <= i < |books| ==> books[i].stock >= 5 {
      FilterKeepsNone(books, LowStock);
    }
  }

  /** getBook and getUserByUsername: the first row with that key. */
  function FindBook(books: seq<Book>, id: int): Option<Book> {
    First(books, (b: Book) => b.id == id)
  }

  function FindUserByEmail(users: seq<User>, email: string): (r: Option<User>)
    ensures r.Some? <==> HasKey(users, UserEmail, email)
    ensures r.Some? ==> r.value in users && r.value.email == email
  {
    var r := First(users, (u: User) => u.email == email);
    assert HasKey(users, UserEmail, email) ==> r.Some? by {
      if HasKey(users, UserEmail, email) {
        var i :| 0 <= i < |users| && UserEmail(users[i]) == email;
        assert ((u: User) => u.email == email)(users[i]);
      }
    }
    r
  }

  function FindPage(pages: seq<SitePage>, slug: string): Option<SitePage> {
    First(pages, (p: SitePage) => p.slug == slug)
  }

  // ---------------------------------------------------------------------
  // Orders
  // ---------------------------------------------------------------------

  /** One line of a new order: the book, how many, and the price paid per copy. */
  datatype NewItem = NewItem(bookId: int, quantity: int, unitPrice: int)

  /** The order_items row stored for one line of an order. */
  function ItemRow(id: int, orderId: int, it: NewItem): OrderItem {
    OrderItem(id, orderId, it.bookId, it.quantity, it.unitPrice)
  }

  /** `x || null` for an optional number: 0 (like a missing value) becomes null. */
  function NumberOrNull(x: Option<int>): Option<int> {
    if x.Some? && x.value != 0 then x else None
  }

  /** `x || null` for an optional string: "" (like a missing value) becomes null. */
  function TextOrNull(x: Option<string>): Option<string> {
    if x.Some? && x.value != "" then x else None
  }

  /** The row createOrder inserts. The region fields are null whenever the
      argument is falsy; the shipping price is null only when it is missing. */
  function OrderRow(
    id: int, userId: Option<int>, customerName: string, phone: string, address: string, city: string,
    notes: Option<string>, total: int,
    wilayaCode: Option<int>, wilayaName: Option<string>, baladiya: Option<string>, shippingPrice: Option<int>): (r: Order)
    ensures r.id == id && r.status == PendingStatus && r.total == total && r.userId == userId
    ensures r.wilayaCode.Some? <==> wilayaCode.Some? && wilayaCode.value != 0
    ensures r.wilayaName.Some? <==> wilayaName.Some? && wilayaName.value != ""
    ensures r.baladiya.Some? <==> baladiya.Some? && baladiya.value != ""
    ensures r.wilayaCode.Some? ==> r.wilayaCode == wilayaCode
    ensures r.shippingPrice.Some? <==> shippingPrice.Some?
  {
    Order(id, userId, customerName, phone, address, city,
          NumberOrNull(wilayaCode), TextOrNull(wilayaName), TextOrNull(baladiya),
          shippingPrice, PendingStatus, total, notes)
  }

  function SetStatus(id: int, status: string): Order -> Order {
    (o: Order) => if o.id == id then o.(status := status) else o
  }

  /** UPDATE orders SET status = ... WHERE id = ... */
  function WithStatus(orders: seq<Order>, id: int, status: string): seq<Order> {
    MapSeq(orders, SetStatus(id, status))
  }

  function OrderHasId(id: int): Order -> bool { (o: Order) => o.id == id }
  /** Setting a status keeps the ids serial; the order found by id, with its
      new status, is in the table afterwards, and none is found exactly when
      no order has that id. */
  lemma WithStatusEffect(orders: seq<Order>, next: int, id: int, status: string)
    requires SerialIds(orders, OrderId, next)
    ensures SerialIds(WithStatus(orders, id, status), OrderId, next)
    ensures First(orders, OrderHasId(id)).Some? <==> exists i :: 0 <= i < |orders| && orders[i].id == id
    ensures First(orders, OrderHasId(id)).Some? ==>
      First(orders, OrderHasId(id)).value.id == id
      && First(orders, OrderHasId(id)).value.(status := status) in WithStatus(orders, id, status)
  {
    SerialIdsMap(orders, OrderId, next, SetStatus(id, status));
    var found := First(orders, OrderHasId(id));
    if found.Some? {
      var k :| 0 <= k < |orders| && orders[k] == found.value;
      assert OrderHasId(id)(orders[k]);
      assert WithStatus(orders, id, status)[k] == found.value.(status := status);
    } else {
      forall i | 0 <= i < |orders| ensures orders[i].id != id {
        assert !OrderHasId(id)(orders[i]);
      }
    }
  }

  function OrderIsNot(id: int): Order -> bool { (o: Order) => o.id != id }
  function ItemNotOf(id: int): OrderItem -> bool { (i: OrderItem) => i.orderId != id }

  /** deleteOrder: the items of the order, then the order, are deleted. */
  lemma DeleteOrderRemovesExactly(orders: seq<Order>, items: seq<OrderItem>, id: int)
    ensures forall o :: o in Filter(orders, OrderIsNot(id)) <==> o in orders && o.id != id
    ensures forall i :: i in Filter(items, ItemNotOf(id)) <==> i in items && i.orderId != id
  {
    forall o ensures o in Filter(orders, OrderIsNot(id)) <==> o in orders && o.id != id {
      FilterMembership(orders, OrderIsNot(id), o);
    }
    forall i ensures i in Filter(items, ItemNotOf(id)) <==> i in items && i.orderId != id {
      FilterMembership(items, ItemNotOf(id), i);
    }
  }

  function Counted(o: Order): bool { o.status != CancelledStatus }
  function OrderTotal(o: Order): int { o.total }

  /** totalRevenue: the sum of the totals of the orders that are not cancelled (0 if none). */
  function TotalRevenue(orders: seq<Order>): int {
    SumOf(Filter(orders, Counted), OrderTotal)
  }

  /** What one order contributes to the revenue. */
  function RevenueTerm(o: Order): int { if o.status != CancelledStatus then o.total else 0 }

  lemma SumOfCons<T>(x: T, s: seq<T>, f: T -> int)
    ensures SumOf([x] + s, f) == f(x) + SumOf(s, f)
  {
    SumOfAppend([x], s, f);
    assert [x][..0] == [];
  }

  /** The revenue is the sum over all orders of what each contributes. */
  lemma {:induction false} RevenueIsSumOfTerms(orders: seq<Order>)
    ensures TotalRevenue(orders) == SumOf(orders, RevenueTerm)
  {
    if orders != [] {
      RevenueIsSumOfTerms(orders[1..]);
      assert orders == [orders[0]] + orders[1..];
      SumOfCons(orders[0], orders[1..], RevenueTerm);
      var rest := Filter(orders[1..], Counted);
      if Counted(orders[0]) {
        assert Filter(orders, Counted) == [orders[0]] + rest;
        SumOfCons(orders[0], rest, OrderTotal);
      } else {
        assert Filter(orders, Counted) == rest;
      }
    }
  }

  /** With no order, or only cancelled ones, the revenue is 0. */
  lemma RevenueOfCancelledOnly(orders: seq<Order>)
    requires forall i :: 0 <= i < |orders| ==> orders[i].status == CancelledStatus
    ensures TotalRevenue(orders) == 0
  {
    FilterKeepsNone(orders, Counted);
  }

  /** A new order adds its total to the revenue unless it is cancelled. */
  lemma RevenueAfterAppend(orders: seq<Order>, o: Order)
    ensures TotalRevenue(orders + [o]) == TotalRevenue(orders) + RevenueTerm(o)
  {
    RevenueIsSumOfTerms(orders);
    RevenueIsSumOfTerms(orders + [o]);
    SumOfAppend(orders, [o], RevenueTerm);
    assert [o][..0] == [];
  }

  /** Changing the status of the order at index k changes the revenue by the
      difference of what it contributes: cancelling a pending order removes
      its total, and un-cancelling adds it back. */
  lemma RevenueAfterStatusChange(orders: seq<Order>, next: int, k: nat, status: string)
    requires SerialIds(orders, OrderId, next)
    requires k < |orders|
    ensures TotalRevenue(WithStatus(orders, orders[k].id, status)) ==
      TotalRevenue(orders) - RevenueTerm(orders[k]) + RevenueTerm(orders[k].(status := status))
  {
    var id := orders[k].id;
    SerialIdsUnique(orders, OrderId, next);
    KeyElsewhere(orders, OrderId, k);
    MapSeqAtOne(orders, SetStatus(id, status), k);
    RevenueIsSumOfTerms(orders);
    RevenueIsSumOfTerms(WithStatus(orders, id, status));
    SumOfUpdate(orders, k, orders[k].(status := status), RevenueTerm);
  }

  /** Deleting the order at index k removes what it contributed to the revenue. */
  lemma RevenueAfterDelete(orders: seq<Order>, next: int, k: nat)
    requires SerialIds(orders, OrderId, next)
    requires k < |orders|
    ensures TotalRevenue(Filter(orders, OrderIsNot(orders[k].id))) == TotalRevenue(orders) - RevenueTerm(orders[k])
  {
    var id := orders[k].id;
    SerialIdsUnique(orders, OrderId, next);
    KeyElsewhere(orders, OrderId, k);
    FilterDropsOne(orders, OrderIsNot(id), k);
    RevenueIsSumOfTerms(orders);
    RevenueIsSumOfTerms(orders[..k] + orders[k + 1..]);
    SumOfDeleteAt(orders, k, RevenueTerm);
  }

  // ---------------------------------------------------------------------
  // Site pages
  // ---------------------------------------------------------------------

  /** Partial<InsertSitePage>: the columns a caller gives. It may carry its
      own slug; nullable columns may be set to null (Some(None)). */
  datatype PageData = PageData(
    slug: Option<string>, titleAr: Option<string>, titleEn: Option<string>,
    contentAr: Option<string>, contentEn: Option<string>,
    imageUrl: Option<Option<string>>, extraData: Option<Option<string>>)

  /** UPDATE site_pages SET ...data, updatedAt = now. */
  function ApplyPageData(p: SitePage, d: PageData, now: int): SitePage {
    SitePage(p.id, d.slug.GetOr(p.slug), d.titleAr.GetOr(p.titleAr), d.titleEn.GetOr(p.titleEn),
             d.contentAr.GetOr(p.contentAr), d.contentEn.GetOr(p.contentEn),
             d.imageUrl.GetOr(p.imageUrl), d.extraData.GetOr(p.extraData), now)
  }

  /** INSERT INTO site_pages { slug, ...data }: a slug in `data` wins; text
      columns default to "", the others to null, updatedAt to now. */
  function NewPage(id: int, slug: string, d: PageData, now: int): SitePage {
    SitePage(id, d.slug.GetOr(slug), d.titleAr.GetOr(""), d.titleEn.GetOr(""),
             d.contentAr.GetOr(""), d.contentEn.GetOr(""),
             d.imageUrl.GetOr(None), d.extraData.GetOr(None), now)
  }

  function TouchPage(slug: string, d: PageData, now: int): SitePage -> SitePage {
    (p: SitePage) => if p.slug == slug then ApplyPageData(p, d, now) else p
  }

  /** upsertPage on the table: update the page with that slug if there is one,
      insert one otherwise; None when the unique slug constraint rejects it. */
  function UpsertPages(pages: seq<SitePage>, id: int, slug: string, d: PageData, now: int): Option<seq<SitePage>> {
    if FindPage(pages, slug).Some? then
      var updated := MapSeq(pages, TouchPage(slug, d, now));
      if UniqueKey(updated, PageSlug) then Some(updated) else None
    else InsertUnique(pages, NewPage(id, slug, d, now), PageSlug)
  }

  lemma FindPageFinds(pages: seq<SitePage>, slug: string)
    ensures FindPage(pages, slug).Some? <==> HasKey(pages, PageSlug, slug)
  {
    if HasKey(pages, PageSlug, slug) {
      var i :| 0 <= i < |pages| && PageSlug(pages[i]) == slug;
      assert ((p: SitePage) => p.slug == slug)(pages[i]);
    }
  }

  /** Without a slug in `data`, the page with that slug at index k is the
      only row an upsert changes. */
  lemma {:induction false} UpsertExistingPage(pages: seq<SitePage>, id: int, slug: string, d: PageData, now: int, k: nat)
    requires UniqueKey(pages, PageSlug) && d.slug.None?
    requires k < |pages| && pages[k].slug == slug
    ensures UpsertPages(pages, id, slug, d, now) == Some(pages[k := ApplyPageData(pages[k], d, now)])
  {
    FindPageFinds(pages, slug);
    var f := TouchPage(slug, d, now);
    forall i | 0 <= i < |pages| && i != k ensures f(pages[i]) == pages[i] {
      if i < k { assert PageSlug(pages[i]) != PageSlug(pages[k]); }
      else { assert PageSlug(pages[k]) != PageSlug(pages[i]); }
    }
    MapSeqAtOne(pages, f, k);
    var u := MapSeq(pages, f);
    assert forall i :: 0 <= i < |pages| ==> PageSlug(u[i]) == PageSlug(pages[i]);
    assert UniqueKey(u, PageSlug);
  }

  /** When `data` carries no slug of its own, upsertPage succeeds; afterwards a
      page with that slug exists; an existing page at index k is the only row
      that changes, and otherwise exactly one page is appended. */
  lemma {:induction false} UpsertPageEffect(pages: seq<SitePage>, id: int, slug: string, d: PageData, now: int)
    requires UniqueKey(pages, PageSlug)
    requires d.slug.None?
    ensures UpsertPages(pages, id, slug, d, now).Some?
    ensures HasKey(UpsertPages(pages, id, slug, d, now).value, PageSlug, slug)
    ensures forall k :: 0 <= k < |pages| && pages[k].slug == slug ==>
      UpsertPages(pages, id, slug, d, now).value == pages[k := ApplyPageData(pages[k], d, now)]
    ensures !HasKey(pages, PageSlug, slug) ==>
      UpsertPages(pages, id, slug, d, now).value == pages + [NewPage(id, slug, d, now)]
  {
    FindPageFinds(pages, slug);
    if HasKey(pages, PageSlug, slug) {
      var k :| 0 <= k < |pages| && PageSlug(pages[k]) == slug;
      UpsertExistingPage(pages, id, slug, d, now, k);
      assert PageSlug(UpsertPages(pages, id, slug, d, now).value[k]) == slug;
      forall j | 0 <= j < |pages| && pages[j].slug == slug
        ensures UpsertPages(pages, id, slug, d, now).value == pages[j := ApplyPageData(pages[j], d, now)]
      {
        UpsertExistingPage(pages, id, slug, d, now, j);
      }
    } else {
      var n := NewPage(id, slug, d, now);
      assert (pages + [n])[|pages|] == n;
    }
  }

  /** A slug inside `data` overrides the argument: when it differs, no page
      has the argument's slug afterwards. */
  lemma UpsertPageDataSlugWins(pages: seq<SitePage>, id: int, slug: string, d: PageData, now: int)
    requires UniqueKey(pages, PageSlug)
    requires d.slug.Some? && d.slug.value != slug
    requires UpsertPages(pages, id, slug, d, now).Some?
    ensures !HasKey(UpsertPages(pages, id, slug, d, now).value, PageSlug, slug)
    ensures HasKey(UpsertPages(pages, id, slug, d, now).value, PageSlug, d.slug.value)
  {
    FindPageFinds(pages, slug);
    var r := UpsertPages(pages, id, slug, d, now).value;
    if HasKey(pages, PageSlug, slug) {
      var k :| 0 <= k < |pages| && PageSlug(pages[k]) == slug;
      assert PageSlug(r[k]) == d.slug.value;
      forall i | 0 <= i < |r| ensures PageSlug(r[i]) != slug {
        if i != k {
          if i < k { assert PageSlug(pages[i]) != PageSlug(pages[k]); }
          else { assert PageSlug(pages[k]) != PageSlug(pages[i]); }
        }
      }
    } else {
      assert r == pages + [NewPage(id, slug, d, now)];
      assert PageSlug(r[|pages|]) == d.slug.value;
      forall i | 0 <= i < |r| ensures PageSlug(r[i]) != slug {
        if i < |pages| { assert r[i] == pages[i]; }
      }
    }
  }

  /** upsertPage never breaks the unique slug constraint. */
  lemma UpsertPageKeepsSlugsUnique(pages: seq<SitePage>, id: int, slug: string, d: PageData, now: int)
    requires UniqueKey(pages, PageSlug)
    ensures UpsertPages(pages, id, slug, d, now).Some? ==> UniqueKey(UpsertPages(pages, id, slug, d, now).value, PageSlug)
  {
    if FindPage(pages, slug).None? {
      InsertUniqueKeepsKeysUnique(pages, NewPage(id, slug, d, now), PageSlug);
    }
  }

  /** The row upsertPage returns: the updated page, or the inserted one. */
  function UpsertedPage(pages: seq<SitePage>, id: int, slug: string, d: PageData, now: int): SitePage {
    match FindPage(pages, slug)
    case Some(p) => ApplyPageData(p, d, now)
    case None => NewPage(id, slug, d, now)
  }

  /** A successful upsert keeps the ids serial (taking a new id only when it
      inserts) and the slugs unique, and the page it returns is in the table
      with the slug it was written with. */
  lemma UpsertPagesValid(pages: seq<SitePage>, next: int, slug: string, d: PageData, now: int)
    requires SerialIds(pages, PageId, next) && UniqueKey(pages, PageSlug)
    requires UpsertPages(pages, next, slug, d, now).Some?
    ensures var up := UpsertPages(pages, next, slug, d, now).value;
      SerialIds(up, PageId, if FindPage(pages, slug).None? then next + 1 else next)
      && UniqueKey(up, PageSlug)
      && UpsertedPage(pages, next, slug, d, now) in up
      && UpsertedPage(pages, next, slug, d, now).slug == d.slug.GetOr(slug)
  {
    UpsertPageKeepsSlugsUnique(pages, next, slug, d, now);
    var up := UpsertPages(pages, next, slug, d, now).value;
    var f := TouchPage(slug, d, now);
    match FindPage(pages, slug)
    case Some(p) =>
      var k :| 0 <= k < |pages| && pages[k] == p && p.slug == slug;
      SerialIdsMap(pages, PageId, next, f);
      assert up[k] == ApplyPageData(p, d, now);
    case None =>
      var n := NewPage(next, slug, d, now);
      SerialIdsAppend(pages, PageId, next, n);
      assert up[|pages|] == n;
  }

  // ---------------------------------------------------------------------
  // Reviews and ratings
  // ---------------------------------------------------------------------

  function ApprovedOf(bookId: int): Review -> bool {
    (r: Review) => r.bookId == bookId && r.approved
  }

  function ApprovedFor(reviews: seq<Review>, bookId: int): seq<Review> {
    Filter(reviews, ApprovedOf(bookId))
  }

  /** getReviewsByBook: the book's approved reviews, newest first. */
  function GetReviewsByBook(reviews: seq<Review>, bookId: int): seq<Review> {
    Filter(Reverse(reviews), ApprovedOf(bookId))
  }

  /** A review is listed exactly when it is an approved review of the book;
      with serial ids the list runs newest first. */
  lemma GetReviewsByBookSelects(reviews: seq<Review>, next: int, bookId: int)
    requires SerialIds(reviews, ReviewId, next)
    ensures forall x :: x in GetReviewsByBook(reviews, bookId) <==> x in reviews && x.bookId == bookId && x.approved
    ensures Descending(GetReviewsByBook(reviews, bookId), ReviewId)
  {
    forall x ensures x in GetReviewsByBook(reviews, bookId) <==> x in reviews && x.bookId == bookId && x.approved {
      FilterMembership(Reverse(reviews), ApprovedOf(bookId), x);
      if x in reviews {
        var i :| 0 <= i < |reviews| && reviews[i] == x;
        assert Reverse(reviews)[|reviews| - 1 - i] == x;
      }
    }
    DescendingFilter(Reverse(reviews), ReviewId, ApprovedOf(bookId));
  }

  datatype RatingSummary = RatingSummary(avg: real, count: int)

  function Rating(r: Review): int { r.rating }

  /** COALESCE(AVG(rating), 0) and count(*) over a group of ratings. */
  function Summarize(sum: int, count: int): RatingSummary {
    if count == 0 then RatingSummary(0.0, 0) else RatingSummary(sum as real / count as real, count)
  }

  /** getBookRatingSummary: the mean and number of the book's approved reviews. */
  function BookRatingSummary(reviews: seq<Review>, bookId: int): RatingSummary {
    var a := ApprovedFor(reviews, bookId);
    Summarize(SumOf(a, Rating), |a|)
  }

  /** The summary counts the book's approved reviews; with no such review it
      is {avg 0, count 0}, and when every rating lies in [1, 5] a non-empty
      summary has its mean in [1, 5] too. */
  lemma RatingSummaryBounds(reviews: seq<Review>, bookId: int)
    requires forall i :: 0 <= i < |reviews| ==> 1 <= reviews[i].rating <= 5
    ensures var s := BookRatingSummary(reviews, bookId);
      s.count == |ApprovedFor(reviews, bookId)|
      && (s.count == 0 ==> s.avg == 0.0)
      && (s.count > 0 ==> 1.0 <= s.avg <= 5.0)
  {
    var a := ApprovedFor(reviews, bookId);
    forall i | 0 <= i < |a| ensures 1 <= Rating(a[i]) <= 5 {
      FilterMembership(reviews, ApprovedOf(bookId), a[i]);
    }
    SumOfBounds(a, Rating, 1, 5);
    if |a| > 0 {
      MeanBetween(SumOf(a, Rating), |a|);
    }
  }

  /** A sum of `count` terms, each in [1, 5], has its mean in [1, 5]. */
  lemma MeanBetween(sum: int, count: int)
    requires 0 < count && count <= sum <= 5 * count
    ensures 1.0 <= sum as real / count as real <= 5.0
  {
    var t, c := sum as real, count as real;
    var q := t / c;
    assert q * c == t;
    assert (5.0 - q) * c == 5.0 * c - t;
    NonNegativeFactor(5.0 - q, c);
    assert (q - 1.0) * c == t - c;
    NonNegativeFactor(q - 1.0, c);
  }

  lemma NonNegativeFactor(x: real, c: real)
    requires c > 0.0 && x * c >= 0.0
    ensures x >= 0.0
  {
  }

  /** SELECT book_id, AVG(rating), count(*) FROM reviews WHERE approved
      GROUP BY book_id, kept as a running (sum of ratings, count) per book. */
  function Tally(reviews: seq<Review>): map<int, (int, int)> {
    if reviews == [] then map[]
    else TallyStep(Tally(reviews[..|reviews| - 1]), reviews[|reviews| - 1])
  }

  /** One more review: an approved one joins its book's group. */
  function TallyStep(m: map<int, (int, int)>, r: Review): map<int, (int, int)> {
    if !r.approved then m
    else
      var g := if r.bookId in m then m[r.bookId] else (0, 0);
      m[r.bookId := (g.0 + r.rating, g.1 + 1)]
  }

  lemma TallyStepJoins(m: map<int, (int, int)>, r: Review)
    requires r.approved
    ensures var g := if r.bookId in m then m[r.bookId] else (0, 0);
      r.bookId in TallyStep(m, r) && TallyStep(m, r)[r.bookId] == (g.0 + r.rating, g.1 + 1)
  {
  }

  /** getAllBookRatings. */
  function AllBookRatings(reviews: seq<Review>): map<int, RatingSummary> {
    var t := Tally(reviews);
    map b | b in t :: Summarize(t[b].0, t[b].1)
  }

  /** A book's group in `m` is the sum and number of the reviews `rs`, and
      the book has a group exactly when `rs` is not empty. */
  predicate GroupAgrees(m: map<int, (int, int)>, rs: seq<Review>, bookId: int) {
    (bookId in m <==> |rs| > 0)
    && (bookId in m ==> m[bookId] == (SumOf(rs, Rating), |rs|))
  }

  /** One more review keeps each book's group in step with its approved reviews. */
  lemma TallyStepAgrees(m: map<int, (int, int)>, before: seq<Review>, r: Review, bookId: int)
    requires GroupAgrees(m, before, bookId)
    ensures GroupAgrees(TallyStep(m, r), before + Filter([r], ApprovedOf(bookId)), bookId)
  {
    if r.approved && r.bookId == bookId {
      assert ApprovedOf(bookId)(r);
      assert Filter([r], ApprovedOf(bookId)) == [r];
      TallyStepJoins(m, r);
      SumOfAppend(before, [r], Rating);
      SumOfOne(r, Rating);
      if bookId !in m {
        assert before == [];
      }
    } else {
      assert !ApprovedOf(bookId)(r);
      assert Filter([r], ApprovedOf(bookId)) == [];
      assert before + [] == before;
    }
  }

  /** The group of a book is the sum and number of its approved reviews, and
      a book has a group exactly when it has such a review. */
  lemma {:induction false} TallyAgrees(reviews: seq<Review>, bookId: int)
    ensures GroupAgrees(Tally(reviews), ApprovedFor(reviews, bookId), bookId)
  {
    if reviews != [] {
      var init, r := reviews[..|reviews| - 1], reviews[|reviews| - 1];
      TallyAgrees(init, bookId);
      assert reviews == init + [r];
      FilterAppend(init, [r], ApprovedOf(bookId));
      TallyStepAgrees(Tally(init), ApprovedFor(init, bookId), r, bookId);
    }
  }

  /** getAllBookRatings has an entry for exactly the books with an approved
      review, and each entry is that book's getBookRatingSummary. */
  lemma AllBookRatingsAgree(reviews: seq<Review>, bookId: int)
    ensures bookId in AllBookRatings(reviews) <==> BookRatingSummary(reviews, bookId).count > 0
    ensures bookId in AllBookRatings(reviews) ==> AllBookRatings(reviews)[bookId] == BookRatingSummary(reviews, bookId)
  {
    TallyAgrees(reviews, bookId);
  }

  // ---------------------------------------------------------------------
  // The tables
  // ---------------------------------------------------------------------

  /** What updateBook comes back with: the error drizzle throws for an update
      that sets no column, or the updated row (None when no book has the id). */
  datatype UpdateOutcome = NoValuesToSet | Updated(row: Option<Book>)

  class DatabaseStorage {
    var users: seq<User>
    var books: seq<Book>
    var orders: seq<Order>
    var orderItems: seq<OrderItem>
    var pages: seq<SitePage>
    var reviews: seq<Review>
    var nextUserId: int
    var nextBookId: int
    var nextOrderId: int
    var nextItemId: int
    var nextPageId: int
    var nextReviewId: int

    /** Serial ids in every table, unique e-mails and unique page slugs. */
    ghost predicate Valid()
      reads this
    {
      SerialIds(users, UserId, nextUserId) && SerialIds(books, BookId, nextBookId)
      && SerialIds(orders, OrderId, nextOrderId) && SerialIds(orderItems, OrderItemId, nextItemId)
      && SerialIds(pages, PageId, nextPageId) && SerialIds(reviews, ReviewId, nextReviewId)
      && UniqueKey(users, UserEmail) && UniqueKey(pages, PageSlug)
    }

    constructor ()
      ensures users == [] && books == [] && orders == [] && orderItems == [] && pages == [] && reviews == []
      ensures Valid()
    {
      users, nextUserId := [], 1;
      books, nextBookId := [], 1;
      orders, nextOrderId := [], 1;
      orderItems, nextItemId := [], 1;
      pages, nextPageId := [], 1;
      reviews, nextReviewId := [], 1;
    }

    /** createUser: rejected (None, nothing stored) when the e-mail is taken.
        The serial id is drawn before the unique check, so a rejected insert
        uses one up too. */
    method CreateUser(u: InsertUser) returns (r: Option<User>)
      requires Valid()
      modifies this`users, this`nextUserId
      ensures Valid()
      ensures r.None? <==> old(HasKey(users, UserEmail, u.email))
      ensures r.Some? ==> r.value == NewUser(old(nextUserId), u) && users == old(users) + [r.value]
      ensures r.None? ==> users == old(users)
      ensures nextUserId == old(nextUserId) + 1
    {
      var row := NewUser(nextUserId, u);
      var ins := InsertUnique(users, row, UserEmail);
      nextUserId := nextUserId + 1;
      if ins.None? {
        return None;
      }
      InsertUniqueKeepsKeysUnique(users, row, UserEmail);
      SerialIdsAppend(users, UserId, row.id, row);
      users := ins.value;
      r := Some(row);
    }

    method CreateBook(b: InsertBook) returns (book: Book)
      requires Valid()
      modifies this`books, this`nextBookId
      ensures Valid()
      ensures book == NewBook(old(nextBookId), b) && books == old(books) + [book]
      ensures nextBookId == old(nextBookId) + 1
    {
      book := NewBook(nextBookId, b);
      SerialIdsAppend(books, BookId, nextBookId, book);
      books := books + [book];
      nextBookId := nextBookId + 1;
    }

    /** updateBook: throws when the update sets no column; otherwise the
        updated row, or None when no book has that id. */
    method UpdateBook(id: int, u: BookUpdate) returns (r: UpdateOutcome)
      requires Valid()
      modifies this`books
      ensures Valid()
      ensures GivesNoColumn(u) ==> r == NoValuesToSet && books == old(books)
      ensures !GivesNoColumn(u) ==>
        r.Updated? && books == MapSeq(old(books), (b: Book) => if b.id == id then ApplyBookUpdate(b, u) else b)
      ensures r.Updated? ==> (r.row.None? <==> old(FindBook(books, id)).None?)
      ensures r.Updated? && r.row.Some? ==> r.row.value == ApplyBookUpdate(old(FindBook(books, id)).value, u) && r.row.value.id == id
    {
      if GivesNoColumn(u) {
        return NoValuesToSet;
      }
      var f := (b: Book) => if b.id == id then ApplyBookUpdate(b, u) else b;
      var found := FindBook(books, id);
      SerialIdsMap(books, BookId, nextBookId, f);
      books := MapSeq(books, f);
      r := Updated(if found.Some? then Some(ApplyBookUpdate(found.value, u)) else None);
    }

    method DeleteBook(id: int)
      requires Valid()
      modifies this`books
      ensures Valid()
      ensures books == Filter(old(books), (b: Book) => b.id != id)
      ensures forall b :: b in books <==> b in old(books) && b.id != id
    {
      var keep := (b: Book) => b.id != id;
      SerialIdsFilter(books, BookId, nextBookId, keep);
      forall b ensures b in Filter(books, keep) <==> b in books && b.id != id {
        FilterMembership(books, keep, b);
      }
      books := Filter(books, keep);
    }

    /** createOrder: inserts the order, then one item per line in the given
        order, and returns the order with its items. */
    method CreateOrder(
      userId: Option<int>, customerName: string, phone: string, address: string, city: string,
      notes: Option<string>, total: int, items: seq<NewItem>,
      wilayaCode: Option<int>, wilayaName: Option<string>, baladiya: Option<string>, shippingPrice: Option<int>)
      returns (order: Order, inserted: seq<OrderItem>)
      requires Valid()
      modifies this`orders, this`nextOrderId, this`orderItems, this`nextItemId
      ensures Valid()
      ensures order == OrderRow(old(nextOrderId), userId, customerName, phone, address, city, notes, total,
                                wilayaCode, wilayaName, baladiya, shippingPrice)
      ensures orders == old(orders) + [order]
      ensures |inserted| == |items|
      ensures forall j :: 0 <= j < |items| ==> inserted[j] == ItemRow(old(nextItemId) + j, order.id, items[j])
      ensures orderItems == old(orderItems) + inserted
      ensures nextOrderId == old(nextOrderId) + 1 && nextItemId == old(nextItemId) + |items|
    {
      order := OrderRow(nextOrderId, userId, customerName, phone, address, city, notes, total,
                        wilayaCode, wilayaName, baladiya, shippingPrice);
      SerialIdsAppend(orders, OrderId, nextOrderId, order);
      orders := orders + [order];
      nextOrderId := nextOrderId + 1;

      inserted := InsertItems(order.id, items);
    }

    /** The loop of createOrder: one order_items row per line, in order. */
    method InsertItems(orderId: int, items: seq<NewItem>) returns (inserted: seq<OrderItem>)
      requires SerialIds(orderItems, OrderItemId, nextItemId)
      modifies this`orderItems, this`nextItemId
      ensures SerialIds(orderItems, OrderItemId, nextItemId)
      ensures |inserted| == |items|
      ensures forall j :: 0 <= j < |items| ==> inserted[j] == ItemRow(old(nextItemId) + j, orderId, items[j])
      ensures orderItems == old(orderItems) + inserted
      ensures nextItemId == old(nextItemId) + |items|
    {
      inserted := [];
      var i := 0;
      while i < |items|
        invariant 0 <= i <= |items|
        invariant SerialIds(orderItems, OrderItemId, nextItemId)
        invariant |inserted| == i
        invariant forall j :: 0 <= j < i ==> inserted[j] == ItemRow(old(nextItemId) + j, orderId, items[j])
        invariant orderItems == old(orderItems) + inserted
        invariant nextItemId == old(nextItemId) + i
      {
        var row := ItemRow(nextItemId, orderId, items[i]);
        SerialIdsAppend(orderItems, OrderItemId, nextItemId, row);
        orderItems := orderItems + [row];
        nextItemId := nextItemId + 1;
        assert forall j :: 0 <= j < i ==> (inserted + [row])[j] == inserted[j];
        inserted := inserted + [row];
        i := i + 1;
      }
    }

    /** updateOrderStatus: any status string is stored on that order alone. */
    method UpdateOrderStatus(id: int, status: string) returns (r: Option<Order>)
      requires Valid()
      modifies this`orders
      ensures Valid()
      ensures orders == WithStatus(old(orders), id, status)
      ensures forall i :: 0 <= i < |orders| ==>
        orders[i] == (if old(orders)[i].id == id then old(orders)[i].(status := status) else old(orders)[i])
      ensures r.Some? <==> exists i :: 0 <= i < |old(orders)| && old(orders)[i].id == id
      ensures r.Some? ==> r.value.id == id && r.value.status == status && r.value in orders
    {
      var found := First(orders, OrderHasId(id));
      WithStatusEffect(orders, nextOrderId, id, status);
      orders := WithStatus(orders, id, status);
      r := if found.Some? then Some(found.value.(status := status)) else None;
    }

    /** deleteOrder: the order's items and then the order are deleted. */
    method DeleteOrder(id: int)
      requires Valid()
      modifies this`orders, this`orderItems
      ensures Valid()
      ensures orderItems == Filter(old(orderItems), ItemNotOf(id))
      ensures orders == Filter(old(orders), OrderIsNot(id))
      ensures forall o :: o in orders <==> o in old(orders) && o.id != id
      ensures forall i :: i in orderItems <==> i in old(orderItems) && i.orderId != id
    {
      DeleteOrderRemovesExactly(orders, orderItems, id);
      SerialIdsFilter(orderItems, OrderItemId, nextItemId, ItemNotOf(id));
      SerialIdsFilter(orders, OrderId, nextOrderId, OrderIsNot(id));
      orderItems := Filter(orderItems, ItemNotOf(id));
      orders := Filter(orders, OrderIsNot(id));
    }

    /** upsertPage, with `now` the time written to updatedAt. Taking the
        insert branch draws a serial id, even when the insert is rejected. */
    method UpsertPage(slug: string, d: PageData, now: int) returns (r: Option<SitePage>)
      requires Valid()
      modifies this`pages, this`nextPageId
      ensures Valid()
      ensures nextPageId == old(nextPageId) + (if FindPage(old(pages), slug).None? then 1 else 0)
      ensures var up := UpsertPages(old(pages), old(nextPageId), slug, d, now);
        (up.None? ==> r.None? && pages == old(pages)) && (up.Some? ==> r.Some? && pages == up.value)
      ensures r.Some? ==> r.value == UpsertedPage(old(pages), old(nextPageId), slug, d, now)
      ensures r.Some? ==> r.value in pages && r.value.slug == d.slug.GetOr(slug)
    {
      var up := UpsertPages(pages, nextPageId, slug, d, now);
      var inserting := FindPage(pages, slug).None?;
      if up.None? {
        if inserting {
          nextPageId := nextPageId + 1;
        }
        return None;
      }
      UpsertPagesValid(pages, nextPageId, slug, d, now);
      r := Some(UpsertedPage(pages, nextPageId, slug, d, now));
      if inserting {
        nextPageId := nextPageId + 1;
      }
      pages := up.value;
    }

    /** createReview: a new, approved review; an empty comment is stored as null. */
    method CreateReview(bookId: int, userId: Option<int>, userName: string, rating: int, comment: Option<string>)
      returns (r: Review)
      requires Valid()
      modifies this`reviews, this`nextReviewId
      ensures Valid()
      ensures r == NewReview(old(nextReviewId), bookId, userId, userName, rating, TextOrNull(comment))
      ensures reviews == old(reviews) + [r]
      ensures nextReviewId == old(nextReviewId) + 1
    {
      r := NewReview(nextReviewId, bookId, userId, userName, rating, TextOrNull(comment));
      SerialIdsAppend(reviews, ReviewId, nextReviewId, r);
      reviews := reviews + [r];
      nextReviewId := nextReviewId + 1;
    }
  }
}
