/** The storefront's tables, their column defaults and unique keys, and the
    zod input validators of shared/schema.ts. Money columns (numeric in the
    database, read with Number()) are whole DZD amounts; `createdAt`
    columns are not stored: a table's order is its insertion order, which
    is the order of creation. */
module Schema {
  import opened Common

  // ---------------------------------------------------------------------
  // Rows
  // ---------------------------------------------------------------------

  datatype User = User(
    id: int, email: string, password: string, role: string,
    name: Option<string>, phone: Option<string>, address: Option<string>, city: Option<string>,
    enabled: bool)

  datatype Category = Category(id: int, nameAr: string, nameEn: string, slug: string)

  datatype Book = Book(
    id: int, titleAr: string, titleEn: string, author: string,
    descriptionAr: string, descriptionEn: string,
    price: int, category: string, categoryId: Option<int>, image: string, language: string,
    published: bool, isbn: Option<string>, stock: int)

  datatype Wilaya = Wilaya(id: int, code: int, nameAr: string, nameEn: string, shippingPrice: int, isActive: bool)

  /** userId and shippingPrice may be null; total may not. */
  datatype Order = Order(
    id: int, userId: Option<int>, customerName: string, phone: string, address: string, city: string,
    wilayaCode: Option<int>, wilayaName: Option<string>, baladiya: Option<string>,
    shippingPrice: Option<int>, status: string, total: int, notes: Option<string>)

  /** quantity and unitPrice are required; unitPrice is the price recorded at ordering time. */
  datatype OrderItem = OrderItem(id: int, orderId: int, bookId: int, quantity: int, unitPrice: int)

  datatype SitePage = SitePage(
    id: int, slug: string, titleAr: string, titleEn: string, contentAr: string, contentEn: string,
    imageUrl: Option<string>, extraData: Option<string>, updatedAt: int)

  datatype Review = Review(
    id: int, bookId: int, userId: Option<int>, userName: string, rating: int,
    comment: Option<string>, approved: bool)

  function UserId(u: User): int { u.id }
  function UserEmail(u: User): string { u.email }
  function BookId(b: Book): int { b.id }
  function OrderId(o: Order): int { o.id }
  function OrderItemId(i: OrderItem): int { i.id }
  function PageId(p: SitePage): int { p.id }
  function PageSlug(p: SitePage): string { p.slug }
  function ReviewId(r: Review): int { r.id }
  function CategorySlug(c: Category): string { c.slug }
  function WilayaCode(w: Wilaya): int { w.code }

  // ---------------------------------------------------------------------
  // Unique keys (users.email, categories.slug, wilayas.code, site_pages.slug)
  // ---------------------------------------------------------------------

  predicate UniqueKey<T, K(==)>(rows: seq<T>, key: T -> K) {
    forall i, j :: 0 <= i < j < |rows| ==> key(rows[i]) != key(rows[j])
  }

  /** Under a unique key, no other row shares the key of row `k`. */
  lemma KeyElsewhere<T, K>(rows: seq<T>, key: T -> K, k: nat)
    requires UniqueKey(rows, key) && k < |rows|
    ensures forall i :: 0 <= i < |rows| && i != k ==> key(rows[i]) != key(rows[k])
  {
    forall i | 0 <= i < |rows| && i != k ensures key(rows[i]) != key(rows[k]) {
      if i < k { assert key(rows[i]) != key(rows[k]); } else { assert key(rows[k]) != key(rows[i]); }
    }
  }

  predicate HasKey<T, K(==)>(rows: seq<T>, key: T -> K, k: K) {
    exists i :: 0 <= i < |rows| && key(rows[i]) == k
  }

  /** An INSERT into a table with a unique column: rejected (None) when a
      row already holds the new row's key, appended otherwise. */
  function InsertUnique<T, K(==)>(rows: seq<T>, row: T, key: T -> K): (r: Option<seq<T>>)
    ensures r.None? <==> HasKey(rows, key, key(row))
    ensures r.Some? ==> r.value == rows + [row]
  {
    if exists i :: 0 <= i < |rows| && key(rows[i]) == key(row) then None else Some(rows + [row])
  }

  /** The unique constraint holds after every accepted insert. */
  lemma InsertUniqueKeepsKeysUnique<T, K>(rows: seq<T>, row: T, key: T -> K)
    requires UniqueKey(rows, key)
    ensures InsertUnique(rows, row, key).Some? ==> UniqueKey(InsertUnique(rows, row, key).value, key)
  {
    var r := InsertUnique(rows, row, key);
    if r.Some? {
      var s := r.value;
      forall i, j | 0 <= i < j < |s| ensures key(s[i]) != key(s[j]) {
        if j == |rows| {
          assert s[j] == row;
          assert s[i] == rows[i];
        } else {
          assert s[i] == rows[i] && s[j] == rows[j];
        }
      }
    }
  }

  /** Serial primary keys: ids grow along the table (which is in insertion
      order) and all lie below the next value the sequence will hand out. */
  predicate SerialIds<T>(rows: seq<T>, id: T -> int, next: int) {
    (forall i, j :: 0 <= i < j < |rows| ==> id(rows[i]) < id(rows[j]))
    && (forall i :: 0 <= i < |rows| ==> id(rows[i]) < next)
  }

  /** A row with a fresh id appended to a table keeps the ids serial. */
  lemma SerialIdsAppend<T>(rows: seq<T>, id: T -> int, next: int, row: T)
    requires SerialIds(rows, id, next) && id(row) == next
    ensures SerialIds(rows + [row], id, next + 1)
  {
    var s := rows + [row];
    assert forall i :: 0 <= i < |rows| ==> s[i] == rows[i];
  }

  /** Deleting rows keeps the ids serial. */
  lemma {:induction false} SerialIdsFilter<T>(rows: seq<T>, id: T -> int, next: int, keep: T -> bool)
    requires SerialIds(rows, id, next)
    ensures SerialIds(Filter(rows, keep), id, next)
  {
    if rows != [] {
      SerialIdsFilter(rows[1..], id, next, keep);
      var rest := Filter(rows[1..], keep);
      var r := Filter(rows, keep);
      if keep(rows[0]) {
        assert r == [rows[0]] + rest;
        forall j | 0 <= j < |rest| ensures id(rows[0]) < id(rest[j]) {
          FilterMembership(rows[1..], keep, rest[j]);
        }
      }
    }
  }

  /** Updates that keep every id keep the ids serial. */
  lemma SerialIdsMap<T>(rows: seq<T>, id: T -> int, next: int, f: T -> T)
    requires SerialIds(rows, id, next)
    requires forall i :: 0 <= i < |rows| ==> id(f(rows[i])) == id(rows[i])
    ensures SerialIds(MapSeq(rows, f), id, next)
  {
  }

  /** Serial ids are unique. */
  lemma SerialIdsUnique<T>(rows: seq<T>, id: T -> int, next: int)
    requires SerialIds(rows, id, next)
    ensures UniqueKey(rows, id)
  {
  }

  // ---------------------------------------------------------------------
  // Inserts and column defaults
  // ---------------------------------------------------------------------

  /** The insertable columns of users; role may be omitted. */
  datatype InsertUser = InsertUser(
    email: string, password: string, role: Option<string>,
    name: Option<string>, phone: Option<string>, address: Option<string>, city: Option<string>)

  /** The insertable columns of books; published, stock, categoryId and isbn may be omitted. */
  datatype InsertBook = InsertBook(
    titleAr: string, titleEn: string, author: string, descriptionAr: string, descriptionEn: string,
    price: int, category: string, categoryId: Option<int>, image: string, language: string,
    published: Option<bool>, isbn: Option<string>, stock: Option<int>)

  /** The row stored for an inserted user: role defaults to "user", enabled to true. */
  function NewUser(id: int, u: InsertUser): (r: User)
    ensures r.id == id && r.email == u.email && r.password == u.password
    ensures r.role == (if u.role.Some? then u.role.value else "user")
    ensures r.enabled
  {
    User(id, u.email, u.password, u.role.GetOr("user"), u.name, u.phone, u.address, u.city, true)
  }

  /** The row stored for an inserted book: stock defaults to 0, published to true. */
  function NewBook(id: int, b: InsertBook): (r: Book)
    ensures r.id == id && r.price == b.price && r.titleAr == b.titleAr && r.author == b.author
    ensures r.stock == (if b.stock.Some? then b.stock.value else 0)
    ensures r.published == (b.published.None? || b.published.value)
  {
    Book(id, b.titleAr, b.titleEn, b.author, b.descriptionAr, b.descriptionEn, b.price, b.category,
         b.categoryId, b.image, b.language, b.published.GetOr(true), b.isbn, b.stock.GetOr(0))
  }

  /** The row stored for a new review: it is approved from the start. */
  function NewReview(id: int, bookId: int, userId: Option<int>, userName: string, rating: int, comment: Option<string>): (r: Review)
    ensures r.id == id && r.bookId == bookId && r.rating == rating && r.approved
  {
    Review(id, bookId, userId, userName, rating, comment, true)
  }

  /** The status every order is created with. */
  const PendingStatus := "pending"
  const CancelledStatus := "cancelled"

  // ---------------------------------------------------------------------
  // zod validators. Each collects the paths of the fields it rejects, in
  // field order, as zod does; the input is accepted when there are none.
  // String lengths are JavaScript lengths, in UTF-16 code units.
  // ---------------------------------------------------------------------

  function TooShort(field: string, value: string, min: nat): seq<string> {
    if JsLength(value) < min then [field] else []
  }

  datatype OrderItemInput = OrderItemInput(bookId: int, quantity: int)

  datatype OrderInput = OrderInput(
    customerName: string, phone: string, address: string, city: string,
    wilayaCode: Option<int>, wilayaName: Option<string>, baladiya: Option<string>, notes: Option<string>,
    items: seq<OrderItemInput>)

  /** The items whose quantity is below 1, as "items.<index>.quantity" paths. */
  function QuantityIssues(items: seq<OrderItemInput>, from: nat): seq<string>
    decreases |items|
  {
    if items == [] then []
    else (if items[0].quantity < 1 then ["items." + IntToString(from) + ".quantity"] else [])
         + QuantityIssues(items[1..], from + 1)
  }

  /** insertOrderSchema. */
  function OrderIssues(o: OrderInput): seq<string> {
    TooShort("customerName", o.customerName, 2)
    + TooShort("phone", o.phone, 8)
    + TooShort("address", o.address, 5)
    + TooShort("city", o.city, 2)
    + (if |o.items| < 1 then ["items"] else [])
    + QuantityIssues(o.items, 0)
  }

  lemma {:induction false} QuantityIssuesEmpty(items: seq<OrderItemInput>, from: nat)
    ensures QuantityIssues(items, from) == [] <==> forall i :: 0 <= i < |items| ==> items[i].quantity >= 1
  {
    if items != [] {
      QuantityIssuesEmpty(items[1..], from + 1);
      assert forall i :: 1 <= i < |items| ==> items[i] == items[1..][i - 1];
    }
  }

  /** insertOrderSchema accepts exactly the orders with a name of at least 2
      UTF-16 code units, a phone of at least 8, an address of at least 5, a city of
      at least 2, and at least one item, every item's quantity being at least 1. */
  lemma OrderSchemaAccepts(o: OrderInput)
    ensures OrderIssues(o) == [] <==>
      JsLength(o.customerName) >= 2 && JsLength(o.phone) >= 8 && JsLength(o.address) >= 5 && JsLength(o.city) >= 2
      && |o.items| >= 1 && forall i :: 0 <= i < |o.items| ==> o.items[i].quantity >= 1
  {
    QuantityIssuesEmpty(o.items, 0);
  }

  /** A name made of one character beyond the Basic Multilingual Plane (an
      emoji) has length 2 in JavaScript, so it meets the minimum of 2. */
  lemma OneEmojiNameMeetsMinimum(o: OrderInput)
    requires o.customerName == "\U{1F600}"
    ensures TooShort("customerName", o.customerName, 2) == []
  {
    assert JsLength(o.customerName) == CodeUnits('\U{1F600}') + JsLength([]) by {
      assert o.customerName[1..] == [];
    }
  }

  datatype ReviewInput = ReviewInput(bookId: int, rating: int, comment: Option<string>)

  /** insertReviewSchema. */
  function ReviewIssues(r: ReviewInput): seq<string> {
    if r.rating < 1 || r.rating > 5 then ["rating"] else []
  }

  /** insertReviewSchema accepts exactly the ratings from 1 to 5. */
  lemma ReviewSchemaAccepts(r: ReviewInput)
    ensures ReviewIssues(r) == [] <==> 1 <= r.rating <= 5
  {
  }

  datatype RegisterInput = RegisterInput(email: string, password: string, name: string, phone: Option<string>)

  /** registerUserSchema; the e-mail format test of zod is the parameter `isEmail`. */
  function RegisterIssues(r: RegisterInput, isEmail: string -> bool): seq<string> {
    (if isEmail(r.email) then [] else ["email"])
    + TooShort("password", r.password, 6)
    + TooShort("name", r.name, 2)
  }

  /** registerUserSchema accepts exactly a well-formed e-mail with a password
      of at least 6 UTF-16 code units and a name of at least 2; the phone is free. */
  lemma RegisterSchemaAccepts(r: RegisterInput, isEmail: string -> bool)
    ensures RegisterIssues(r, isEmail) == [] <==> isEmail(r.email) && JsLength(r.password) >= 6 && JsLength(r.name) >= 2
    ensures forall p :: RegisterIssues(r.(phone := p), isEmail) == RegisterIssues(r, isEmail)
  {
  }

  /** A request body for registerUserSchema. */
  datatype RegisterBody = RegisterBody(email: Field<string>, password: Field<string>, name: Field<string>, phone: Field<string>)

  /** registerUserSchema.parse: the input, or None when zod rejects the body. */
  function ParseRegister(b: RegisterBody, isEmail: string -> bool): (r: Option<RegisterInput>)
    ensures r.Some? ==> b.email.Given? && b.password.Given? && r.value.email == b.email.value && r.value.password == b.password.value
    ensures r.Some? ==> JsLength(r.value.password) >= 6 && JsLength(r.value.name) >= 2 && isEmail(r.value.email)
    ensures r.None? <==> !Required(b.email) || !Required(b.password) || !Required(b.name) || !OptionalOk(b.phone)
                         || RegisterIssues(RegisterInput(b.email.value, b.password.value, b.name.value, None), isEmail) != []
  {
    if !Required(b.email) || !Required(b.password) || !Required(b.name) || !OptionalOk(b.phone) then None
    else
      var input := RegisterInput(b.email.value, b.password.value, b.name.value, FieldOption(b.phone));
      RegisterSchemaAccepts(input, isEmail);
      if RegisterIssues(input, isEmail) == [] then Some(input) else None
  }

  /** A JSON body field as zod sees it: missing, of the expected type, or not. */
  datatype Field<T> = Missing | Given(value: T) | WrongType

  /** A request body for insertUserSchema (email, password, role, name, phone,
      address, city); the last four are nullable columns. */
  datatype UserBody = UserBody(
    email: Field<string>, password: Field<string>, role: Field<string>,
    name: Field<Option<string>>, phone: Field<Option<string>>,
    address: Field<Option<string>>, city: Field<Option<string>>)

  predicate Required<T>(f: Field<T>) { f.Given? }
  predicate OptionalOk<T>(f: Field<T>) { !f.WrongType? }

  function OptionalValue<T>(f: Field<Option<T>>): Option<T> {
    if f.Given? then f.value else None
  }

  /** insertUserSchema: the parsed insert, or None when zod rejects the body. */
  function ParseInsertUser(b: UserBody): (r: Option<InsertUser>)
    ensures r.Some? <==> Required(b.email) && Required(b.password) && OptionalOk(b.role)
                         && OptionalOk(b.name) && OptionalOk(b.phone) && OptionalOk(b.address) && OptionalOk(b.city)
    ensures r.Some? ==> r.value.email == b.email.value && r.value.password == b.password.value
    ensures r.Some? ==> r.value.role == (if b.role.Given? then Some(b.role.value) else None)
  {
    if Required(b.email) && Required(b.password) && OptionalOk(b.role)
       && OptionalOk(b.name) && OptionalOk(b.phone) && OptionalOk(b.address) && OptionalOk(b.city)
    then Some(InsertUser(b.email.value, b.password.value,
                         if b.role.Given? then Some(b.role.value) else None,
                         OptionalValue(b.name), OptionalValue(b.phone), OptionalValue(b.address), OptionalValue(b.city)))
    else None
  }

  /** A request body for insertBookSchema. categoryId and isbn are nullable. */
  datatype BookBody = BookBody(
    titleAr: Field<string>, titleEn: Field<string>, author: Field<string>,
    descriptionAr: Field<string>, descriptionEn: Field<string>, price: Field<int>,
    category: Field<string>, categoryId: Field<Option<int>>, image: Field<string>, language: Field<string>,
    published: Field<bool>, isbn: Field<Option<string>>, stock: Field<int>)

  predicate BookRequiredGiven(b: BookBody) {
    Required(b.titleAr) && Required(b.titleEn) && Required(b.author) && Required(b.descriptionAr)
    && Required(b.descriptionEn) && Required(b.price) && Required(b.category) && Required(b.image)
    && Required(b.language)
  }

  /** No field of the body has the wrong type. */
  predicate BookFieldsWellTyped(b: BookBody) {
    OptionalOk(b.titleAr) && OptionalOk(b.titleEn) && OptionalOk(b.author) && OptionalOk(b.descriptionAr)
    && OptionalOk(b.descriptionEn) && OptionalOk(b.price) && OptionalOk(b.category) && OptionalOk(b.categoryId)
    && OptionalOk(b.image) && OptionalOk(b.language) && OptionalOk(b.published) && OptionalOk(b.isbn)
    && OptionalOk(b.stock)
  }

  function FieldOption<T>(f: Field<T>): Option<T> {
    if f.Given? then Some(f.value) else None
  }

  /** insertBookSchema (api.books.create.input). */
  function ParseInsertBook(b: BookBody): (r: Option<InsertBook>)
    ensures r.Some? <==> BookRequiredGiven(b) && BookFieldsWellTyped(b)
    ensures r.Some? ==> r.value.price == b.price.value && r.value.titleAr == b.titleAr.value
  {
    if BookRequiredGiven(b) && BookFieldsWellTyped(b) then
      Some(InsertBook(b.titleAr.value, b.titleEn.value, b.author.value, b.descriptionAr.value,
                      b.descriptionEn.value, b.price.value, b.category.value, OptionalValue(b.categoryId),
                      b.image.value, b.language.value, FieldOption(b.published), OptionalValue(b.isbn),
                      FieldOption(b.stock)))
    else None
  }

  /** insertBookSchema.partial() (api.books.update.input): each column may
      be left out; a nullable column may be set to null (Some(None)). */
  datatype BookUpdate = BookUpdate(
    titleAr: Option<string>, titleEn: Option<string>, author: Option<string>,
    descriptionAr: Option<string>, descriptionEn: Option<string>, price: Option<int>,
    category: Option<string>, categoryId: Option<Option<int>>, image: Option<string>, language: Option<string>,
    published: Option<bool>, isbn: Option<Option<string>>, stock: Option<int>)

  function ParseBookUpdate(b: BookBody): (r: Option<BookUpdate>)
    ensures r.Some? <==> BookFieldsWellTyped(b)
  {
    if BookFieldsWellTyped(b) then
      Some(BookUpdate(FieldOption(b.titleAr), FieldOption(b.titleEn), FieldOption(b.author),
                      FieldOption(b.descriptionAr), FieldOption(b.descriptionEn), FieldOption(b.price),
                      FieldOption(b.category), FieldOption(b.categoryId), FieldOption(b.image),
                      FieldOption(b.language), FieldOption(b.published), FieldOption(b.isbn),
                      FieldOption(b.stock)))
    else None
  }

  /** Every body the create schema accepts, the update schema accepts too. */
  lemma CreateBodyIsUpdateBody(b: BookBody)
    requires ParseInsertBook(b).Some?
    ensures ParseBookUpdate(b).Some?
  {
  }

  /** UPDATE books SET <given columns>: the columns left out keep their value. */
  function ApplyBookUpdate(b: Book, u: BookUpdate): (r: Book)
    ensures r.id == b.id
    ensures r.price == (if u.price.Some? then u.price.value else b.price)
    ensures r.stock == (if u.stock.Some? then u.stock.value else b.stock)
  {
    Book(b.id, u.titleAr.GetOr(b.titleAr), u.titleEn.GetOr(b.titleEn), u.author.GetOr(b.author),
         u.descriptionAr.GetOr(b.descriptionAr), u.descriptionEn.GetOr(b.descriptionEn),
         u.price.GetOr(b.price), u.category.GetOr(b.category), u.categoryId.GetOr(b.categoryId),
         u.image.GetOr(b.image), u.language.GetOr(b.language), u.published.GetOr(b.published),
         u.isbn.GetOr(b.isbn), u.stock.GetOr(b.stock))
  }

  /** The update sets no column at all: drizzle then refuses to build the
      UPDATE and throws "No values to set". */
  predicate GivesNoColumn(u: BookUpdate) {
    u.titleAr.None? && u.titleEn.None? && u.author.None? && u.descriptionAr.None? && u.descriptionEn.None?
    && u.price.None? && u.category.None? && u.categoryId.None? && u.image.None? && u.language.None?
    && u.published.None? && u.isbn.None? && u.stock.None?
  }

  /** The partial schema accepts a body with no known field, `{}`, and the
      update it yields sets no column. */
  lemma EmptyBodyGivesNoColumn(b: BookBody)
    requires b == BookBody(Missing, Missing, Missing, Missing, Missing, Missing, Missing, Missing, Missing, Missing, Missing, Missing, Missing)
    ensures ParseBookUpdate(b).Some? && GivesNoColumn(ParseBookUpdate(b).value)
  {
  }
}
