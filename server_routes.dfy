/** The request handlers of server/routes.ts for registration and books, and
    seedDatabase. A handler takes the session, the storage and the parsed
    request, writes through the storage and answers a status with a body.
    hashPassword is the parameter `hash`; whether passport's req.login
    succeeds is the parameter `loginOk`. */
module ServerRoutes {
  import opened Common
  import opened Schema
  import opened Storage

  /** The passport session: nobody, or the logged-in user's row. */
  datatype Session = Anonymous | LoggedIn(user: User)

  /** req.isAuthenticated() && req.user.role === "admin". */
  predicate IsAdmin(s: Session) {
    s.LoggedIn? && s.user.role == "admin"
  }

  datatype ReplyBody =
    | Message(text: string)
    | ZodErrorMessage  // the first zod issue's message, whose wording is zod's
    | UserJson(user: User)
    | BookJson(book: Book)
    | UpdatedJson(updated: Option<Book>)  // None: res.json(undefined), an empty body
    | NoContent

  datatype Reply = Reply(status: int, body: ReplyBody)

  const Unauthorized := Reply(401, Message("Unauthorized"))

  // ---------------------------------------------------------------------
  // POST /api/register, as written
  // ---------------------------------------------------------------------

  /** The row the register route stores: the parsed body, with the password
      replaced by its hash. Every other field, the role included, is the
      client's. */
  function RegistrationRow(id: int, input: InsertUser, hash: string -> string): (r: User)
    ensures r.email == input.email && r.password == hash(input.password)
    ensures r.role == input.role.GetOr("user")
  {
    NewUser(id, input.(password := hash(input.password)))
  }

  /** POST /api/register: the body is parsed with insertUserSchema; a taken
      e-mail answers 400; otherwise the user is stored with the hashed
      password, logged in, and returned with 201 (500 if the login fails).
      `session` is the login this request makes; Anonymous means it made
      none, and any login the client already had is not modelled. */
  method Register(store: DatabaseStorage, body: UserBody, hash: string -> string, loginOk: bool)
    returns (reply: Reply, session: Session)
    requires store.Valid()
    modifies store`users, store`nextUserId
    ensures store.Valid()
    ensures ParseInsertUser(body).None? ==>
      reply == Reply(400, ZodErrorMessage) && store.users == old(store.users) && session == Anonymous
    ensures ParseInsertUser(body).Some? && old(HasKey(store.users, UserEmail, body.email.value)) ==>
      reply == Reply(400, Message("Username already exists")) && store.users == old(store.users) && session == Anonymous
    ensures ParseInsertUser(body).Some? && !old(HasKey(store.users, UserEmail, body.email.value)) ==>
      var row := RegistrationRow(old(store.nextUserId), ParseInsertUser(body).value, hash);
      store.users == old(store.users) + [row]
      && (loginOk ==> reply == Reply(201, UserJson(row)) && session == LoggedIn(row))
      && (!loginOk ==> reply == Reply(500, Message("Login failed")) && session == Anonymous)
    ensures store.nextUserId == old(store.nextUserId)
      + (if ParseInsertUser(body).Some? && !old(HasKey(store.users, UserEmail, body.email.value)) then 1 else 0)
  {
    var parsed := ParseInsertUser(body);
    if parsed.None? {
      return Reply(400, ZodErrorMessage), Anonymous;
    }
    var input := parsed.value;
    var existing := FindUserByEmail(store.users, input.email);
    if existing.Some? {
      return Reply(400, Message("Username already exists")), Anonymous;
    }
    var created := store.CreateUser(input.(password := hash(input.password)));
    if created.None? {
      return Reply(500, Message("Internal server error")), Anonymous;
    }
    if loginOk {
      reply, session := Reply(201, UserJson(created.value)), LoggedIn(created.value);
    } else {
      reply, session := Reply(500, Message("Login failed")), Anonymous;
    }
  }

  /** Anyone can register as an administrator: a body carrying role "admin"
      is accepted, stored with that role, and the new session passes the
      admin check of the book routes. */
  lemma SelfRegisteredAdmin(id: int, hash: string -> string)
    ensures var body := UserBody(Given("mallory@example.com"), Given("x"), Given("admin"), Missing, Missing, Missing, Missing);
      ParseInsertUser(body).Some? && IsAdmin(LoggedIn(RegistrationRow(id, ParseInsertUser(body).value, hash)))
  {
  }

  // ---------------------------------------------------------------------
  // Registration with registerUserSchema
  // ---------------------------------------------------------------------

  /** The row a sign-up stores: the e-mail, the hashed password, the name and
      the phone, with every other column at its default. */
  function SignUpRow(id: int, input: RegisterInput, hash: string -> string): (r: User)
    ensures r.email == input.email && r.password == hash(input.password) && r.name == Some(input.name)
  {
    NewUser(id, InsertUser(input.email, hash(input.password), None, Some(input.name), input.phone, None, None))
  }

  /** A signed-up user is never an administrator. */
  lemma SignUpNeverAdmin(id: int, input: RegisterInput, hash: string -> string)
    ensures SignUpRow(id, input, hash).role == "user"
    ensures !IsAdmin(LoggedIn(SignUpRow(id, input, hash)))
  {
  }

  /** The register route validating with registerUserSchema (a well-formed
      e-mail, a password of at least 6 UTF-16 code units, a name of at least 2) and
      never taking a role from the client. As for Register, `session` is the
      login this request makes, so "never an administrator" is about it. */
  method SignUp(store: DatabaseStorage, body: RegisterBody, isEmail: string -> bool, hash: string -> string, loginOk: bool)
    returns (reply: Reply, session: Session)
    requires store.Valid()
    modifies store`users, store`nextUserId
    ensures store.Valid()
    ensures !IsAdmin(session)
    ensures ParseRegister(body, isEmail).None? ==>
      reply == Reply(400, ZodErrorMessage) && store.users == old(store.users)
    ensures ParseRegister(body, isEmail).Some? && old(HasKey(store.users, UserEmail, body.email.value)) ==>
      reply == Reply(400, Message("Username already exists")) && store.users == old(store.users)
    ensures ParseRegister(body, isEmail).Some? && !old(HasKey(store.users, UserEmail, body.email.value)) ==>
      var row := SignUpRow(old(store.nextUserId), ParseRegister(body, isEmail).value, hash);
      store.users == old(store.users) + [row]
      && (loginOk ==> reply == Reply(201, UserJson(row)) && session == LoggedIn(row))
      && (!loginOk ==> reply == Reply(500, Message("Login failed")))
    ensures store.nextUserId == old(store.nextUserId)
      + (if ParseRegister(body, isEmail).Some? && !old(HasKey(store.users, UserEmail, body.email.value)) then 1 else 0)
  {
    session := Anonymous;
    var parsed := ParseRegister(body, isEmail);
    if parsed.None? {
      return Reply(400, ZodErrorMessage), Anonymous;
    }
    var input := parsed.value;
    var existing := FindUserByEmail(store.users, input.email);
    if existing.Some? {
      return Reply(400, Message("Username already exists")), Anonymous;
    }
    var created := store.CreateUser(InsertUser(input.email, hash(input.password), None, Some(input.name), input.phone, None, None));
    if created.None? {
      return Reply(500, Message("Internal server error")), Anonymous;
    }
    SignUpNeverAdmin(created.value.id, input, hash);
    if loginOk {
      reply, session := Reply(201, UserJson(created.value)), LoggedIn(created.value);
    } else {
      reply := Reply(500, Message("Login failed"));
    }
  }

  // ---------------------------------------------------------------------
  // Books
  // ---------------------------------------------------------------------

  /** GET /api/books/:id. */
  function GetBookReply(books: seq<Book>, id: int): (r: Reply)
    ensures r.status == 404 <==> forall i :: 0 <= i < |books| ==> books[i].id != id
    ensures r.status != 404 ==> r.status == 200 && r.body.BookJson? && r.body.book in books && r.body.book.id == id
    ensures r.status == 404 ==> r.body == Message("Book not found")
  {
    match FindBook(books, id)
    case None => Reply(404, Message("Book not found"))
    case Some(b) => Reply(200, BookJson(b))
  }

  /** With serial ids the book returned is the one row with that id. */
  lemma GetBookReturnsTheBook(books: seq<Book>, next: int, k: nat)
    requires SerialIds(books, BookId, next) && k < |books|
    ensures GetBookReply(books, books[k].id) == Reply(200, BookJson(books[k]))
  {
    SerialIdsUnique(books, BookId, next);
    KeyElsewhere(books, BookId, k);
  }

  /** POST /api/books: admins only; the body must satisfy insertBookSchema. */
  method CreateBookRoute(store: DatabaseStorage, session: Session, body: BookBody) returns (reply: Reply)
    requires store.Valid()
    modifies store`books, store`nextBookId
    ensures store.Valid()
    ensures !IsAdmin(session) ==> reply == Unauthorized && store.books == old(store.books)
    ensures IsAdmin(session) && ParseInsertBook(body).None? ==>
      reply == Reply(400, Message("Validation error")) && store.books == old(store.books)
    ensures IsAdmin(session) && ParseInsertBook(body).Some? ==>
      var book := NewBook(old(store.nextBookId), ParseInsertBook(body).value);
      reply == Reply(201, BookJson(book)) && store.books == old(store.books) + [book]
    ensures store.nextBookId == old(store.nextBookId) + (if IsAdmin(session) && ParseInsertBook(body).Some? then 1 else 0)
  {
    if !IsAdmin(session) {
      return Unauthorized;
    }
    var input := ParseInsertBook(body);
    if input.None? {
      return Reply(400, Message("Validation error"));
    }
    var book := store.CreateBook(input.value);
    reply := Reply(201, BookJson(book));
  }

  /** PUT /api/books/:id: admins only; a parse failure, or an update that
      sets no column (updateBook throws), answers 400. An id no book has
      still answers 200, with an empty body. */
  method UpdateBookRoute(store: DatabaseStorage, session: Session, id: int, body: BookBody) returns (reply: Reply)
    requires store.Valid()
    modifies store`books
    ensures store.Valid()
    ensures !IsAdmin(session) ==> reply == Unauthorized && store.books == old(store.books)
    ensures IsAdmin(session) && ParseBookUpdate(body).None? ==>
      reply == Reply(400, Message("Update failed")) && store.books == old(store.books)
    ensures IsAdmin(session) && ParseBookUpdate(body).Some? && GivesNoColumn(ParseBookUpdate(body).value) ==>
      reply == Reply(400, Message("Update failed")) && store.books == old(store.books)
    ensures IsAdmin(session) && ParseBookUpdate(body).Some? && !GivesNoColumn(ParseBookUpdate(body).value) ==>
      reply.status == 200
      && store.books == MapSeq(old(store.books), (b: Book) => if b.id == id then ApplyBookUpdate(b, ParseBookUpdate(body).value) else b)
      && (reply.body.UpdatedJson? && (reply.body.updated.None? <==> old(FindBook(store.books, id)).None?))
      && (reply.body.updated.Some? ==>
            reply.body.updated.value == ApplyBookUpdate(old(FindBook(store.books, id)).value, ParseBookUpdate(body).value))
  {
    if !IsAdmin(session) {
      return Unauthorized;
    }
    var input := ParseBookUpdate(body);
    if input.None? {
      return Reply(400, Message("Update failed"));
    }
    var outcome := store.UpdateBook(id, input.value);
    if outcome.NoValuesToSet? {
      return Reply(400, Message("Update failed"));
    }
    reply := Reply(200, UpdatedJson(outcome.row));
  }

  /** DELETE /api/books/:id: admins only; 204 whether or not the book existed. */
  method DeleteBookRoute(store: DatabaseStorage, session: Session, id: int) returns (reply: Reply)
    requires store.Valid()
    modifies store`books
    ensures store.Valid()
    ensures !IsAdmin(session) ==> reply == Unauthorized && store.books == old(store.books)
    ensures IsAdmin(session) ==>
      reply == Reply(204, NoContent) && forall b :: b in store.books <==> b in old(store.books) && b.id != id
    ensures IsAdmin(session) ==> store.books == Filter(old(store.books), (b: Book) => b.id != id)
  {
    if !IsAdmin(session) {
      return Unauthorized;
    }
    store.DeleteBook(id);
    reply := Reply(204, NoContent);
  }

  // ---------------------------------------------------------------------
  // seedDatabase
  // ---------------------------------------------------------------------

  const AdminEmail := "admin@daralibenzid.com"
  const DemoEmail := "user@example.com"

  function AdminSeed(hash: string -> string): InsertUser {
    InsertUser(AdminEmail, hash("admin123"), Some("admin"), None, None, None, None)
  }

  function DemoSeed(hash: string -> string): InsertUser {
    InsertUser(DemoEmail, hash("user123"), Some("user"), None, None, None, None)
  }

  /** The three books of the sample catalog, in insertion order. */
  method SampleCatalog() returns (catalog: seq<InsertBook>)
    ensures |catalog| == 3
    ensures catalog[0].titleEn == "The Muqaddimah" && catalog[0].category == "History" && catalog[0].price == 2500
    ensures catalog[1].titleEn == "One Thousand and One Nights" && catalog[1].category == "Literature" && catalog[1].price == 3000
    ensures catalog[2].titleEn == "Les Misérables" && catalog[2].category == "Fiction" && catalog[2].price == 1800
    ensures forall i :: 0 <= i < 3 ==>
      catalog[i].stock.None? && catalog[i].published == Some(true) && catalog[i].categoryId.None? && catalog[i].isbn.Some?
  {
    var m := Muqaddimah();
    var n := Nights();
    var h := Miserables();
    catalog := [m, n, h];
  }

  method Muqaddimah() returns (b: InsertBook)
    ensures b.titleEn == "The Muqaddimah" && b.author == "Ibn Khaldun" && b.category == "History" && b.price == 2500
    ensures b.language == "both" && b.stock.None? && b.published == Some(true) && b.categoryId.None?
    ensures b.isbn == Some("978-0691174954")
  {
    var titleAr, descriptionAr, descriptionEn, image := MuqaddimahTexts();
    b := InsertBook(titleAr, "The Muqaddimah", "Ibn Khaldun", descriptionAr, descriptionEn,
                    2500, "History", None, image, "both", Some(true), Some("978-0691174954"), None);
  }

  /** The Arabic title, the two descriptions and the cover image of the first sample book. */
  method MuqaddimahTexts() returns (titleAr: string, descriptionAr: string, descriptionEn: string, image: string)
  {
    titleAr := "مقدمة ابن خلدون";
    descriptionAr := "كتاب العبر وديوان المبتدأ والخبر في أيام العرب والعجم والبربر ومن عاصرهم من ذوي السلطان الأكبر.";
    descriptionEn := "The Muqaddimah, often translated as 'Introduction' or 'Prolegomenon', is the most important Islamic history of the premodern world.";
    image := "https://images.unsplash.com/photo-1544947950-fa07a98d237f?auto=format&fit=crop&q=80&w=800";
  }

  method Nights() returns (b: InsertBook)
    ensures b.titleEn == "One Thousand and One Nights" && b.author == "Unknown" && b.category == "Literature" && b.price == 3000
    ensures b.language == "ar" && b.stock.None? && b.published == Some(true) && b.categoryId.None?
    ensures b.isbn == Some("978-1234567890")
  {
    var titleAr, descriptionAr, descriptionEn, image := NightsTexts();
    b := InsertBook(titleAr, "One Thousand and One Nights", "Unknown", descriptionAr, descriptionEn,
                    3000, "Literature", None, image, "ar", Some(true), Some("978-1234567890"), None);
  }

  /** The Arabic title, the two descriptions and the cover image of the second sample book. */
  method NightsTexts() returns (titleAr: string, descriptionAr: string, descriptionEn: string, image: string)
  {
    titleAr := "ألف ليلة وليلة";
    descriptionAr := "مجموعة قصصية تراثية من الشرق الأوسط.";
    descriptionEn := "A collection of Middle Eastern folk tales compiled in Arabic during the Islamic Golden Age.";
    image := "https://images.unsplash.com/photo-1512820790803-83ca734da794?auto=format&fit=crop&q=80&w=800";
  }

  method Miserables() returns (b: InsertBook)
    ensures b.titleEn == "Les Misérables" && b.author == "Victor Hugo" && b.category == "Fiction" && b.price == 1800
    ensures b.language == "both" && b.stock.None? && b.published == Some(true) && b.categoryId.None?
    ensures b.isbn == Some("978-0451419439")
  {
    var titleAr, descriptionAr, descriptionEn, image := MiserablesTexts();
    b := InsertBook(titleAr, "Les Misérables", "Victor Hugo", descriptionAr, descriptionEn,
                    1800, "Fiction", None, image, "both", Some(true), Some("978-0451419439"), None);
  }

  /** The Arabic title, the two descriptions and the cover image of the third sample book. */
  method MiserablesTexts() returns (titleAr: string, descriptionAr: string, descriptionEn: string, image: string)
  {
    titleAr := "البؤساء";
    descriptionAr := "رواية فرنسية تاريخية من تأليف فيكتور هوجو.";
    descriptionEn := "A French historical novel by Victor Hugo, considered one of the greatest novels of the 19th century.";
    image := "https://images.unsplash.com/photo-1532012197267-da84d127e765?auto=format&fit=crop&q=80&w=800";
  }

  /** The rows of the sample catalog as stored: History, Literature and
      Fiction, each with the default stock of 0. */
  predicate IsSampleCatalog(b: seq<Book>) {
    |b| == 3
    && b[0].category == "History" && b[1].category == "Literature" && b[2].category == "Fiction"
    && b[0].titleEn == "The Muqaddimah" && b[0].price == 2500
    && b[1].titleEn == "One Thousand and One Nights" && b[1].price == 3000
    && b[2].titleEn == "Les Misérables" && b[2].price == 1800
    && forall i :: 0 <= i < 3 ==> b[i].stock == 0 && b[i].published
  }

  /** How seedDatabase ends. SeedRejected: a createUser call rejected; the
      rejection is not caught, so registerRoutes rejects and the server
      (server/index.ts) never starts listening. */
  datatype SeedOutcome = AlreadySeeded | Seeded(books: seq<Book>) | SeedRejected

  /** seedDatabase: nothing when the admin account exists; otherwise the admin
      and the demo user, then the three sample books. When the demo e-mail is
      already taken, its insert rejects after the admin row is stored, and
      startup fails. */
  method SeedDatabase(store: DatabaseStorage, hash: string -> string) returns (r: SeedOutcome)
    requires store.Valid()
    modifies store`users, store`nextUserId, store`books, store`nextBookId
    ensures store.Valid()
    ensures HasKey(store.users, UserEmail, AdminEmail)
    ensures old(HasKey(store.users, UserEmail, AdminEmail)) ==>
      r == AlreadySeeded && store.users == old(store.users) && store.nextUserId == old(store.nextUserId)
      && store.books == old(store.books) && store.nextBookId == old(store.nextBookId)
    ensures !old(HasKey(store.users, UserEmail, AdminEmail)) && !old(HasKey(store.users, UserEmail, DemoEmail)) ==>
      r.Seeded?
      && store.users == old(store.users) + [NewUser(old(store.nextUserId), AdminSeed(hash)), NewUser(old(store.nextUserId) + 1, DemoSeed(hash))]
      && store.books == old(store.books) + r.books && IsSampleCatalog(r.books)
      && (forall i :: 0 <= i < |r.books| ==> r.books[i].id == old(store.nextBookId) + i)
      && store.nextUserId == old(store.nextUserId) + 2 && store.nextBookId == old(store.nextBookId) + 3
    ensures !old(HasKey(store.users, UserEmail, AdminEmail)) && old(HasKey(store.users, UserEmail, DemoEmail)) ==>
      r == SeedRejected
      && store.users == old(store.users) + [NewUser(old(store.nextUserId), AdminSeed(hash))]
      && store.nextUserId == old(store.nextUserId) + 2
      && store.books == old(store.books) && store.nextBookId == old(store.nextBookId)
  {
    var existing := FindUserByEmail(store.users, AdminEmail);
    if existing.Some? {
      return AlreadySeeded;
    }
    var demoCreated := SeedUsers(store, hash);
    if !demoCreated {
      return SeedRejected;
    }
    var seeded := SeedBooks(store);
    r := Seeded(seeded);
  }

  /** The admin account, then the demo account. `demoCreated` is false when
      the demo insert rejected because its e-mail was taken. Each insert
      draws a serial id, stored or not. */
  method SeedUsers(store: DatabaseStorage, hash: string -> string) returns (demoCreated: bool)
    requires store.Valid()
    requires !HasKey(store.users, UserEmail, AdminEmail)
    modifies store`users, store`nextUserId
    ensures store.Valid()
    ensures HasKey(store.users, UserEmail, AdminEmail)
    ensures demoCreated <==> !old(HasKey(store.users, UserEmail, DemoEmail))
    ensures demoCreated ==>
      store.users == old(store.users) + [NewUser(old(store.nextUserId), AdminSeed(hash)), NewUser(old(store.nextUserId) + 1, DemoSeed(hash))]
    ensures !demoCreated ==> store.users == old(store.users) + [NewUser(old(store.nextUserId), AdminSeed(hash))]
    ensures store.nextUserId == old(store.nextUserId) + 2
  {
    ghost var before := store.users;
    var admin := store.CreateUser(AdminSeed(hash));
    ghost var withAdmin := store.users;
    assert withAdmin == before + [admin.value];
    assert UserEmail(withAdmin[|withAdmin| - 1]) == AdminEmail;
    DemoStillFree(before, admin.value);
    var demo := store.CreateUser(DemoSeed(hash));
    demoCreated := demo.Some?;
    if demoCreated {
      assert store.users == withAdmin + [demo.value];
      assert store.users == before + [admin.value, demo.value];
      assert UserEmail(store.users[|store.users| - 2]) == AdminEmail;
    } else {
      assert store.users == withAdmin;
      assert UserEmail(store.users[|store.users| - 1]) == AdminEmail;
    }
  }

  /** The three sample books, created in order. */
  method SeedBooks(store: DatabaseStorage) returns (seeded: seq<Book>)
    requires store.Valid()
    modifies store`books, store`nextBookId
    ensures store.Valid()
    ensures store.books == old(store.books) + seeded
    ensures IsSampleCatalog(seeded)
    ensures forall i :: 0 <= i < |seeded| ==> seeded[i].id == old(store.nextBookId) + i
    ensures store.nextBookId == old(store.nextBookId) + 3
  {
    var catalog := SampleCatalog();
    var b0 := store.CreateBook(catalog[0]);
    var b1 := store.CreateBook(catalog[1]);
    var b2 := store.CreateBook(catalog[2]);
    seeded := [b0, b1, b2];
  }

  /** Adding the admin row does not change whether the demo e-mail is taken. */
  lemma DemoStillFree(users: seq<User>, admin: User)
    requires admin.email == AdminEmail
    ensures HasKey(users + [admin], UserEmail, DemoEmail) <==> HasKey(users, UserEmail, DemoEmail)
  {
    var after := users + [admin];
    if HasKey(after, UserEmail, DemoEmail) {
      var i :| 0 <= i < |after| && UserEmail(after[i]) == DemoEmail;
      assert i < |users| && UserEmail(users[i]) == DemoEmail;
    }
    if HasKey(users, UserEmail, DemoEmail) {
      var i :| 0 <= i < |users| && UserEmail(users[i]) == DemoEmail;
      assert UserEmail(after[i]) == DemoEmail;
    }
  }

  /** Seeding twice leaves the tables as seeding once does: the second run
      finds the admin and stops. */
  method SeedTwice(store: DatabaseStorage, hash: string -> string)
    returns (usersOnce: seq<User>, booksOnce: seq<Book>, second: SeedOutcome)
    requires store.Valid()
    modifies store`users, store`nextUserId, store`books, store`nextBookId
    ensures store.Valid()
    ensures second == AlreadySeeded
    ensures store.users == usersOnce && store.books == booksOnce
  {
    var _ := SeedDatabase(store, hash);
    usersOnce, booksOnce := store.users, store.books;
    second := SeedDatabase(store, hash);
  }

  /** On the sample catalog every book counts as low stock, since stock
      defaults to 0, and the category filter finds the one history book. */
  lemma SampleCatalogQueries(b: seq<Book>)
    requires IsSampleCatalog(b)
    ensures CountLowStockBooks(b) == 3
    ensures GetBooks(b, Some("History"), None) == [b[0]]
  {
    FilterKeepsAll(b, LowStock);
    var r := Reverse(b);
    assert r == [b[2], b[1], b[0]];
    var keep := BookFilter(Some("History"), None);
    assert !keep(b[2]) && !keep(b[1]) && keep(b[0]);
    assert Filter(r, keep) == Filter([b[1], b[0]], keep) by { assert r[1..] == [b[1], b[0]]; }
    assert Filter([b[1], b[0]], keep) == Filter([b[0]], keep) by { assert [b[1], b[0]][1..] == [b[0]]; }
    assert Filter([b[0]], keep) == [b[0]] by { assert [b[0]][1..] == []; }
  }
}
