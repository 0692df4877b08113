# Dar Ali Benzid bookstore: a verified model of the storefront's data logic

This project models the parts of the Dar Ali Benzid bookstore that decide what the
store stores and answers. Each part is listed below with its Dafny module.

- **The shopping cart** (`Cart`). It is the `items` state of the cart provider. Add,
  remove, update-quantity and clear change it, and `total` and `itemCount` are folds
  over it.
- **The storage layer** (`Storage`):
  - the catalog query with its category and search filters;
  - the low-stock count;
  - order creation, status change and deletion;
  - the revenue total;
  - page upsert;
  - review listing and the rating summaries.

  `DatabaseStorage` is a class over in-memory tables, and each table is a `seq` in
  insertion order.
- **The tables and validators** (`Schema`): the rows, the column defaults, the unique
  keys and serial ids, and the zod validators for orders, reviews, registration, users
  and books.
- **The API contract** (`SharedRoutes`): the route paths, and `buildUrl`, which fills
  `:name` placeholders.
- **The request helpers** (`QueryClient`): `apiUrl`, `throwIfResNotOk` and the
  outcome of the default query function.
- **The request handlers** (`ServerRoutes`): registration, book get, create, update and
  delete, and `seedDatabase`.

`Common` holds the sequence and string machinery the others share:
- filter, map, sum and reverse;
- `String.prototype.includes` and `String.prototype.replace` with its `$` replacement
  patterns;
- lower-casing, `Array.prototype.join` and `String(n)` for integers.

Modelling choices:
- **Money** is a whole number of dinars (DZD), as an `int`. In the source a `numeric`
  column reaches zod as a string (drizzle-zod maps `numeric` to `z.string()`), so a
  book body's price arrives as text. The model takes the parsed amount: `Given(n)` is a
  price string naming `n`, and `WrongType` covers a JSON number, which zod refuses
  with 400.
- **Average ratings** are exact `real` division.
- **Time order.** A `createdAt` column is the row's position in its table, so "newest
  first" reads a table back to front.
- **Page timestamps.** `updatedAt` of a page is the parameter `now`.
- **Missing fields.** A JSON field may be absent, of the right type or of the wrong
  type (`Field<T>`). A nullable column is an `Option`.
- **Required and optional order columns.** An order's `userId`, region fields and
  `shippingPrice` are `Option`s. Its `total`, and an item's `quantity` and `unitPrice`,
  are not.
- **Outside effects.** `hashPassword`, the e-mail format test of zod, passport's
  `req.login` outcome, the build mode, `VITE_API_BASE_URL` and the page's hostname are
  parameters.

## Model

| member | source | states |
|---|---|---|
| Cart.CartState.constructor | client/src/hooks/use-cart.tsx:26-34 | a new cart is empty and its drawer closed |
| Cart.CartState.AddToCart | client/src/hooks/use-cart.tsx:40-49 | items become the addToCart updater's result; the drawer opens; one entry per book is kept and itemCount rises by `quantity` |
| Cart.CartState.RemoveFromCart | client/src/hooks/use-cart.tsx:51-53 | items become the filter result; the book is no longer in the cart; one entry per book is kept |
| Cart.CartState.UpdateQuantity | client/src/hooks/use-cart.tsx:55-61 | a quantity ≤ 0 is exactly removeFromCart; a positive one is the map setting that quantity; one entry per book is kept |
| Cart.CartState.ClearCart | client/src/hooks/use-cart.tsx:63-66 | the cart is empty, with total and itemCount 0 |
| Cart.AddedTo | client/src/hooks/use-cart.tsx:41-47 | the addToCart updater: bump the held book's entries, else append `{book, quantity}`; specified by AddExistingBumpsQuantity, AddNewAppends and AddKeepsOneEntryPerBook |
| Cart.RemovedFrom | client/src/hooks/use-cart.tsx:52 | the removeFromCart filter; specified by RemoveDropsExactlyTheBook and RemoveIsDeleteAt |
| Cart.QuantitySet | client/src/hooks/use-cart.tsx:60 | the updateQuantity map; specified by SetQuantityKeepsShape |
| Cart.CartTotal | client/src/hooks/use-cart.tsx:65 | the `total` fold, price × quantity summed; its changes are stated by the Raises/Lowers lemmas |
| Cart.CartItemCount | client/src/hooks/use-cart.tsx:66 | the `itemCount` fold, quantities summed; its changes are stated by the Raises/Lowers lemmas |
| Cart.FirstFindsBook | client/src/hooks/use-cart.tsx:42 | `prev.find` finds an entry exactly when the book is in the cart |
| Cart.AddExistingBumpsQuantity | client/src/hooks/use-cart.tsx:42-45 | adding a book already in the cart keeps the length, order and books and adds `quantity` to that book's entries only |
| Cart.AddNewAppends | client/src/hooks/use-cart.tsx:46 | adding a book not in the cart appends exactly `{book, quantity}` at the end |
| Cart.AddKeepsOneEntryPerBook | client/src/hooks/use-cart.tsx:42-46 | addToCart keeps at most one entry per book id |
| Cart.RemoveDropsExactlyTheBook | client/src/hooks/use-cart.tsx:52 | removal keeps exactly the entries of other books and is a no-op for an absent book |
| Cart.RemoveIsDeleteAt | client/src/hooks/use-cart.tsx:52 | with one entry per book, removing the book at index k deletes index k and keeps the rest in order |
| Cart.RemoveKeepsOneEntryPerBook | client/src/hooks/use-cart.tsx:52 | removeFromCart keeps at most one entry per book id |
| Cart.SetQuantityKeepsShape | client/src/hooks/use-cart.tsx:60 | setting a quantity changes only that book's entries, keeps the length, is a no-op for an absent book and keeps one entry per book |
| Cart.EmptyCartTotals | client/src/hooks/use-cart.tsx:65-66 | an empty cart has total 0 and itemCount 0 (a corollary of ClearCart's ensures, stated on the fold functions alone) |
| Cart.AddExistingIsPointUpdate | client/src/hooks/use-cart.tsx:44 | with one entry per book, adding to the book at index k updates that index only |
| Cart.BumpTotals | client/src/hooks/use-cart.tsx:44-66 | raising one entry's quantity by q raises itemCount by q and the total by q times that entry's price |
| Cart.AddExistingRaisesTotals | client/src/hooks/use-cart.tsx:44-66 | adding to a held book raises itemCount by q and total by q times the price stored in its entry |
| Cart.LineTotalGrows | client/src/hooks/use-cart.tsx:65 | a line's price × quantity grows by price × q when its quantity grows by q |
| Cart.AddNewRaisesTotals | client/src/hooks/use-cart.tsx:46-66 | adding a new book raises itemCount by q and total by price × q |
| Cart.AddRaisesTotals | client/src/hooks/use-cart.tsx:40-66 | every addToCart raises itemCount by q |
| Cart.RemoveLowersTotals | client/src/hooks/use-cart.tsx:52-66 | removing a held book lowers total by its line total and itemCount by its quantity |
| Schema.InsertUnique | shared/schema.ts:7 | an insert is rejected exactly when a row already holds the key; otherwise the row is appended |
| Schema.InsertUniqueKeepsKeysUnique | shared/schema.ts:90 | an accepted insert keeps the unique key unique |
| Schema.SerialIdsAppend | shared/schema.ts:6 | a row taking the next serial id keeps ids increasing and below the next one |
| Schema.SerialIdsFilter | shared/schema.ts:26 | deleting rows keeps the ids serial |
| Schema.SerialIdsMap | shared/schema.ts:53 | updates that keep ids keep them serial |
| Schema.SerialIdsUnique | shared/schema.ts:6 | serial ids are a unique key |
| Schema.NewUser | shared/schema.ts:5-16 | a stored user has the given id, e-mail and password; role defaults to "user" and enabled is true |
| Schema.NewBook | shared/schema.ts:25-41 | a stored book keeps the given columns; stock defaults to 0 and published to true |
| Schema.NewReview | shared/schema.ts:100-109 | a stored review keeps book and rating and is approved |
| Schema.QuantityIssuesEmpty | shared/schema.ts:163-166 | no item is rejected exactly when every quantity is ≥ 1 |
| Schema.OrderIssues | shared/schema.ts:154-167 | the issues insertOrderSchema reports, in field order; specified by OrderSchemaAccepts |
| Schema.OrderSchemaAccepts | shared/schema.ts:154-167 | insertOrderSchema accepts iff name ≥ 2, phone ≥ 8, address ≥ 5 and city ≥ 2 in JavaScript length (UTF-16 code units), items are non-empty and every quantity is ≥ 1 |
| Schema.OneEmojiNameMeetsMinimum | shared/schema.ts:155 | a customer name of one emoji has JavaScript length 2 and meets `.min(2)` |
| Schema.ReviewSchemaAccepts | shared/schema.ts:179-183 | insertReviewSchema accepts iff 1 ≤ rating ≤ 5 |
| Schema.ReviewIssues | shared/schema.ts:179-183 | the issues insertReviewSchema reports; specified by ReviewSchemaAccepts |
| Schema.RegisterIssues | shared/schema.ts:134-139 | the issues registerUserSchema reports; specified by RegisterSchemaAccepts |
| Schema.RegisterSchemaAccepts | shared/schema.ts:134-139 | registerUserSchema accepts iff the e-mail is well formed, the password has ≥ 6 and the name ≥ 2 UTF-16 code units; the phone never matters |
| Schema.ParseRegister | shared/schema.ts:134-139 | parse fails exactly when a required field is missing, the phone is mistyped or a rule fails; a parsed input carries the body's e-mail and password and meets the length rules, in UTF-16 code units |
| Schema.ParseInsertUser | shared/schema.ts:124-132 | insertUserSchema accepts iff e-mail and password are given and no field is mistyped; the client's role is kept when given |
| Schema.ParseInsertBook | shared/schema.ts:141-144 | insertBookSchema accepts iff every required column is given and no field is mistyped |
| Schema.ParseBookUpdate | shared/routes.ts:93 | the partial schema accepts iff no field is mistyped |
| Schema.CreateBodyIsUpdateBody | shared/routes.ts:83-93 | every valid create body is a valid update body |
| Schema.ApplyBookUpdate | server/storage.ts:149-152 | an update keeps the id and changes price and stock only when they are given |
| Schema.EmptyBodyGivesNoColumn | shared/routes.ts:93 | the partial schema accepts the empty body `{}`, and the update it yields sets no column |
| Storage.GetBooks | server/storage.ts:127-137 | getBooks: every book newest first, filtered by category and search; specified by GetBooksSelects, GetBooksUnfiltered and GetBooksNewestFirst |
| Storage.CountLowStockBooks | server/storage.ts:163-166 | countLowStockBooks: the number of books with stock below 5; specified by CountLowStockAfterCreate and CountLowStockBounded |
| Storage.FindBook | server/storage.ts:139-142 | getBook: the book with that id, if any; specified through GetBookReply and GetBookReturnsTheBook |
| Storage.GetBooksSelects | server/storage.ts:127-137 | a book is listed iff it is stored, its category matches when one is given, and the lower-cased search occurs in a lower-cased title or author when one is given |
| Storage.GetBooksUnfiltered | server/storage.ts:128-135 | with neither filter every book is listed, newest first |
| Storage.GetBooksNewestFirst | server/storage.ts:128 | the filtered list keeps newest-first order (ids strictly decrease) |
| Storage.CountLowStockAfterCreate | server/storage.ts:163-166 | a new book raises the low-stock count by one iff its stock is below 5, which includes the default stock |
| Storage.CountLowStockBounded | server/storage.ts:163-166 | the count is at most the number of books, and 0 when every stock is ≥ 5 |
| Storage.FindUserByEmail | server/storage.ts:108-111 | a user is found iff a row has that e-mail, and the row found has it |
| Storage.OrderRow | server/storage.ts:225-231 | a new order is "pending" with the given total; falsy region fields become null; shippingPrice is null only when missing |
| Storage.DeleteOrderRemovesExactly | server/storage.ts:289-292 | deleting keeps exactly the other orders and the items of other orders |
| Storage.WithStatus | server/storage.ts:284-287 | the orders after updateOrderStatus; specified by WithStatusEffect and RevenueAfterStatusChange |
| Storage.OrderHasId | server/storage.ts:285 | the `eq(orders.id, id)` condition as a predicate on rows |
| Storage.TotalRevenue | server/storage.ts:303-306 | totalRevenue: the sum of the totals of orders that are not cancelled; specified by the Revenue lemmas |
| Storage.RevenueIsSumOfTerms | server/storage.ts:303-306 | revenue is the sum over all orders of their total, counting cancelled ones as 0 |
| Storage.RevenueOfCancelledOnly | server/storage.ts:303-306 | with no order, or only cancelled ones, revenue is 0 |
| Storage.RevenueAfterAppend | server/storage.ts:303-306 | a new order adds its total to the revenue unless cancelled |
| Storage.RevenueAfterStatusChange | server/storage.ts:284-306 | a status change moves the revenue by the difference in that order's contribution |
| Storage.RevenueAfterDelete | server/storage.ts:289-306 | deleting an order removes its contribution from the revenue |
| Storage.FindPage | server/storage.ts:317-320 | getPageBySlug: the page with that slug, if any; specified by FindPageFinds |
| Storage.UpsertPages | server/storage.ts:322-330 | upsertPage on the table, None when the unique slug refuses it; specified by the UpsertPage lemmas |
| Storage.FindPageFinds | server/storage.ts:317-320 | a page is found iff a page has that slug |
| Storage.UpsertExistingPage | server/storage.ts:322-330 | without a slug in the data, upserting an existing slug replaces only that page, by the merge of its old columns with the data |
| Storage.UpsertPagesValid | server/storage.ts:322-330 | a successful upsert keeps ids serial and slugs unique, uses a new id only when inserting, and holds the page it returns under the slug written |
| Storage.UpsertPageEffect | server/storage.ts:322-330 | without a slug in the data, upsert succeeds and the slug exists afterwards; an existing page is the only row changed; otherwise exactly one page is appended |
| Storage.UpsertPageDataSlugWins | server/storage.ts:328 | a slug in the data overrides the argument, so afterwards no page has the argument's slug |
| Storage.UpsertPageKeepsSlugsUnique | server/storage.ts:322-330 | upsert never breaks the unique slug constraint |
| Storage.GetReviewsByBook | server/storage.ts:332-334 | getReviewsByBook: approved reviews of the book, newest first; specified by GetReviewsByBookSelects |
| Storage.BookRatingSummary | server/storage.ts:345-351 | getBookRatingSummary: mean and count of the approved ratings; specified by RatingSummaryBounds |
| Storage.AllBookRatings | server/storage.ts:353-365 | getAllBookRatings: the map from book id to its summary; specified by AllBookRatingsAgree |
| Storage.GetReviewsByBookSelects | server/storage.ts:332-334 | a review is listed iff it is an approved review of the book; the list is newest first |
| Storage.RatingSummaryBounds | server/storage.ts:345-351 | count is the number of approved reviews; with none the summary is {avg 0, count 0}; ratings in [1, 5] give a mean in [1, 5] |
| Storage.TallyStepJoins | server/storage.ts:358-362 | an approved review joins its book's group, adding its rating and one to the count |
| Storage.TallyAgrees | server/storage.ts:353-358 | a book's group is the sum and number of its approved reviews, and it exists iff there is one |
| Storage.AllBookRatingsAgree | server/storage.ts:353-365 | getAllBookRatings has an entry iff the book has an approved review, and that entry equals getBookRatingSummary |
| Storage.DatabaseStorage.constructor | server/storage.ts:83-101 | every table starts empty and valid |
| Storage.DatabaseStorage.CreateUser | server/storage.ts:113-116 | rejected with nothing stored iff the e-mail is taken; otherwise appends the row with the next id; the serial id is used up either way |
| Storage.DatabaseStorage.CreateBook | server/storage.ts:144-147 | appends the book with the next id and its defaults, and advances the book serial by one |
| Storage.DatabaseStorage.UpdateBook | server/storage.ts:149-152 | an update setting no column throws "No values to set" and changes nothing; otherwise updates the book with that id and returns its row, None iff there is none |
| Storage.DatabaseStorage.DeleteBook | server/storage.ts:154-156 | keeps exactly the books with other ids |
| Storage.DatabaseStorage.CreateOrder | server/storage.ts:224-245 | appends the pending order, then one item per line in input order with the new order's id and the line's book, quantity and unit price; the order serial advances by one and the item serial by the number of lines; only the order and item tables and their serials change |
| Storage.DatabaseStorage.InsertItems | server/storage.ts:233-242 | the loop appends one item per line, in order, with consecutive ids, and advances the item serial by the number of lines |
| Storage.WithStatusEffect | server/storage.ts:284-287 | an order is found exactly when some order has that id; the found order, with its new status, is in the updated table, and ids stay serial |
| Storage.DatabaseStorage.UpdateOrderStatus | server/storage.ts:284-287 | overwrites only the status of that order with any string; every other order and field is unchanged |
| Storage.DatabaseStorage.DeleteOrder | server/storage.ts:289-292 | removes the order and exactly its items, and no other rows |
| Storage.DatabaseStorage.UpsertPage | server/storage.ts:322-330 | the pages become the upsert result, and the returned page carries the slug written; the page serial advances by one exactly when the insert branch runs, stored or not |
| Storage.DatabaseStorage.CreateReview | server/storage.ts:336-339 | appends an approved review; an empty comment is stored as null; the review serial advances by one |
| SharedRoutes.Substitute | shared/routes.ts:118-120 | one forEach step: replace the first `:key` when it occurs; specified by SubstituteAbsent, SubstituteIsReplace and SubstituteFirstOccurrence |
| SharedRoutes.SubstituteAll | shared/routes.ts:117-121 | the forEach over the entries; specified by SubstituteAllSnoc and SubstituteAllOne |
| SharedRoutes.BuildUrlSpec | shared/routes.ts:114-124 | buildUrl as a function; BuildUrl's loop is proved equal to it |
| SharedRoutes.BuildUrl | shared/routes.ts:114-124 | the loop's url equals the substitution of every entry in order, or the path when params are missing |
| SharedRoutes.BuildUrlWithoutParams | shared/routes.ts:114-123 | with no params, or none at all, the path is returned unchanged |
| SharedRoutes.SubstituteAbsent | shared/routes.ts:118 | a key whose `:key` does not occur leaves the url unchanged |
| SharedRoutes.SubstituteFirstOccurrence | shared/routes.ts:117-120 | for a `$`-free value only the first `:key` is replaced and all other text is kept |
| SharedRoutes.NumberValuesArePlain | shared/routes.ts:119 | a number never holds `$` (a corollary of IntToString's ensures, stated for the param value) |
| SharedRoutes.SubstituteAllSnoc | shared/routes.ts:117 | entries are applied one after another, in entry order |
| SharedRoutes.SubstituteAllOne | shared/routes.ts:117-120 | a single entry is a single substitution |
| SharedRoutes.SubstituteIsReplace | shared/routes.ts:118-119 | when `:key` occurs, a step is `String.prototype.replace` |
| SharedRoutes.PlaceholderIsFirst | shared/routes.ts:119 | a placeholder with no ':' before it is the first occurrence |
| SharedRoutes.SubstituteFirstPlaceholder | shared/routes.ts:117-120 | the first placeholder is replaced by the value and the text around it is kept |
| SharedRoutes.DollarAmpersandKeepsPlaceholder | shared/routes.ts:119 | a string value "$&" puts the placeholder back, so the url is unchanged |
| SharedRoutes.BuildBookUrl | shared/routes.ts:73-74 | buildUrl of the book path with {id} is "/api/books/" + String(id) |
| SharedRoutes.PlaceholderPrefixMatches | shared/routes.ts:118-119 | matching is by plain substring: key `id` turns `:idx` into `7x` |
| QueryClient.CleanPath | client/src/lib/queryClient.ts:7 | the path with a leading "/"; specified by CleanPathShape |
| QueryClient.ApiUrl | client/src/lib/queryClient.ts:5-23 | apiUrl; specified by AbsoluteUrlUnchanged, RelativeUrl and HostnameIrrelevant |
| QueryClient.ErrorMessage | client/src/lib/queryClient.ts:27-28 | the thrown "<status>: <text>" message; specified by ErrorMessageColon and ErrorMessageDeterminesStatus |
| QueryClient.QueryUrl | client/src/lib/queryClient.ts:54 | the fetched url; specified by QueryUrlOfKey |
| QueryClient.QueryFn | client/src/lib/queryClient.ts:53-63 | the query function's outcome; specified by QueryFnOutcomes and ThrowOn401 |
| QueryClient.ApiBase | client/src/lib/queryClient.ts:3 | API_BASE is the configured base when it is a non-empty string, and "" otherwise |
| QueryClient.CleanPathShape | client/src/lib/queryClient.ts:7 | cleanPath starts with "/"; it is the path when that starts with "/", else "/" + path |
| QueryClient.AbsoluteUrlUnchanged | client/src/lib/queryClient.ts:6 | a path starting with "http" is returned unchanged |
| QueryClient.RelativeUrl | client/src/lib/queryClient.ts:7-22 | dev gives cleanPath; otherwise API_BASE + cleanPath, which is cleanPath when API_BASE is empty; the url always ends with cleanPath |
| QueryClient.HostnameIrrelevant | client/src/lib/queryClient.ts:16-22 | the url is the same whatever the hostname |
| QueryClient.ThrowIfResNotOk | client/src/lib/queryClient.ts:25-30 | throws exactly for a response that is not ok |
| QueryClient.ErrorMessageColon | client/src/lib/queryClient.ts:28 | the first ':' of the message follows the status digits |
| QueryClient.ErrorMessageDeterminesStatus | client/src/lib/queryClient.ts:27-28 | the message determines the status and the text it reports |
| QueryClient.QueryFnOutcomes | client/src/lib/queryClient.ts:58-63 | null iff 401 under "returnNull"; otherwise it throws "<status>: <text>" iff not ok, and gives the body iff ok |
| QueryClient.ThrowOn401 | client/src/lib/queryClient.ts:58-62 | under "throw" a 401 throws "401: <text>" |
| QueryClient.QueryUrlOfKey | client/src/lib/queryClient.ts:54 | the fetched url is apiUrl of the query key joined with "/" |
| ServerRoutes.RegistrationRow | server/routes.ts:24-28 | the stored row has the hashed password and the role sent by the client, defaulting to "user" |
| ServerRoutes.Register | server/routes.ts:16-41 | a parse failure gives 400; a taken e-mail gives 400 and creates no user; otherwise exactly one user with the hashed password is added and 201 is answered (500 when login fails); the user serial advances exactly when a user is added, and no other table changes |
| ServerRoutes.SelfRegisteredAdmin | server/routes.ts:18-28 | a body with role "admin" is accepted, and its session passes the admin check |
| ServerRoutes.SignUpRow | shared/schema.ts:134-139 | a sign-up stores e-mail, hashed password and name |
| ServerRoutes.SignUpNeverAdmin | shared/schema.ts:134-139 | a signed-up user has role "user" and is not an administrator |
| ServerRoutes.SignUp | server/routes.ts:16-41 | register validating with registerUserSchema: the same 400/201 outcomes and the same serial and frame, and the session this request creates is never an administrator |
| ServerRoutes.GetBookReply | server/routes.ts:99-103 | 404 iff no book has the id; otherwise 200 with a stored book of that id |
| ServerRoutes.GetBookReturnsTheBook | server/routes.ts:99-103 | with serial ids the book returned is the one row with that id |
| ServerRoutes.CreateBookRoute | server/routes.ts:105-120 | 401 and no change unless admin; 400 and nothing added on a validation failure; else 201 with the one book appended and the book serial advanced by one; no other table changes |
| ServerRoutes.UpdateBookRoute | server/routes.ts:122-133 | 401 and no change unless admin; 400 "Update failed" on a parse failure or an update setting no column, with no change; else 200, the book with that id updated; the body is the updated row, or empty iff no such book |
| ServerRoutes.DeleteBookRoute | server/routes.ts:135-141 | 401 and no change unless admin; else 204 whether or not the id existed, keeping exactly the other books in their order |
| ServerRoutes.SampleCatalog | server/routes.ts:167-208 | the three sample books in order, with titles, categories and prices as seeded and no stock given |
| ServerRoutes.Muqaddimah | server/routes.ts:168-180 | the first sample book: "The Muqaddimah" by Ibn Khaldun, History, 2500 DZD, language "both", published, its ISBN |
| ServerRoutes.Nights | server/routes.ts:182-194 | the second sample book: "One Thousand and One Nights", Literature, 3000 DZD, language "ar", published, its ISBN |
| ServerRoutes.Miserables | server/routes.ts:196-208 | the third sample book: "Les Misérables" by Victor Hugo, Fiction, 1800 DZD, language "both", published, its ISBN |
| ServerRoutes.SeedDatabase | server/routes.ts:144-210 | AlreadySeeded with nothing changed if the admin exists; otherwise admin and demo user are added, then the three sample books (titles, categories, prices, stock 0, published), with the user serial +2 and the book serial +3; a taken demo e-mail gives SeedRejected (startup aborts) after the admin row, with both user serials used |
| ServerRoutes.SeedUsers | server/routes.ts:153-165 | the admin row, then the demo row; `false` exactly when the demo insert rejects for a taken e-mail; the user serial advances by 2 |
| ServerRoutes.SeedBooks | server/routes.ts:167-208 | appends the three sample books with their titles, categories and prices, stock 0 and published, with consecutive ids, and advances the book serial by 3 |
| ServerRoutes.DemoStillFree | server/routes.ts:154-165 | adding the admin does not change whether the demo e-mail is taken |
| ServerRoutes.SeedTwice | server/routes.ts:149-151 | a second seeding is AlreadySeeded and leaves users and books as the first left them |
| ServerRoutes.SampleCatalogQueries | server/routes.ts:167-208 | on the seeded catalog all three books count as low stock, and the "History" filter finds the Muqaddimah |

## Left out

- **Cart persistence.** Restoring and saving the cart in localStorage is browser I/O, so a
  cart starts empty. `setIsOpen` on its own is not modelled.
- **Authentication.** Login, logout, `/api/user` and the passport session store are
  not modelled. A session is given as `Session`, and the outcome of `req.login` is the
  parameter `loginOk`.
- **Unnamed operations.** The storage methods not listed above are not part of this
  model: users, categories, wilayas, counts, activity logs, order reads, review and
  blog deletion. Neither are the list-books handler, `apiRequest`, the mail module and
  the react-query hooks.
- **Categories and wilayas.** Their rows and key accessors (`CategorySlug`,
  `WilayaCode`) are declared with the other tables. No operation of this model writes
  those tables, so their unique keys are not exercised.
- **Schema.ParseRegister:** the e-mail format rule of zod is the parameter `isEmail`,
  not a regular expression.
- **ServerRoutes.Register:** the zod error text (`err.errors[0].message`) is
  `ZodErrorMessage`, without zod's wording.
- **Common.Lower:** `toLowerCase` is modelled for ASCII letters only. Other characters
  are kept as they are, so `Storage.GetBooksSelects` is exact for ASCII text only.
- **Common.IntToString:** renders integers only. The model holds no fractional or
  exponent-form numbers, and a non-numeric `:id` (`Number` giving NaN) is not
  modelled.
- **Schema.OrderSchemaAccepts, Schema.ReviewSchemaAccepts:** quantities and ratings are
  integers. zod's `z.number()` also accepts fractional values such as a quantity of
  1.5 or a rating of 4.5, and these acceptance results hold only over integers.
- **ServerRoutes.CreateBookRoute:** a price string that is not a number passes zod,
  and PostgreSQL then refuses the insert, which the handler answers with 500
  "Server error". The model has no such price, so it has no 500 branch.
- **Storage.UpsertPageEffect:** stated for data without a slug of its own. Data that
  carries a slug is covered by `Storage.UpsertPageDataSlugWins` and
  `Storage.UpsertPageKeepsSlugsUnique`.
- **Storage.DatabaseStorage.UpsertPage:** the update branch matches by the argument
  slug. If the data renames the slug onto another page's slug, the database refuses
  the write; the model rejects it as `None`.
- **Database errors.** A rejected INSERT returns `None` and, as in PostgreSQL, still
  uses up its serial id. The handler errors that follow from it (500 "Internal server
  error") are modelled only where the handler itself checks first. An error at
  startup is `SeedRejected`; what `server/index.ts` does next (it never listens) is
  stated in words only.
- **Entry order of params.** `Object.entries` gives the params of `buildUrl` in an
  order taken as given: the sequence passed in.
- **Response bodies.** A body that is not JSON (`res.json()` failing) is not modelled.
  `Json(body)` carries the body text.
- **ServerRoutes.SampleCatalog:** the Arabic titles, descriptions and image urls of the
  seed books are stored but no contract states them. `ServerRoutes.Muqaddimah`,
  `ServerRoutes.Nights` and `ServerRoutes.Miserables` state the English title, author,
  category, price, language, ISBN and defaults.
- **Missing 404s.** The API contract lists 404 for update and delete. The handlers never
  answer it: `ServerRoutes.UpdateBookRoute` answers 200 with an empty body for an
  unknown id and
  `ServerRoutes.DeleteBookRoute` answers 204. The model follows the handlers.
- **Time.** Clock values (`createdAt`, `updatedAt`) are positions or the parameter
  `now`. Concurrency between requests is not modelled: each handler runs to completion
  on its own.

## Findings

| source | as written | input that shows it | evidently intended | confidence | as-written member | corrected member |
|---|---|---|---|---|---|---|
| server/routes.ts:18 | registration parses the body with `api.auth.register.input`, which is `insertUserSchema`. That schema accepts a `role` field, and the stored row keeps it. Password and name lengths are not checked. | `{"email":"mallory@example.com","password":"x","role":"admin"}` gives 201 and an admin session that passes the book routes' admin check | validate with `registerUserSchema`, as the sign-up page does, and store every new account with role "user" | not executed | ServerRoutes.SelfRegisteredAdmin | ServerRoutes.SignUpNeverAdmin |
