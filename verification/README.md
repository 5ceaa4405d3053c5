# Bookstore core in Dafny

This project models the decision logic of a Next.js bookstore. It covers:

- the client-side cart store;
- the "Add to Cart" button;
- the cart and checkout pages, with their id counting, lookup and clear-on-success rule;
- the `POST /api/checkout` endpoint, which turns a cart into PENDING orders;
- the three access gates: the edge middleware, the manager-page gate and the role-filtered dashboard;
- the credentials check `authorize`;
- the user server actions;
- the search, sort and local list updates of the books, orders, users and genres tables;
- the filter panel of the public catalogue.

Everything is a pure function over immutable sequences and datatypes. Whatever the code calls out to is a parameter:

- the database, as per-call outcomes: `CheckoutRoute.Creator`, a function `(nat, OrderDraft) -> Option<Order>` whose `nat` argument is the position of the create call, so each cart entry is a call of its own; `DbCall`, `Lookup` and `Outcome`;
- the session provider;
- the password hasher and comparer (`hash`, `matches`);
- the email validator (`isEmail`);
- lower-casing (`lower`);
- ISO date rendering (`isoDate`).

A server action that threw is `Outcome.Threw`. A thrown `Error` with a message is `Attempt.Err`. Prices are integer cents and timestamps integer milliseconds.

Layout, one module per file:

| file | module | models |
|---|---|---|
| basics.dfy | `Basics` | `Option`, `Attempt`, `Outcome` |
| seqs.dfy | `Seqs` | `filter`, `map` with a selector, `Array.from(new Set(..))`, subsequences; `IndexOf` (first position) only states the first-occurrence order of the distinct ids |
| text.dfy | `Text` | `startsWith`, `includes`, string `<` |
| sorting.dfy | `Sorting` | the three-state sort direction, `handleSort`, the `-1/0/1` comparator, a stable sort |
| domain.dfy | `Domain` | the Prisma entities, enums and the session |
| cart.dfy | `Cart` | store/useCart.tsx |
| add_to_cart.dfy | `AddToCart` | components/AddToCart.tsx |
| cart_view.dfy | `CartView` | the shared cart logic of components/CartClient.tsx and components/CheckoutClient.tsx |
| checkout_client.dfy | `CheckoutClient` | `handleCheckout` |
| checkout_route.dfy | `CheckoutRoute` | app/api/checkout/route.ts |
| middleware.dfy | `Middleware` | middleware.ts |
| manager_gate.dfy | `ManagerGate` | the gate of the three manager pages |
| dashboard.dfy | `Dashboard` | app/dashboard/page.tsx |
| users.dfy | `Users` | actions/users.ts |
| auth.dfy | `Auth` | `authorize` in auth.ts |
| list_edits.dfy | `ListEdits` | delete-by-id, replace-by-id and append, as the tables do them |
| search.dfy | `Search` | the case-insensitive search boxes |
| books_table.dfy, orders_table.dfy, users_table.dfy, genres_table.dfy | `BooksTable`, `OrdersTable`, `UsersTable`, `GenresTable` | the four management tables |
| catalogue.dfy | `Catalogue` | components/BooksClient.tsx |

Behaviour worth noting, modelled as the code does it:

- **Middleware.** It consults only whether a session exists and a list of protected path prefixes. It has no role rule. The prefix list lives in a constants file that is not part of this model, so it is a parameter.
- **Matcher dot.** In the matcher pattern `favicon.ico`, the dot is a regular-expression wildcard, and the model keeps it that way.
- **Session without a user.** The manager gate reads `session.user.role` without a guard, so such a session is modelled as an error page.
- **`null` body.** A JSON body of `null` makes the checkout endpoint's destructuring throw, which is answered with 500.

## Model

| member | source | states |
|---|---|---|
| Cart.Initial | store/useCart.tsx:14 | the cart starts with no unit of any book |
| Cart.AddItem | store/useCart.tsx:15-16 | one more entry, at the end; every earlier entry unchanged; the multiset grows by exactly that id |
| Cart.RemoveItem | store/useCart.tsx:17-18 | no occurrence of the id remains; every other id keeps its count; the result is an order-preserving subsequence |
| Cart.Clear | store/useCart.tsx:19 | no id remains, from any state |
| Cart.RemoveItemAbsent | store/useCart.tsx:18 | removing an absent id leaves the cart unchanged |
| Cart.RemoveItemIdempotent | store/useCart.tsx:18 | removing twice equals removing once |
| Cart.RemoveItemAppend | store/useCart.tsx:18 | removal distributes over concatenation, so kept entries are never reordered |
| Cart.RemoveAfterAdd | store/useCart.tsx:15-18 | adding a unit then removing its book equals just removing the book |
| AddToCart.IsInCart | components/AddToCart.tsx:17-19 | true exactly when some entry of the cart is the book |
| AddToCart.Label | components/AddToCart.tsx:29 | "View Cart" iff the book is in the cart, "Add to Cart" iff it is not |
| AddToCart.Click | components/AddToCart.tsx:12-15 | in the cart: cart unchanged and navigate to /cart; not in the cart: `addItem` once; the book's count afterwards is its old count or 1 |
| AddToCart.RepeatedClicks | components/AddToCart.tsx:27 | after n clicks the book has one unit if it was absent and n > 0, otherwise its old count; other books untouched |
| AddToCart.ClicksNeverDuplicate | components/AddToCart.tsx:27 | from a cart with at most one unit of the book, any number of clicks keeps it at most one |
| CartView.BookCounts | components/CartClient.tsx:28-31 | the count map's keys are exactly the cart's ids and each value is that id's number of occurrences |
| Seqs.Distinct | components/CartClient.tsx:35 | `uniqueIds` has no duplicates, the same members as the cart, and is ordered by first occurrence |
| CartView.ResolveLines | components/CartClient.tsx:37-47 | one line per resolved id, in order; unresolved ids dropped; each line carries its book and its count |
| CartView.LoadLines | components/CartClient.tsx:26-54 | a thrown lookup keeps the previous lines; otherwise line k is the k-th resolved unique id's book with its occurrence count |
| CartView.Render | components/CartClient.tsx:68-78 | the empty-cart notice shows exactly when loading is over and no line resolved |
| CartView.NothingResolvesShowsEmpty | components/CartClient.tsx:45-49 | when no id resolves, the page shows the empty cart |
| CartView.SumOverUniqueIds | components/CartClient.tsx:28-35 | summing any weight per unique id times its count equals summing it per cart entry |
| CartView.AllResolvedShowsEveryUnit | components/CartClient.tsx:28-49 | when every id resolves, the displayed quantities add up to the cart's length |
| CartView.TotalIsPricePerEntry | components/CartClient.tsx:63-66 | with no failed lookup, the total is the sum of the cart entries' prices, unresolved entries adding nothing |
| CartView.RemoveLineRemovesAllUnits | components/CartClient.tsx:108 | a line's remove button removes exactly the line's quantity of units of its book, leaving none |
| CheckoutClient.HandleCheckout | components/CheckoutClient.tsx:63-89 | nothing is posted when no line shows, and then `isProcessing` is left as it was; otherwise the raw items are posted; the cart is cleared and the page navigates exactly on an ok response; the cart is unchanged otherwise; after a post the button is enabled again whatever the outcome |
| CheckoutClient.ButtonReenabled | components/CheckoutClient.tsx:86-88 | from an idle page, every outcome (ok, refused or thrown) leaves the Place Order button enabled, exactly as a thrown request does |
| CheckoutClient.OkIffOrdersCreated | app/api/checkout/route.ts:33 | the endpoint's response is ok exactly when it returned the created orders |
| CheckoutClient.CheckoutSucceeds | components/CheckoutClient.tsx:68-82 | a signed-in checkout whose orders are all created empties the cart, with one PENDING order per cart entry, in cart order |
| CheckoutClient.CheckoutSignedOutKeepsCart | components/CheckoutClient.tsx:76-85 | a signed-out checkout is refused and the cart survives |
| CheckoutClient.ThrownFetchKeepsCart | components/CheckoutClient.tsx:83-88 | a thrown fetch behaves like a non-ok response: the cart is kept |
| CheckoutRoute.Drafts | app/api/checkout/route.ts:22-29 | one create request per item, with that book, the caller's id and status PENDING |
| CheckoutRoute.CreateAll | app/api/checkout/route.ts:21-31 | one create call per element, identified by its position; all orders in item order when every call succeeds; nothing when any fails |
| CheckoutRoute.Post | app/api/checkout/route.ts:6-38 | a thrown auth gives 500; no session user gives 401; a success returns exactly one created order per item, in order, built from the caller's id and PENDING |
| CheckoutRoute.UnauthenticatedIgnoresBody | app/api/checkout/route.ts:8-11 | without a session user the answer is 401 whatever the body and whatever the database would do |
| CheckoutRoute.InvalidItemsRejected | app/api/checkout/route.ts:16-18 | missing, non-array or empty items give 400 and create nothing |
| CheckoutRoute.MalformedBodyIsInternalError | app/api/checkout/route.ts:13-14 | an unparsable or null body gives 500 |
| CheckoutRoute.SuccessOrdersMatchItems | app/api/checkout/route.ts:21-33 | with a database that stores what it is given, order i is for book items[i], the caller's, PENDING, duplicates included |
| CheckoutRoute.DuplicatesAreSeparateOrders | app/api/checkout/route.ts:21-31 | each element is its own create call, so when the database gives each call a fresh id, a book in the cart twice becomes two orders with different ids |
| CheckoutRoute.CreateFailureIsInternalError | app/api/checkout/route.ts:34-37 | any failed creation makes the response 500 |
| Middleware.IsProtectedRoute | middleware.ts:11-13 | a path is protected iff some route is a prefix of it |
| Middleware.Decide | middleware.ts:8-19 | redirect to /login iff protected and no session; pass otherwise |
| Middleware.LoggedInPasses | middleware.ts:9-18 | a request with a session always passes |
| Middleware.UnprotectedPasses | middleware.ts:15-18 | a path outside every prefix passes with or without a session |
| Middleware.RoleIgnored | middleware.ts:8-19 | any two sessions get the same decision: only presence matters |
| Middleware.ProtectedSubtree | middleware.ts:11-13 | extending a protected path keeps it protected |
| Middleware.RunsOn | middleware.ts:22 | the middleware runs exactly on "/" paths whose remainder does not start with api, _next/static, _next/image or favicon?ico |
| Middleware.Handle | middleware.ts:15-22 | skipped paths always pass; the only answers are passing on and a redirect to /login; that redirect happens iff the path is matched, protected, and has no session |
| Middleware.ApiNeverIntercepted | middleware.ts:22 | every /api path passes untouched |
| Middleware.FaviconWildcard | middleware.ts:22 | both /favicon.ico and /faviconXico are skipped |
| Middleware.PagesAreMatched | middleware.ts:15-22 | every path whose first segment does not begin with api, _next or favicon reaches the middleware, and without a session it is redirected to /login exactly when it is protected |
| Middleware.OrdersPageMatched | middleware.ts:15-22 | a signed-out visit to a protected /orders is redirected to /login |
| ManagerGate.Gate | app/manager/books/page.tsx:10 | redirect home iff no session or role USER; an error iff the session has no user; otherwise proceed |
| ManagerGate.StaffProceed | app/manager/books/page.tsx:10 | managers and administrators proceed |
| ManagerGate.ProceedOnlyForNonUsers | app/manager/books/page.tsx:10 | proceeding implies a signed-in user whose role is not USER |
| ManagerGate.OrEmpty | app/manager/books/page.tsx:20 | a null list becomes empty, a present list is kept |
| Dashboard.AvailableLinks | app/dashboard/page.tsx:71-73 | exactly the links whose allowed roles include the role, in table order |
| Dashboard.Page | app/dashboard/page.tsx:52-96 | access denied iff no session, user or role; "No Access" iff the role is allowed no link; otherwise the grid shows the allowed links, in table order, and is non-empty |
| Dashboard.AdminSeesEverything | app/dashboard/page.tsx:21-50 | an administrator's page is the grid of all four links in order |
| Dashboard.ManagerSeesManagerLinks | app/dashboard/page.tsx:21-50 | a manager's page is the grid of the three manager links, never /admin/users |
| Dashboard.UserHasNoAccess | app/dashboard/page.tsx:75-85 | a USER gets the no-access page |
| Users.FindFirst | actions/users.ts:14-18 | the first row meeting the unique-column selector, or nothing iff none does |
| Users.GetUserByEmail | actions/users.ts:36-45 | null on a failed query; otherwise the user with that email, present iff some row has it |
| Users.GetUserById | actions/users.ts:47-56 | null on a failed query; otherwise the user with that id, present iff some row has it |
| Users.CreateUser | actions/users.ts:6-34 | a lookup error is re-thrown; an existing email fails with "User already exists"; with a working lookup and a free email it succeeds exactly when the insert works, and an insert error is re-thrown; every failure leaves the table unchanged; success stores the fields given, the hashed password and the default avatar |
| Users.CreateUserKeepsEmailsUnique | actions/users.ts:14-30 | creation preserves unique emails |
| Users.RegisterTwiceRefused | actions/users.ts:14-19 | a second registration with the same email is refused and changes nothing |
| Users.CreatedUserIsFound | actions/users.ts:21-40 | a created user is what getUserByEmail then returns |
| Auth.Authorize | auth.ts:19-39 | "Incorrect data format" iff malformed; "No user found" iff well formed and no user; "Password is incorrect" iff found and mismatched; success iff well formed, found and matching, and then it returns id, first name as name, image and role |
| Auth.FormatCheckedFirst | auth.ts:20-24 | malformed credentials are refused whatever the lookup and comparison would do |
| Auth.ExistenceCheckedBeforePassword | auth.ts:26-29 | an unknown email is refused whatever the comparison would do |
| Auth.RoleFromStore | auth.ts:33-38 | the session's role is the stored user's role |
| Auth.RegisterThenSignIn | auth.ts:19-39 | a freshly created account signs in with its password, given that the comparer accepts a password against its own hash |
| Auth.DatabaseDownRefusesEveryone | auth.ts:26-29 | with the users query failing, a well-formed sign-in gets "No user found" |
| ListEdits.DeleteById | app/manager/books/books-table.tsx:52 | no entry with the id remains; every other entry keeps its count; order preserved |
| ListEdits.ReplaceById | app/manager/books/books-table.tsx:83-86 | entries with the returned id become it, the others are unchanged, the length is kept |
| ListEdits.Append | app/manager/books/books-table.tsx:100 | the created record is added at the end, earlier entries unchanged |
| ListEdits.DeleteIdempotent | app/manager/genres/genres-table.tsx:44 | deleting twice equals deleting once |
| ListEdits.DeleteAbsent | app/manager/orders/orders-table.tsx:61 | deleting an absent id changes nothing |
| ListEdits.ReplaceKeepsIds | app/manager/genres/genres-table.tsx:60-64 | replacement keeps the list's ids in order |
| ListEdits.ReplaceIdempotent | app/manager/genres/genres-table.tsx:60-64 | replacing twice equals replacing once |
| ListEdits.ReplaceAbsent | app/manager/books/books-table.tsx:83-86 | a record whose id is not listed replaces nothing |
| ListEdits.DeleteAfterReplace | app/manager/books/books-table.tsx:49-86 | deleting a replaced record leaves what deleting the original would |
| ListEdits.DeleteAfterAppend | app/manager/genres/genres-table.tsx:43-71 | deleting a newly created record undoes its creation |
| ListEdits.AfterDelete | app/manager/genres/genres-table.tsx:41-53 | a thrown action leaves the list; a returned one removes the id and keeps everything else in order |
| ListEdits.AfterSave | app/manager/genres/genres-table.tsx:55-84 | a throw or an empty answer changes nothing; an edit replaces by the returned id keeping the ids; a creation appends |
| Search.SearchFilter | app/manager/books/books-table.tsx:118-124 | an empty term keeps all; otherwise an entry is kept iff a lower-cased field includes the lower-cased term, every occurrence of it, in order |
| Search.SearchIdempotent | app/admin/users/users-table.tsx:75-80 | searching the result again changes nothing |
| Search.EmptyAfterLoweringKeepsAll | app/manager/genres/genres-table.tsx:88-92 | a guard on the abstract lower-casing: a term that lower-cases to the empty string would keep every entry (`toLowerCase` never produces this case) |
| Sorting.NextDirection | app/manager/genres/genres-table.tsx:106-114 | the direction always changes, and becomes asc exactly from none |
| Sorting.NextDirectionPeriod | app/manager/genres/genres-table.tsx:106-114 | the cycle has period exactly three |
| Sorting.HandleSort | app/manager/books/books-table.tsx:149-159 | the clicked column becomes active; the same column advances the direction, a new column starts asc |
| Sorting.HandleSortPeriod | app/manager/orders/orders-table.tsx:172-180 | three clicks on the active column restore the state, and one or two never do |
| Sorting.HandleSortNewColumn | app/admin/users/users-table.tsx:108-116 | three clicks on a new column give asc, desc, none |
| Sorting.CompareConsistent | app/manager/books/books-table.tsx:127-144 | the comparator is negative iff the first must come first, antisymmetric, zero only on equal keys, desc is the negation of asc |
| Sorting.SortBy | app/manager/books/books-table.tsx:126-145 | a permutation of the input; non-decreasing for asc, non-increasing for desc; the input itself for none |
| Sorting.SortByStable | app/manager/books/books-table.tsx:126-145 | entries with equal keys keep their relative order |
| BooksTable.Visible | app/manager/books/books-table.tsx:116-147 | exactly the matching books, permuted from the filtered list, ordered by the column in the direction, unsorted meaning filtered order |
| BooksTable.InitialOrderIsInputOrder | app/manager/books/books-table.tsx:37 | initially the table shows the books as given |
| BooksTable.TiesKeepOrder | app/manager/books/books-table.tsx:126-145 | books tying on the column keep their filtered order |
| BooksTable.DeleteBook | app/manager/books/books-table.tsx:49-61 | only the book with the id leaves, and only once the action returned |
| BooksTable.SaveBook | app/manager/books/books-table.tsx:63-114 | update replaces the matching book keeping ids; create appends; a throw or an empty answer changes nothing |
| OrdersTable.DateFilter | app/manager/orders/orders-table.tsx:128-133 | with a date set, exactly the orders whose ISO date equals it, every occurrence, in order |
| OrdersTable.Visible | app/manager/orders/orders-table.tsx:116-170 | exactly the orders passing the book search and the date filter, sorted by the column |
| OrdersTable.InitiallyNewestFirst | app/manager/orders/orders-table.tsx:48-51 | initially creation times never increase down the table |
| OrdersTable.DeleteOrder | app/manager/orders/orders-table.tsx:58-71 | only the order with the id leaves, and only once the action returned |
| OrdersTable.Merge | app/manager/orders/orders-table.tsx:79 | the returned order fields replace the row's, its book and user are kept |
| OrdersTable.FindRow | app/manager/orders/orders-table.tsx:77 | a row with the id, or nothing iff none has it |
| OrdersTable.UpdateStatus | app/manager/orders/orders-table.tsx:73-99 | rows with the id take the returned fields over the found row's book and user; all other rows unchanged; nothing changes on a throw, an empty answer or an unknown id |
| OrdersTable.UpdateUnknownOrder | app/manager/orders/orders-table.tsx:86-88 | an id not in the list changes nothing |
| OrdersTable.UpdateKeepsIds | app/manager/orders/orders-table.tsx:80-84 | an update keeping the id keeps the table's ids |
| UsersTable.LocaleCompare | app/admin/users/users-table.tsx:92 | negative iff the first string is smaller, positive iff larger |
| UsersTable.ComparatorConsistent | app/admin/users/users-table.tsx:82-103 | the comparator is negative iff the first row must come first, zero iff the keys are equal, and desc is the exact negation of asc |
| UsersTable.Visible | app/admin/users/users-table.tsx:72-106 | exactly the users whose email matches; none keeps filtered order; otherwise no pair is out of order |
| UsersTable.VisibleRespectsComparator | app/admin/users/users-table.tsx:82-104 | in the shown order the comparator of every earlier/later pair is not positive |
| UsersTable.OnRoleChange | app/admin/users/users-table.tsx:56-70 | after the action returned, only matching users get the new role, every other field and user unchanged; after a throw nothing changes |
| UsersTable.OnRoleChangeIdempotent | app/admin/users/users-table.tsx:59-63 | setting the same role twice equals once |
| UsersTable.OnRoleChangeUndo | app/admin/users/users-table.tsx:59-63 | setting the old role back restores the list |
| GenresTable.ToggleSortDirection | app/manager/genres/genres-table.tsx:106-114 | the toggle is the none → asc → desc → none cycle |
| GenresTable.ToggleThrice | app/manager/genres/genres-table.tsx:106-114 | three toggles are the identity, one or two never are |
| GenresTable.Visible | app/manager/genres/genres-table.tsx:86-104 | exactly the genres whose name matches; ordered by lower-cased name for asc and desc; filtered order for none |
| GenresTable.AscNamesNonDecreasing | app/manager/genres/genres-table.tsx:94-101 | in ascending order every lower-cased name is at most every later one |
| GenresTable.DeleteGenre | app/manager/genres/genres-table.tsx:41-53 | only the genre with the id leaves, once the action returned |
| GenresTable.SaveGenre | app/manager/genres/genres-table.tsx:55-84 | update replaces the matching genre keeping ids; create appends; otherwise nothing changes |
| Catalogue.Apply | components/BooksClient.tsx:33-57 | the shown books are an order-preserving subsequence of the catalogue |
| Catalogue.ApplyIsConjunction | components/BooksClient.tsx:34-56 | the filter chain equals one filter by the conjunction of the active filters, so their order does not matter |
| Catalogue.DefaultsShowEverything | components/BooksClient.tsx:29-31 | with the defaults every book is shown, in order |
| Catalogue.GenreSelects | components/BooksClient.tsx:47-49 | a selected genre keeps exactly the books of that genre that pass the other filters |
| Catalogue.GenreNarrows | components/BooksClient.tsx:47-49 | a book shown under a genre is also shown under "All" |

## Left out

- Persistence: the cart store's local-storage `persist` wrapper and its storage key are not modelled.
- Toasts, console logging, router navigation other than as a flag, dialog open/close state and all markup.
- Concurrency: `Promise.all` in the cart lookups and the checkout route is modelled as a sequential map. A failed creation after others succeeded leaves those orders stored; the model only gives the 500 answer.
- Floating point: prices are integer cents, so `toFixed` formatting and float rounding of totals are not modelled.
- Lower-casing, `localeCompare` collation and UTF-16 code units. `toLowerCase` is an abstract parameter. String `<` and the sign of `localeCompare` are the code-point order.
- The ISO date rendering of the orders table (`toISOString().split("T")[0]`) is an abstract parameter. Time zones and `getTime` are not modelled.
- AddToCart.IsInCart: `isInCart` is state refreshed by an effect after the cart changes. The model reads the cart directly, so the render between a change and the effect is not modelled.
- CheckoutRoute.Post: elements of `items` are taken to be strings. Numbers or objects in the array are not modelled.
- CheckoutRoute.Post: a truthy non-array `items` and a falsy one are both folded into the 400 case by their shape only. The JavaScript truthiness of individual values is not modelled.
- Middleware.Decide: the protected route list is a parameter because the constants file is not part of this model.
- UsersTable.OnRoleChange: the `router.refresh()` after the update, and the effect that then copies the server's user list into the local state, are not modelled; the model keeps the locally updated list.
- UsersTable.OnRoleChange: `updateUserRole` is not part of this model. It is taken to return or throw. When it reports failure by returning null, the local update still happens, as in the code.
- The `getUserByEmail` query failure and the `findUnique` failure inside `createUser` are separate parameters. The model does not tie them to one database state.
- The orders server actions, books and genres server actions, seed scripts, static pages, dialogs and forms are pass-throughs or markup and are not modelled.
- Password hashing (`bcrypt`), email validation (`zod`) and session issuing are parameters.
