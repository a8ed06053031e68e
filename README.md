# Husky Hustle marketplace: the server's business layer

Husky Hustle is a small campus marketplace. Its Express server, `app.js`, keeps
three SQLite tables:

- Users: userId, username, password, email.
- Products: productId, name, description, price, category, image URL, seller, soldStatus.
- Transactions: confirmation number, buyer, seller, product id, date, price.

It also keeps one module-level variable, `user`. That variable is the session: the
username of the last login attempt, `'quinton'` at start-up and `null` after a logout.

Each HTTP handler runs presence checks, then one or two lookups, then a decision,
then at most two writes. This project models that layer as one Dafny object,
`Store.Server`. The object's fields are the three tables and the session, and it has
one method per handler. Each method's contract states:

- the handler's error replies, in the order the source checks them;
- the exact new state of the tables and the session.

The SQL statements are modelled as filters over sequences of rows, in module `Tables`.
`SELECT … WHERE x = ?` becomes `FirstIndex` or `Where` from `Seqs`. A column list
becomes `Select`. `LIKE` becomes a definition of SQLite's pattern matching in
`SqlLike`.

Confirmation numbers are a pure string builder (`Confirmation`). Its inputs are the
clock reading and the base-36 rendering of the random draw. It is paired with a
parser, so the format is proved rather than restated. The parser relies on reading
base-36 text back into a number (`Radix`).

Conventions of the model:

- A request field, and the session, are strings. The empty string stands for every
  falsy value the source tests: absent, `null`, `undefined` and `""`.
  `Tables.Present` is that truthiness test. `Server.LoggedIn` is `checkUserLoggedIn`,
  and `Present(productId)` is `validateTransactionInput`.
- Product ids are numbers. A request names a product by text, and matches the row
  whose id, written in decimal, equals that text (`Tables.Key`).
- When the buyer, seller or price lookup of a purchase misses, the source inserts
  NULL. The model stores `None` in those columns.
- The store invariant `Server.Valid` (`Tables.WellFormed`) requires:
  - generated ids are unique and below the next id to hand out;
  - every username is non-empty, since sign-up refuses an empty one.

  Because of the second point, an empty session matches no account, just as `null`
  matches no row in SQL.
- Replies are `Ok` (200), `BadRequest` (400) or `ServerError` (500). `NoReply` is
  for a handler whose promise is rejected before it answers.

## Model

| member | source | states |
|---|---|---|
| Store.Server.constructor | fp-partner-qpharr-yizeng86/app.js:23 | The server starts over the given tables with the session set to 'quinton'. |
| Store.Server.Logout | fp-partner-qpharr-yizeng86/app.js:32-36 | Logout clears the session, keeps the store invariant and answers 200 "successfully logged out". Afterwards LoggedIn() is false, so CheckLogin answers "User not logged in.". |
| Store.Server.CheckLogin | fp-partner-qpharr-yizeng86/app.js:45-52 | With a non-empty session it answers 200 with the session's username; otherwise 400 "User not logged in.". Nothing changes. |
| Store.Server.Login | fp-partner-qpharr-yizeng86/app.js:61-86 | The session becomes the submitted username whatever the outcome, so a refused login still leaves it set; the tables and the store invariant are untouched. A missing field gives "Missing username or password."; no matching row gives "Invalid username or password.". "success" comes exactly when both fields are given and some Users row has that username and that password. |
| Store.Server.LoggedIn | fp-partner-qpharr-yizeng86/app.js:97-104 | checkUserLoggedIn: a user is logged in exactly when the session holds a non-empty username. |
| Store.Server.ProcessTransaction | fp-partner-qpharr-yizeng86/app.js:97-152 | Errors come in the source's order: not logged in, then "Missing product ID.", then "Product already sold.". On any error both tables are unchanged. Success comes exactly when logged in, with a product id, and the product does not read as sold. The reply is the generated confirmation number. The transactions gain exactly one row carrying the buyer's userId and the product row's seller and price. The products become MarkSold of the old table. The product then reads as sold exactly when a row for it exists. The link "every sold product has a transaction" is preserved. |
| Store.Server.CompletePurchase | fp-partner-qpharr-yizeng86/app.js:137-151 | After the two checks: a product that reads as sold is refused with "Product already sold." and nothing changes. Otherwise the reply is the generated number, exactly one transaction with the looked-up buyer, seller and price is appended, the UPDATE is applied, and the sold-has-transaction link is kept. |
| Store.Server.InsertTransaction | fp-partner-qpharr-yizeng86/app.js:207-216 | It appends exactly the given transaction and marks every row with that product id sold, leaving the rest of the row and every other row as they were. It keeps the store invariant and the sold-has-transaction link. |
| Store.Server.GetPreviousTransactions | fp-partner-qpharr-yizeng86/app.js:249-282 | Not logged in gives "User not logged in."; a session with no Users row gives "User not found.". Otherwise the rows are exactly the (product, transaction) pairs whose transaction names that product and has the session user as buyer, with no duplicates. |
| Store.Server.GetProduct | fp-partner-qpharr-yizeng86/app.js:291-309 | It answers a row of the Products table with the requested id exactly when one exists; otherwise 400 "Product not found.". |
| Store.Server.SignUpNewUser | fp-partner-qpharr-yizeng86/app.js:314-331 | A missing username, password or confirmation gives "Missing Information in the form". Then a taken username is refused even when the passwords match, then differing passwords are refused. Only success adds a row: exactly one, carrying the next user id. Every error leaves the Users table as it was. |
| Store.Server.CreateNewAccount | fp-partner-qpharr-yizeng86/app.js:342-360 | The username check comes before the password comparison. Success appends exactly User(next id, username, password, email) and answers "Your Account has been created !". The new account can then log in with that password and its name reads as taken. |
| Store.Server.DisplayAllItems | fp-partner-qpharr-yizeng86/app.js:363-387 | The reply is the catalog for these parameters: a filter, when given, decides alone; otherwise a search term; otherwise every unsold product. A listing is in the reply exactly when it projects an unsold product the request admits. |
| Store.Server.Filter | fp-partner-qpharr-yizeng86/app.js:395-409 | The placeholder "category" lists every unsold product; any other category lists exactly the unsold products of that category. Both equal the catalog for that filter. |
| Store.Server.HandlePostItems | fp-partner-qpharr-yizeng86/app.js:412-434 | Any missing field gives "Missing Parameters!"; the placeholder category gives "Choosing A Category!"; rejected requests change nothing. Success comes exactly when all five fields are given, the category is real and the session user has an account. When all of that holds but the session has no account, there is no reply at all, as in PostItems. |
| Store.Server.PostItems | fp-partner-qpharr-yizeng86/app.js:445-457 | Without a Users row for the session there is no reply and no insert. Otherwise exactly one product is appended, with the next id, the given fields, the session user's id as seller and soldStatus 0. The reply is "Success !". The store invariant and the sold-has-transaction link are kept. |
| Store.Server.PostedItems | fp-partner-qpharr-yizeng86/app.js:462-475 | A session with no Users row gives 500 "Internal Server Error". Otherwise the reply is PostedBy of the user's id: one item per product row of that seller, sold or not, in table order, so equal-looking products give repeated items. |
| Confirmation.TimestampComponent | fp-partner-qpharr-yizeng86/app.js:233-235 | Date.now().toString(36).toUpperCase() is non-empty upper-case base-36 digits that read back as the timestamp. |
| Confirmation.GenerateConfirmationNumber | fp-partner-qpharr-yizeng86/app.js:222-238 | The number starts with "CONF-" and is at most the prefix, the timestamp component, the dash and 7 characters long; ConfirmationRoundTrip gives its full format. |
| Confirmation.Substring | fp-partner-qpharr-yizeng86/app.js:229 | substring(start, end) clamps to the text: the result has at most end - start characters and is the slice from start when start is inside the text. |
| Confirmation.RandomComponent | fp-partner-qpharr-yizeng86/app.js:227-230 | The random component has at most 7 characters. |
| Confirmation.ParseConfirmationNumber | fp-partner-qpharr-yizeng86/app.js:222-238 | This is the inverse that states the format: it accepts only "CONF-" followed by upper-case base-36 text, "-", and at most 7 upper-case base-36 characters. |
| Confirmation.RandomComponentDigits | fp-partner-qpharr-yizeng86/app.js:227-230 | For any rendering of a draw, the random component is upper-case base-36 digits: empty for the draw 0, otherwise the first (at most 7) digits after "0.", upper-cased. |
| Confirmation.ParseOfFormat | fp-partner-qpharr-yizeng86/app.js:238 | Any text of the form "CONF-" + digits + "-" + at most 7 digits parses back into its value and its random part. |
| Confirmation.ConfirmationRoundTrip | fp-partner-qpharr-yizeng86/app.js:222-238 | Parsing a generated number yields the timestamp and the random component, so every generated number has the documented format. |
| Confirmation.DistinctTimestampsDistinctNumbers | fp-partner-qpharr-yizeng86/app.js:232-238 | Numbers generated at different milliseconds differ, whatever the random draws. |
| Radix.ToRadix | fp-partner-qpharr-yizeng86/app.js:233-235 | toString(radix) of a natural number is non-empty lower-case digits of that radix, with a leading '0' only for zero. |
| Radix.ValueOfToRadix | fp-partner-qpharr-yizeng86/app.js:233-235 | Reading the rendering back gives the number rendered. |
| Radix.UpperKeepsDigits | fp-partner-qpharr-yizeng86/app.js:235 | toUpperCase turns lower-case digits into upper-case digits of the same value. |
| Radix.UpperRadixRoundTrip | fp-partner-qpharr-yizeng86/app.js:233-235 | The upper-cased timestamp text is upper-case digits whose value is the timestamp. |
| Radix.ToRadixInjective | fp-partner-qpharr-yizeng86/app.js:233-235 | Different numbers render differently. |
| SqlLike.Like | fp-partner-qpharr-yizeng86/app.js:371-373 | SQLite LIKE without ESCAPE: '%' matches any run of characters, '_' exactly one, and every other character itself with ASCII letters compared case-insensitively. |
| SqlLike.PercentMatchesAll | fp-partner-qpharr-yizeng86/app.js:371-373 | The pattern "%" matches every text. |
| SqlLike.LiteralPrefix | fp-partner-qpharr-yizeng86/app.js:371-373 | A wildcard-free term followed by "%" matches exactly the texts starting with the term, ignoring ASCII case. |
| SqlLike.LeadingPercent | fp-partner-qpharr-yizeng86/app.js:371-373 | A leading "%" lets the rest of the pattern match some suffix of the text, and only that. |
| SqlLike.SearchPatternMeansContains | fp-partner-qpharr-yizeng86/app.js:371-373 | "%term%" matches exactly the texts containing the term, ignoring ASCII case. |
| Tables.Present | fp-partner-qpharr-yizeng86/app.js:67 | A request field or the session counts as given when it is truthy, i.e. non-empty. The same test is applied at lines 98, 114, 320 and 419. |
| Tables.KeyInjective | fp-partner-qpharr-yizeng86/app.js:297-298 | Two products named by the same id text have the same id. |
| Tables.GetUserId | fp-partner-qpharr-yizeng86/app.js:181-185 | The lookup gives None exactly when no account has the username; otherwise it gives the userId of an account with that username. |
| Tables.ValidCredentials | fp-partner-qpharr-yizeng86/app.js:74-78 | The login query finds a row exactly when some account has both the username and the password. |
| Tables.UsernameTaken | fp-partner-qpharr-yizeng86/app.js:343-344 | The sign-up query returns rows exactly when some account has the username. |
| Tables.ProductWithKey | fp-partner-qpharr-yizeng86/app.js:297-298 | The lookup gives a row with the requested id when one exists, and None exactly when none does. |
| Tables.CheckIfProductSold | fp-partner-qpharr-yizeng86/app.js:159-163 | "Sold" means some row with that id has soldStatus 1. An id with no row is not sold. An id all of whose rows have soldStatus 1 is sold. |
| Tables.GetSellerId | fp-partner-qpharr-yizeng86/app.js:192-196 | The lookup gives None exactly when no row has the id; otherwise it gives the seller of a row with that id. |
| Tables.GetPrice | fp-partner-qpharr-yizeng86/app.js:170-174 | The lookup gives None exactly when no row has the id; otherwise it gives the price of a row with that id. |
| Tables.MarkSold | fp-partner-qpharr-yizeng86/app.js:215 | The UPDATE keeps the table's length. Rows with the id get soldStatus 1. Every other column and every other row is unchanged. |
| Tables.LookupsReadTheRow | fp-partner-qpharr-yizeng86/app.js:144-147 | With unique ids, the sold check, seller lookup and price lookup of a purchase all read the one row with the requested id. |
| Tables.SoldAfterMarkSold | fp-partner-qpharr-yizeng86/app.js:215 | After the UPDATE, the id reads as sold exactly when a row for it exists, so a second purchase is refused. |
| Tables.PurchaseKeepsSoldRecorded | fp-partner-qpharr-yizeng86/app.js:207-216 | The INSERT followed by the UPDATE keeps every sold product paired with a transaction that names it. |
| Tables.SearchHit | fp-partner-qpharr-yizeng86/app.js:371-373 | The search matches a product when its name or its description is LIKE '%term%'. |
| Tables.InCategory | fp-partner-qpharr-yizeng86/app.js:395-409 | The placeholder "category" admits every product; any other value admits only the products of exactly that category. |
| Tables.Admits | fp-partner-qpharr-yizeng86/app.js:366-382 | The mode selection: a filter, when given, decides alone; otherwise a search term, when given; otherwise every product. |
| Tables.Catalog | fp-partner-qpharr-yizeng86/app.js:363-409 | A listing is in the catalog exactly when it is the four-column projection of an unsold product the request's filter or search admits. |
| Tables.SearchIsSubstring | fp-partner-qpharr-yizeng86/app.js:371-373 | For a term without wildcards, the search matches exactly the products whose name or description contains the term, ignoring ASCII case. |
| Tables.MarkSoldDelists | fp-partner-qpharr-yizeng86/app.js:377-379 | After the purchase's UPDATE, the bought product appears in no catalog view. |
| Tables.PostedProductVisible | fp-partner-qpharr-yizeng86/app.js:450-453 | A posted product, with an id above every existing one, is what a lookup of its id returns. It is listed in the default view and under its category. |
| Tables.MarkSoldWithoutRow | fp-partner-qpharr-yizeng86/app.js:215 | An UPDATE naming an id that no row has leaves the Products table as it was. |
| Tables.PurchaseBeforePosting | fp-partner-qpharr-yizeng86/app.js:159-163 | A purchase may name an id with no product row yet. It passes the sold check, its UPDATE changes nothing, and its transaction is still recorded. A product posted later with that id is listed as unsold and already appears in the buyer's history. A second purchase of it passes the sold check too. |
| Tables.PostingKeepsInvariants | fp-partner-qpharr-yizeng86/app.js:450-453 | Appending an unsold product with the next id keeps ids unique and bounded, and keeps every sold product recorded. |
| Tables.SellerRows | fp-partner-qpharr-yizeng86/app.js:467-469 | The rows of WHERE sellerId = ? hold every product of that seller as often as the table does, sold or not, and nothing else. |
| Tables.PostedBy | fp-partner-qpharr-yizeng86/app.js:467-469 | One item per row of SellerRows, in order: the item at position i is the four-column projection of the i-th seller row. So the reply has exactly as many items as the seller has product rows, and an item is in it exactly when it projects a product of that seller. |
| Seqs.FirstIndex | fp-partner-qpharr-yizeng86/app.js:161 | db.get: the position of the first row satisfying the WHERE predicate, with no earlier row satisfying it; None exactly when no row does. |
| Seqs.Where | fp-partner-qpharr-yizeng86/app.js:269 | db.all: the result holds exactly the rows of the table that satisfy the predicate, and is no longer than the table. |
| Seqs.WhereMultiset | fp-partner-qpharr-yizeng86/app.js:469 | db.all keeps every matching row as often as the table holds it, and no other row. |
| Seqs.Select | fp-partner-qpharr-yizeng86/app.js:467-469 | A column list: one output row per input row, in order, each the projection of the row at the same position. |
| Seqs.Distinct | fp-partner-qpharr-yizeng86/app.js:267 | SELECT DISTINCT: the same rows as its input, each exactly once. |
| Tables.JoinRows | fp-partner-qpharr-yizeng86/app.js:267-269 | A row is in the join exactly when its product and its transaction are in their tables, the transaction names the product and its buyer is the given user. |
| Tables.PurchasesOf | fp-partner-qpharr-yizeng86/app.js:267-269 | SELECT DISTINCT gives the same rows as the join, without duplicates. |
| Tables.PurchaseInHistory | fp-partner-qpharr-yizeng86/app.js:267-269 | A purchase of an existing product appears in the buyer's history, paired with the product row as the UPDATE left it. |

## Left out

- Express routing, middleware, static file serving and `app.listen`: these are plumbing around the handlers.
- Opening and closing the database connection (`getDBConnection`): the tables are in-memory values, so the connection and its leak paths are gone.
- The 500 catch-all branches. They fire only on store or connection failures, which the in-memory tables do not have. This includes sign-up's misspelt "Internal Sever Error". The exception is posted-items' 500 on a session without an account, which is modelled.
- `Math.random()`, its floating-point base-36 rendering, `Date.now()` and `new Date().toISOString()` are parameters: a rendering string, a millisecond count and a date string. `IsRandomRendering` describes the renderings a draw can give.
- Concurrency: the model runs one request at a time, so it has no interleaving of the un-awaited calls and no double sale between the sold check and the UPDATE. It also has no fault between the INSERT and the UPDATE. A double sale is still possible one request at a time: buy an id that has no product row yet, then post a product that receives that id (Tables.PurchaseBeforePosting).
- Tables.SoldRecorded: the model proves only that every sold product has at least one transaction naming it. The converse does not hold of the code as written: a purchase of an id with no product row records a transaction, and a product later posted under that id is unsold. So does "at most one": that product can be bought again. Both follow from line 162 reading a missing row as not sold.
- Store.Server.CompletePurchase: the model assumes the INSERT of a transaction with NULL buyer, seller or price succeeds, i.e. that the Transactions table has no NOT NULL or foreign-key constraint on those columns. The schema is not part of this model.
- The un-awaited `createNewAccount`, `filter` and `postItems` calls are modelled as if they finished before the next request. When `postItems` throws on a session without an account, the model gives `NoReply` and stores nothing. That throw, and the second `send` in getPreviousTransactions, are unhandled promise rejections. Under Node's default since version 15 an unhandled rejection ends the process, so "no reply" can understate the outcome; the model does not model process termination.
- getPreviousTransactions: the model answers "User not logged in." and stops. The source does not return after that reply, so it goes on to send a second one. The source's "No transactions found." branch is unreachable, because the query always returns a list.
- Store.Server.GetPreviousTransactions: the reply's rows are modelled as (product, transaction) pairs. The column-name merge that `SELECT *` over the join performs, and the row order SQLite happens to choose, are not modelled.
- Store.Server.PostItems: its own contract does not state that the new product becomes visible. Tables.PostedProductVisible proves that for the appended row, for any category.
- Tables.Key: SQLite's numeric affinity is not modelled. It would also let id text such as "05" or "5.0" match product 5; the model matches only the canonical decimal text.
- Response status codes and content types are the `Reply` constructors; headers are not modelled.
- `parseInt` of a userId in postItems and posted-items is the identity on the integer column, so it is not modelled separately.
- The browser scripts under `public/` are not part of this model: they are DOM construction and fetch calls.
