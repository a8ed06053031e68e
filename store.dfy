/** The server's request handlers as methods of one object that holds the three
    tables and the process-wide session (the username of the last login attempt).
    Every handler checks its inputs in the source's order, reads, decides, and
    writes at most twice; the reply is 200 (Ok), 400 (BadRequest), 500 (ServerError)
    or none at all (NoReply). */
module Store {
  import opened Seqs
  import opened Confirmation
  import opened Tables

  datatype Reply<T> = Ok(value: T) | BadRequest(message: string) | ServerError(message: string) | NoReply

  const LoggedOut: string := "successfully logged out"
  const NotLoggedIn: string := "User not logged in."
  const MissingCredentials: string := "Missing username or password."
  const InvalidCredentials: string := "Invalid username or password."
  const LoginSucceeded: string := "success"
  const MissingProductId: string := "Missing product ID."
  const AlreadySold: string := "Product already sold."
  const UserNotFound: string := "User not found."
  const ProductNotFound: string := "Product not found."
  const MissingForm: string := "Missing Information in the form"
  const AccountCreated: string := "Your Account has been created !"
  const PasswordsDiffer: string := "Passwords don't match ! Enter again !"
  const UsernameExists: string := "UserName has existed ! Please enter a different one !"
  const ChooseCategory: string := "Choosing A Category!"
  const MissingParameters: string := "Missing Parameters!"
  const ItemPosted: string := "Success !"
  const InternalError: string := "Internal Server Error"
  /** The session's value when the server starts. */
  const InitialUser: string := "quinton"

  class Server {
    var users: seq<User>
    var products: seq<Product>
    var transactions: seq<Transaction>
    var nextUserId: nat
    var nextProductId: nat
    /** The module-level `user`; "" stands for null, undefined and the empty string. */
    var session: string

    ghost predicate Valid()
      reads this
    {
      WellFormed(users, products, nextUserId, nextProductId)
    }

    /** A server over the store's current contents, with the initial session. */
    constructor (users0: seq<User>, products0: seq<Product>, transactions0: seq<Transaction>,
                 nextUserId0: nat, nextProductId0: nat)
      requires WellFormed(users0, products0, nextUserId0, nextProductId0)
      ensures Valid()
      ensures users == users0 && products == products0 && transactions == transactions0
      ensures nextUserId == nextUserId0 && nextProductId == nextProductId0
      ensures session == InitialUser
    {
      users, products, transactions := users0, products0, transactions0;
      nextUserId, nextProductId := nextUserId0, nextProductId0;
      session := InitialUser;
    }

    /** checkUserLoggedIn: the session holds a truthy username. */
    predicate LoggedIn()
      reads this
    {
      Present(session)
    }

    // ------------------------------------------------------------ session

    method Logout() returns (r: Reply<string>)
      requires Valid()
      modifies this`session
      ensures Valid()
      ensures session == ""
      ensures r == Ok(LoggedOut)
    {
      session := "";
      r := Ok(LoggedOut);
    }

    method CheckLogin() returns (r: Reply<string>)
      ensures LoggedIn() ==> r == Ok(session)
      ensures !LoggedIn() ==> r == BadRequest(NotLoggedIn)
    {
      if LoggedIn() {
        r := Ok(session);
      } else {
        r := BadRequest(NotLoggedIn);
      }
    }

    /** The session takes the submitted username before anything is checked, so a
        refused login still leaves it set. */
    method Login(username: string, password: string) returns (r: Reply<string>)
      requires Valid()
      modifies this`session
      ensures Valid()
      ensures session == username
      ensures !Present(username) || !Present(password) ==> r == BadRequest(MissingCredentials)
      ensures Present(username) && Present(password) && !ValidCredentials(users, username, password)
        ==> r == BadRequest(InvalidCredentials)
      ensures r.Ok? <==> (Present(username) && Present(password)
        && exists u :: u in users && u.username == username && u.password == password)
      ensures r.Ok? ==> r.value == LoginSucceeded
    {
      session := username;
      if !Present(session) || !Present(password) {
        r := BadRequest(MissingCredentials);
        return;
      }
      if !ValidCredentials(users, session, password) {
        r := BadRequest(InvalidCredentials);
      } else {
        r := Ok(LoginSucceeded);
      }
    }

    // ------------------------------------------------------------ purchase

    /** Records the sale and marks the product sold: two writes, in this order. */
    method InsertTransaction(confirmationNumber: string, buyerId: Option<nat>, sellerId: Option<nat>,
                             productId: string, transactionDate: string, price: Option<string>)
      requires Valid()
      modifies this`transactions, this`products
      ensures Valid()
      ensures transactions == old(transactions)
        + [Transaction(confirmationNumber, buyerId, sellerId, productId, transactionDate, price)]
      ensures products == MarkSold(old(products), productId)
      ensures CheckIfProductSold(products, productId) <==> exists p :: p in old(products) && Key(p) == productId
      ensures old(SoldRecorded(products, transactions)) ==> SoldRecorded(products, transactions)
    {
      SoldAfterMarkSold(products, productId);
      var t := Transaction(confirmationNumber, buyerId, sellerId, productId, transactionDate, price);
      if SoldRecorded(products, transactions) {
        PurchaseKeepsSoldRecorded(products, transactions, t);
      }
      MarkSoldKeepsIds(products, productId, nextProductId);
      transactions := transactions + [t];
      products := MarkSold(products, productId);
    }

    /** processTransaction: login is checked first, then the product id, then the
        sold status; only a purchase that passes all three writes anything. The
        clock reading, the rendering of the random draw and the transaction date are
        parameters. */
    method ProcessTransaction(productId: string, timestamp: nat, rendering: string, transactionDate: string)
      returns (r: Reply<string>)
      requires Valid()
      modifies this`transactions, this`products
      ensures Valid()
      ensures !LoggedIn() ==> r == BadRequest(NotLoggedIn)
      ensures LoggedIn() && !Present(productId) ==> r == BadRequest(MissingProductId)
      ensures LoggedIn() && Present(productId) && old(CheckIfProductSold(products, productId))
        ==> r == BadRequest(AlreadySold)
      ensures r.Ok? <==> LoggedIn() && Present(productId) && !old(CheckIfProductSold(products, productId))
      ensures !r.Ok? ==> products == old(products) && transactions == old(transactions)
      ensures r.Ok? ==> r.value == GenerateConfirmationNumber(timestamp, rendering)
      ensures r.Ok? ==> transactions == old(transactions) + [Transaction(
        r.value, GetUserId(users, session), GetSellerId(old(products), productId), productId,
        transactionDate, GetPrice(old(products), productId))]
      ensures r.Ok? ==> products == MarkSold(old(products), productId)
      ensures r.Ok? ==> (CheckIfProductSold(products, productId) <==>
        exists p :: p in old(products) && Key(p) == productId)
      ensures old(SoldRecorded(products, transactions)) ==> SoldRecorded(products, transactions)
    {
      if !LoggedIn() {
        r := BadRequest(NotLoggedIn);
      } else if !Present(productId) {
        r := BadRequest(MissingProductId);
      } else {
        r := CompletePurchase(productId, timestamp, rendering, transactionDate);
      }
    }

    /** The part of processTransaction after the two checks: the confirmation number
        is generated, then a sold product is refused; otherwise the buyer, the seller
        and the price are looked up and the sale is recorded. */
    method CompletePurchase(productId: string, timestamp: nat, rendering: string, transactionDate: string)
      returns (r: Reply<string>)
      requires Valid()
      modifies this`transactions, this`products
      ensures Valid()
      ensures old(CheckIfProductSold(products, productId)) ==> r == BadRequest(AlreadySold)
      ensures r.Ok? <==> !old(CheckIfProductSold(products, productId))
      ensures !r.Ok? ==> products == old(products) && transactions == old(transactions)
      ensures r.Ok? ==> r.value == GenerateConfirmationNumber(timestamp, rendering)
      ensures r.Ok? ==> transactions == old(transactions) + [Transaction(
        r.value, GetUserId(users, session), GetSellerId(old(products), productId), productId,
        transactionDate, GetPrice(old(products), productId))]
      ensures r.Ok? ==> products == MarkSold(old(products), productId)
      ensures r.Ok? ==> (CheckIfProductSold(products, productId) <==>
        exists p :: p in old(products) && Key(p) == productId)
      ensures old(SoldRecorded(products, transactions)) ==> SoldRecorded(products, transactions)
    {
      var confirmationNumber := GenerateConfirmationNumber(timestamp, rendering);
      if CheckIfProductSold(products, productId) {
        r := BadRequest(AlreadySold);
        return;
      }
      var buyerId := GetUserId(users, session);
      var sellerId := GetSellerId(products, productId);
      var price := GetPrice(products, productId);
      InsertTransaction(confirmationNumber, buyerId, sellerId, productId, transactionDate, price);
      r := Ok(confirmationNumber);
    }

    /** The buyer's history: the distinct (product, transaction) pairs whose
        transaction names the product and the session user as buyer. */
    method GetPreviousTransactions() returns (r: Reply<seq<PurchaseRow>>)
      ensures !LoggedIn() ==> r == BadRequest(NotLoggedIn)
      ensures LoggedIn() && GetUserId(users, session).None? ==> r == BadRequest(UserNotFound)
      ensures r.Ok? <==> LoggedIn() && GetUserId(users, session).Some?
      ensures r.Ok? ==> forall row :: row in r.value <==>
        row.product in products && row.transaction in transactions
        && Joins(row.product, row.transaction, GetUserId(users, session).value)
      ensures r.Ok? ==> forall i, j :: 0 <= i < j < |r.value| ==> r.value[i] != r.value[j]
    {
      if !LoggedIn() {
        r := BadRequest(NotLoggedIn);
        return;
      }
      var userId := GetUserId(users, session);
      if userId.None? {
        r := BadRequest(UserNotFound);
        return;
      }
      r := Ok(PurchasesOf(products, transactions, userId.value));
    }

    method GetProduct(id: string) returns (r: Reply<Product>)
      ensures r.Ok? <==> exists p :: p in products && Key(p) == id
      ensures r.Ok? ==> r.value in products && Key(r.value) == id
      ensures !r.Ok? ==> r == BadRequest(ProductNotFound)
    {
      var product := ProductWithKey(products, id);
      if product.None? {
        r := BadRequest(ProductNotFound);
      } else {
        r := Ok(product.value);
      }
    }

    // ------------------------------------------------------------ accounts

    /** The sign-up endpoint: username, password and its confirmation must be given
        (the email is optional); the rest is CreateNewAccount. */
    method SignUpNewUser(username: string, password: string, recPassword: string, email: string)
      returns (r: Reply<string>)
      requires Valid()
      modifies this`users, this`nextUserId
      ensures Valid()
      ensures !Present(username) || !Present(password) || !Present(recPassword)
        ==> r == BadRequest(MissingForm)
      ensures (Present(username) && Present(password) && Present(recPassword)
        && old(UsernameTaken(users, username))) ==> r == BadRequest(UsernameExists)
      ensures (Present(username) && Present(password) && Present(recPassword)
        && !old(UsernameTaken(users, username)) && password != recPassword) ==> r == BadRequest(PasswordsDiffer)
      ensures r.Ok? <==> (Present(username) && Present(password) && Present(recPassword)
        && !old(UsernameTaken(users, username)) && password == recPassword)
      ensures !r.Ok? ==> users == old(users) && nextUserId == old(nextUserId)
      ensures r.Ok? ==> (r.value == AccountCreated
        && users == old(users) + [User(old(nextUserId), username, password, email)]
        && nextUserId == old(nextUserId) + 1)
    {
      if Present(username) && Present(password) && Present(recPassword) {
        r := CreateNewAccount(password, recPassword, email, username);
      } else {
        r := BadRequest(MissingForm);
      }
    }

    /** The username must be free, checked before the two passwords are compared; a
        new account can then log in with its password. */
    method CreateNewAccount(password: string, recPassword: string, email: string, userName: string)
      returns (r: Reply<string>)
      requires Valid() && Present(userName)
      modifies this`users, this`nextUserId
      ensures Valid()
      ensures old(UsernameTaken(users, userName)) ==> r == BadRequest(UsernameExists)
      ensures !old(UsernameTaken(users, userName)) && password != recPassword ==> r == BadRequest(PasswordsDiffer)
      ensures r.Ok? <==> !old(UsernameTaken(users, userName)) && password == recPassword
      ensures !r.Ok? ==> users == old(users) && nextUserId == old(nextUserId)
      ensures r.Ok? ==> (r.value == AccountCreated
        && users == old(users) + [User(old(nextUserId), userName, password, email)]
        && nextUserId == old(nextUserId) + 1)
      ensures r.Ok? ==> ValidCredentials(users, userName, password) && UsernameTaken(users, userName)
    {
      if UsernameTaken(users, userName) {
        r := BadRequest(UsernameExists);
        return;
      }
      if password != recPassword {
        r := BadRequest(PasswordsDiffer);
        return;
      }
      var account := User(nextUserId, userName, password, email);
      users := users + [account];
      nextUserId := nextUserId + 1;
      assert account in users;
      r := Ok(AccountCreated);
    }

    // ------------------------------------------------------------ catalog

    /** `filter`: the placeholder category lists every unsold product, any other
        category only the unsold products of exactly that category. */
    method Filter(category: string) returns (r: seq<Listing>)
      requires Present(category)
      ensures r == Catalog(products, category, "")
    {
      if category != CategorySentinel {
        r := Select(Where(products, (p: Product) => p.category == category && Unsold(p)), ToListing);
        WhereCongruent(products, (p: Product) => p.category == category && Unsold(p),
                       (p: Product) => Unsold(p) && Admits(category, "", p));
      } else {
        r := Select(Where(products, Unsold), ToListing);
        WhereCongruent(products, Unsold, (p: Product) => Unsold(p) && Admits(category, "", p));
      }
    }

    /** The display-all-Items endpoint: a filter takes precedence over a search term;
        with neither, every unsold product is listed. */
    method DisplayAllItems(filter: string, search: string) returns (r: seq<Listing>)
      ensures r == Catalog(products, filter, search)
      ensures forall l :: l in r <==>
        exists p :: p in products && Unsold(p) && Admits(filter, search, p) && ToListing(p) == l
    {
      if Present(filter) {
        r := Filter(filter);
        WhereCongruent(products, (p: Product) => Unsold(p) && Admits(filter, "", p),
                       (p: Product) => Unsold(p) && Admits(filter, search, p));
      } else if Present(search) {
        r := Select(Where(products, (p: Product) => SearchHit(search, p) && Unsold(p)), ToListing);
        WhereCongruent(products, (p: Product) => SearchHit(search, p) && Unsold(p),
                       (p: Product) => Unsold(p) && Admits(filter, search, p));
      } else {
        r := Select(Where(products, Unsold), ToListing);
        WhereCongruent(products, Unsold, (p: Product) => Unsold(p) && Admits(filter, search, p));
      }
    }

    // ------------------------------------------------------------ posting

    /** The postItems endpoint: all five fields must be given, and the category must
        be a real one rather than the selector's placeholder. */
    method HandlePostItems(name: string, description: string, price: string, category: string, imgLink: string)
      returns (r: Reply<string>)
      requires Valid()
      modifies this`products, this`nextProductId
      ensures Valid()
      ensures !(Present(name) && Present(description) && Present(price) && Present(category) && Present(imgLink))
        ==> r == BadRequest(MissingParameters)
      ensures (Present(name) && Present(description) && Present(price) && Present(category) && Present(imgLink)
        && category == CategorySentinel) ==> r == BadRequest(ChooseCategory)
      ensures (Present(name) && Present(description) && Present(price) && Present(category) && Present(imgLink)
        && category != CategorySentinel && GetUserId(users, session).None?) ==> r == NoReply
      ensures r.Ok? <==> (Present(name) && Present(description) && Present(price) && Present(category)
        && Present(imgLink) && category != CategorySentinel && GetUserId(users, session).Some?)
      ensures !r.Ok? ==> products == old(products) && nextProductId == old(nextProductId)
      ensures r.Ok? ==> (r.value == ItemPosted && nextProductId == old(nextProductId) + 1
        && products == old(products) + [Product(old(nextProductId), name, description, price, category,
                                                imgLink, GetUserId(users, session).value, 0)])
    {
      if Present(name) && Present(description) && Present(price) && Present(category) && Present(imgLink) {
        if category == CategorySentinel {
          r := BadRequest(ChooseCategory);
        } else {
          r := PostItems(name, description, price, category, imgLink);
        }
      } else {
        r := BadRequest(MissingParameters);
      }
    }

    /** `postItems`: the seller is the session user's account; without one the lookup
        throws inside the un-awaited call, so nothing is stored and nothing is sent.
        The appended row is the one PostedProductVisible shows a lookup of its id
        returns and the catalog lists. */
    method PostItems(name: string, description: string, price: string, category: string, imgLink: string)
      returns (r: Reply<string>)
      requires Valid()
      modifies this`products, this`nextProductId
      ensures Valid()
      ensures GetUserId(users, session).None? ==> r == NoReply
      ensures !r.Ok? ==> products == old(products) && nextProductId == old(nextProductId)
      ensures r.Ok? <==> GetUserId(users, session).Some?
      ensures r.Ok? ==> (r.value == ItemPosted && nextProductId == old(nextProductId) + 1
        && products == old(products) + [Product(old(nextProductId), name, description, price, category,
                                                imgLink, GetUserId(users, session).value, 0)])
      ensures old(SoldRecorded(products, transactions)) ==> SoldRecorded(products, transactions)
    {
      var sellerId := GetUserId(users, session);
      if sellerId.None? {
        r := NoReply;
        return;
      }
      var item := Product(nextProductId, name, description, price, category, imgLink, sellerId.value, 0);
      PostingKeepsInvariants(products, transactions, nextProductId, item);
      products := products + [item];
      nextProductId := nextProductId + 1;
      r := Ok(ItemPosted);
    }

    /** The seller's own listings, sold or not; a session without an account makes
        the lookup throw, which the handler answers with 500. */
    method PostedItems() returns (r: Reply<seq<PostedItem>>)
      ensures GetUserId(users, session).None? ==> r == ServerError(InternalError)
      ensures r.Ok? <==> GetUserId(users, session).Some?
      ensures r.Ok? ==> r.value == PostedBy(products, GetUserId(users, session).value)
      ensures r.Ok? ==> |r.value| == |SellerRows(products, GetUserId(users, session).value)|
      ensures r.Ok? ==> forall item :: item in r.value <==>
        exists p :: p in products && p.sellerId == GetUserId(users, session).value && ToPostedItem(p) == item
    {
      var sellerId := GetUserId(users, session);
      if sellerId.None? {
        r := ServerError(InternalError);
        return;
      }
      r := Ok(PostedBy(products, sellerId.value));
    }
  }
}
