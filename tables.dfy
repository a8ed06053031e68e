/** The three tables of the marketplace's store (Users, Products, Transactions) as
    sequences of rows in table order, and every query the request handlers run
    against them. Each query is a single-table equality or LIKE predicate, or the
    one join behind the purchase history. */
module Tables {
  import opened Seqs
  import opened Radix
  import opened SqlLike

  datatype User = User(userId: nat, username: string, password: string, email: string)

  /** soldStatus is 0 while listed and 1 once bought. */
  datatype Product = Product(
    productId: nat, productName: string, productDescription: string, price: string,
    category: string, productImageUrl: string, sellerId: nat, soldStatus: int)

  /** A buyer, seller or price lookup that missed is stored as NULL (None). */
  datatype Transaction = Transaction(
    confirmationNumber: string, buyerId: Option<nat>, sellerId: Option<nat>,
    productId: string, transactionDate: string, price: Option<string>)

  /** The columns the catalog returns. */
  datatype Listing = Listing(productName: string, productImageUrl: string, price: string, productId: nat)

  /** The columns the seller's own listing returns. */
  datatype PostedItem = PostedItem(
    productImageUrl: string, productDescription: string, price: string, productName: string)

  /** One row of the purchase-history join. */
  datatype PurchaseRow = PurchaseRow(product: Product, transaction: Transaction)

  /** The placeholder value of the category selector, meaning "no category chosen". */
  const CategorySentinel: string := "category"

  /** A request field counts as given when it is truthy: neither absent nor empty. */
  predicate Present(field: string)
  {
    field != ""
  }

  /** The text under which a request names a product: its id in decimal. */
  function Key(p: Product): string
  {
    ToRadix(p.productId, 10)
  }

  lemma KeyInjective(p: Product, q: Product)
    requires Key(p) == Key(q)
    ensures p.productId == q.productId
  {
    ToRadixInjective(p.productId, q.productId, 10);
  }

  // ---------------------------------------------------------------- table invariants

  predicate UniqueProductIds(products: seq<Product>)
  {
    forall i, j :: 0 <= i < j < |products| ==> products[i].productId != products[j].productId
  }

  /** Generated ids are unique and below the next id to hand out, and every account
      has a non-empty username (sign-up refuses an empty one). */
  predicate WellFormed(users: seq<User>, products: seq<Product>, nextUserId: nat, nextProductId: nat)
  {
    && (forall i, j :: 0 <= i < j < |users| ==> users[i].userId != users[j].userId)
    && (forall u :: u in users ==> u.userId < nextUserId && u.username != "")
    && UniqueProductIds(products)
    && (forall p :: p in products ==> p.productId < nextProductId)
  }

  /** The intended link between the two tables: every sold product has a transaction
      recording its sale. */
  predicate SoldRecorded(products: seq<Product>, transactions: seq<Transaction>)
  {
    forall p :: p in products && p.soldStatus == 1 ==>
      exists t :: t in transactions && t.productId == Key(p)
  }

  // ---------------------------------------------------------------- Users queries

  /** `SELECT userId FROM Users WHERE username = ?`, first row: the buyer lookup of a
      purchase, the seller lookup of a posting, the user lookup of the history. */
  function GetUserId(users: seq<User>, username: string): (r: Option<nat>)
    ensures r.None? <==> forall u :: u in users ==> u.username != username
    ensures r.Some? ==> exists u :: u in users && u.username == username && u.userId == r.value
  {
    match FirstIndex(users, (u: User) => u.username == username)
    case None => None
    case Some(i) => Some(users[i].userId)
  }

  /** Login's `SELECT * FROM Users WHERE username = ? AND password = ?` finds a row. */
  function ValidCredentials(users: seq<User>, username: string, password: string): (found: bool)
    ensures found <==> exists u :: u in users && u.username == username && u.password == password
  {
    FirstIndex(users, (u: User) => u.username == username && u.password == password).Some?
  }

  /** Sign-up's `SELECT username FROM Users WHERE username = ?` returns some row. */
  function UsernameTaken(users: seq<User>, username: string): (taken: bool)
    ensures taken <==> exists u :: u in users && u.username == username
  {
    var matches := Where(users, (u: User) => u.username == username);
    assert matches != [] ==> matches[0] in matches;
    |matches| != 0
  }

  // ---------------------------------------------------------------- Products queries

  /** `SELECT * FROM Products WHERE productId = ?`, first row. */
  function ProductWithKey(products: seq<Product>, key: string): (r: Option<Product>)
    ensures r.None? <==> forall p :: p in products ==> Key(p) != key
    ensures r.Some? ==> r.value in products && Key(r.value) == key
  {
    match FirstIndex(products, (p: Product) => Key(p) == key)
    case None => None
    case Some(i) => Some(products[i])
  }

  /** checkIfProductSold: true when the product row has soldStatus 1; a product id
      with no row counts as not sold. */
  function CheckIfProductSold(products: seq<Product>, key: string): (sold: bool)
    ensures sold ==> exists p :: p in products && Key(p) == key && p.soldStatus == 1
    ensures (forall p :: p in products ==> Key(p) != key) ==> !sold
    ensures ((exists p :: p in products && Key(p) == key)
             && (forall p :: p in products && Key(p) == key ==> p.soldStatus == 1)) ==> sold
  {
    match ProductWithKey(products, key)
    case Some(p) => p.soldStatus == 1
    case None => false
  }

  /** getSellerId: the seller of the product row; None (NULL) when there is no row. */
  function GetSellerId(products: seq<Product>, key: string): (r: Option<nat>)
    ensures r.None? <==> forall p :: p in products ==> Key(p) != key
    ensures r.Some? ==> exists p :: p in products && Key(p) == key && p.sellerId == r.value
  {
    match ProductWithKey(products, key)
    case Some(p) => Some(p.sellerId)
    case None => None
  }

  /** getPrice: the price of the product row; None (NULL) when there is no row. */
  function GetPrice(products: seq<Product>, key: string): (r: Option<string>)
    ensures r.None? <==> forall p :: p in products ==> Key(p) != key
    ensures r.Some? ==> exists p :: p in products && Key(p) == key && p.price == r.value
  {
    match ProductWithKey(products, key)
    case Some(p) => Some(p.price)
    case None => None
  }

  /** `UPDATE Products SET soldStatus = 1 WHERE productId = ?`: every row with that id
      gets soldStatus 1, and nothing else in the table changes. */
  function MarkSold(products: seq<Product>, key: string): (r: seq<Product>)
    ensures |r| == |products|
    ensures forall i :: 0 <= i < |products| ==>
      r[i].(soldStatus := products[i].soldStatus) == products[i]
      && r[i].soldStatus == (if Key(products[i]) == key then 1 else products[i].soldStatus)
  {
    seq(|products|, i requires 0 <= i < |products| =>
      if Key(products[i]) == key then products[i].(soldStatus := 1) else products[i])
  }

  /** The UPDATE changes no id, so it keeps ids unique and below the next one. */
  lemma MarkSoldKeepsIds(products: seq<Product>, key: string, nextProductId: nat)
    requires UniqueProductIds(products) && forall p :: p in products ==> p.productId < nextProductId
    ensures UniqueProductIds(MarkSold(products, key))
    ensures forall p :: p in MarkSold(products, key) ==> p.productId < nextProductId
  {
    var after := MarkSold(products, key);
    assert forall i :: 0 <= i < |after| ==> after[i].productId == products[i].productId;
    forall p | p in after ensures p.productId < nextProductId {
      var i :| 0 <= i < |after| && after[i] == p;
      assert products[i] in products;
    }
  }

  /** With unique ids, the lookups of a purchase all read the one row carrying the
      requested id, so the transaction copies that row's seller and price. */
  lemma LookupsReadTheRow(products: seq<Product>, p: Product)
    requires UniqueProductIds(products)
    requires p in products
    ensures ProductWithKey(products, Key(p)) == Some(p)
    ensures GetSellerId(products, Key(p)) == Some(p.sellerId)
    ensures GetPrice(products, Key(p)) == Some(p.price)
    ensures CheckIfProductSold(products, Key(p)) == (p.soldStatus == 1)
  {
    var q := ProductWithKey(products, Key(p)).value;
    KeyInjective(p, q);
  }

  /** After the UPDATE, a product id that has a row reads as sold, so a second purchase
      of it is refused; an id without a row still reads as not sold. */
  lemma SoldAfterMarkSold(products: seq<Product>, key: string)
    ensures CheckIfProductSold(MarkSold(products, key), key) <==> exists p :: p in products && Key(p) == key
  {
    var after := MarkSold(products, key);
    forall q | q in after && Key(q) == key ensures q.soldStatus == 1 {
      var i :| 0 <= i < |after| && after[i] == q;
      assert Key(products[i]) == Key(q);
    }
    if exists p :: p in products && Key(p) == key {
      var p :| p in products && Key(p) == key;
      var i :| 0 <= i < |products| && products[i] == p;
      assert Key(after[i]) == Key(p);
      assert after[i] in after;
    } else {
      forall q | q in after ensures Key(q) != key {
        var i :| 0 <= i < |after| && after[i] == q;
        assert Key(products[i]) == Key(q);
        assert products[i] in products;
      }
    }
  }

  /** The UPDATE and the appended transaction keep every sold product recorded. */
  lemma PurchaseKeepsSoldRecorded(products: seq<Product>, transactions: seq<Transaction>, t: Transaction)
    requires SoldRecorded(products, transactions)
    ensures SoldRecorded(MarkSold(products, t.productId), transactions + [t])
  {
    var after := MarkSold(products, t.productId);
    forall p | p in after && p.soldStatus == 1
      ensures exists t' :: t' in transactions + [t] && t'.productId == Key(p)
    {
      var i :| 0 <= i < |after| && after[i] == p;
      assert Key(p) == Key(products[i]);
      if Key(p) != t.productId {
        assert products[i] == p;
        var t' :| t' in transactions && t'.productId == Key(p);
        assert t' in transactions + [t];
      } else {
        assert t in transactions + [t];
      }
    }
  }

  // ---------------------------------------------------------------- catalog

  function ToListing(p: Product): Listing
  {
    Listing(p.productName, p.productImageUrl, p.price, p.productId)
  }

  predicate Unsold(p: Product)
  {
    p.soldStatus == 0
  }

  /** The search bar's predicate: name or description LIKE '%term%'. */
  predicate SearchHit(term: string, p: Product)
  {
    Like("%" + term + "%", p.productName) || Like("%" + term + "%", p.productDescription)
  }

  /** The category filter: the placeholder admits every product, any other value
      only the products of exactly that category. */
  predicate InCategory(category: string, p: Product)
  {
    category == CategorySentinel || p.category == category
  }

  /** Which products a catalog request asks for: a filter, when given, decides alone;
      otherwise a search term, when given; otherwise every product. */
  predicate Admits(filter: string, search: string, p: Product)
  {
    if Present(filter) then InCategory(filter, p)
    else !Present(search) || SearchHit(search, p)
  }

  /** The catalog a request with these query parameters receives: the listings of
      the unsold products it admits, in table order. */
  function Catalog(products: seq<Product>, filter: string, search: string): (r: seq<Listing>)
    ensures forall l :: l in r <==>
      exists p :: p in products && Unsold(p) && Admits(filter, search, p) && ToListing(p) == l
  {
    Select(Where(products, (p: Product) => Unsold(p) && Admits(filter, search, p)), ToListing)
  }

  /** For a term without LIKE wildcards the search is a case-insensitive substring
      test on the name and the description. */
  lemma SearchIsSubstring(term: string, p: Product)
    requires NoWildcards(term)
    ensures SearchHit(term, p) <==>
      ContainsFold(p.productName, term) || ContainsFold(p.productDescription, term)
  {
    SearchPatternMeansContains(term, p.productName);
    SearchPatternMeansContains(term, p.productDescription);
  }

  /** A bought product disappears from every catalog view. */
  lemma MarkSoldDelists(products: seq<Product>, key: string, filter: string, search: string)
    ensures forall l :: l in Catalog(MarkSold(products, key), filter, search) ==> ToRadix(l.productId, 10) != key
  {
    var after := MarkSold(products, key);
    forall l | l in Catalog(after, filter, search) ensures ToRadix(l.productId, 10) != key {
      var p :| p in after && Unsold(p) && Admits(filter, search, p) && ToListing(p) == l;
      var i :| 0 <= i < |after| && after[i] == p;
      assert Key(products[i]) == Key(p);
    }
  }

  /** A newly posted product, with an id above every existing one, is what a lookup
      of its id returns, and it is listed in the default view and under its category. */
  lemma PostedProductVisible(products: seq<Product>, p: Product)
    requires forall q :: q in products ==> q.productId < p.productId
    requires Unsold(p)
    ensures ProductWithKey(products + [p], Key(p)) == Some(p)
    ensures ToListing(p) in Catalog(products + [p], "", "")
    ensures ToListing(p) in Catalog(products + [p], p.category, "")
  {
    var found := ProductWithKey(products + [p], Key(p)).value;
    KeyInjective(found, p);
  }

  /** A purchase may name an id that has no product row yet: it passes the sold
      check, its UPDATE changes nothing, and its transaction is still recorded. Once
      a product with that id is posted, it is listed as unsold, it already appears in
      the buyer's history, and a second purchase of it passes the sold check too. */
  lemma PurchaseBeforePosting(products: seq<Product>, transactions: seq<Transaction>, t: Transaction, p: Product)
    requires forall q :: q in products ==> Key(q) != t.productId && q.productId < p.productId
    requires Key(p) == t.productId && Unsold(p)
    ensures !CheckIfProductSold(products, t.productId)
    ensures MarkSold(products, t.productId) == products
    ensures ToListing(p) in Catalog(products + [p], "", "")
    ensures t.buyerId.Some? ==>
      PurchaseRow(p, t) in PurchasesOf(products + [p], transactions + [t], t.buyerId.value)
    ensures !CheckIfProductSold(products + [p], t.productId)
  {
    MarkSoldWithoutRow(products, t.productId);
    assert forall q :: q in products ==> q.productId < p.productId;
    PostedProductVisible(products, p);
    if t.buyerId.Some? {
      assert PurchaseRow(p, t) in PurchasesOf(products + [p], transactions + [t], t.buyerId.value) by {
        assert p in products + [p];
        assert t in transactions + [t];
      }
    }
  }

  /** An UPDATE naming an id that no row has leaves the table as it was. */
  lemma MarkSoldWithoutRow(products: seq<Product>, key: string)
    requires forall q :: q in products ==> Key(q) != key
    ensures MarkSold(products, key) == products
  {
    var after := MarkSold(products, key);
    forall i | 0 <= i < |after| ensures after[i] == products[i] {
      assert products[i] in products;
    }
  }

  /** Appending an unsold product with a fresh id keeps the ids unique and below the
      next id, and keeps every sold product recorded. */
  lemma PostingKeepsInvariants(products: seq<Product>, transactions: seq<Transaction>, nextProductId: nat, p: Product)
    requires UniqueProductIds(products) && forall q :: q in products ==> q.productId < nextProductId
    requires p.productId == nextProductId && Unsold(p)
    ensures UniqueProductIds(products + [p])
    ensures forall q :: q in products + [p] ==> q.productId < nextProductId + 1
    ensures SoldRecorded(products, transactions) ==> SoldRecorded(products + [p], transactions)
  {
    var after := products + [p];
    forall i, j | 0 <= i < j < |after| ensures after[i].productId != after[j].productId {
      if j == |products| {
        assert after[i] in products;
      }
    }
  }

  // ---------------------------------------------------------------- seller's own listings

  function ToPostedItem(p: Product): PostedItem
  {
    PostedItem(p.productImageUrl, p.productDescription, p.price, p.productName)
  }

  /** The rows of `WHERE sellerId = ?`: every product of the seller, as often as the
      table holds it, sold or not, in table order. */
  function SellerRows(products: seq<Product>, sellerId: nat): (r: seq<Product>)
    ensures forall p :: multiset(r)[p] == (if p.sellerId == sellerId then multiset(products)[p] else 0)
  {
    WhereMultiset(products, (p: Product) => p.sellerId == sellerId);
    Where(products, (p: Product) => p.sellerId == sellerId)
  }

  /** `SELECT productImageUrl, productDescription, price, productName FROM Products
      WHERE sellerId = ?`: one item per row of the seller, so equal-looking products
      of the seller give equal items, each kept. */
  function PostedBy(products: seq<Product>, sellerId: nat): (r: seq<PostedItem>)
    ensures |r| == |SellerRows(products, sellerId)|
    ensures forall i :: 0 <= i < |r| ==> r[i] == ToPostedItem(SellerRows(products, sellerId)[i])
    ensures forall item :: item in r <==>
      exists p :: p in products && p.sellerId == sellerId && ToPostedItem(p) == item
  {
    Select(SellerRows(products, sellerId), ToPostedItem)
  }

  // ---------------------------------------------------------------- purchase history

  /** The join condition of the history query. */
  predicate Joins(p: Product, t: Transaction, buyerId: nat)
  {
    t.productId == Key(p) && t.buyerId == Some(buyerId)
  }

  /** `FROM Products, Transactions WHERE Transactions.productId = Products.productId
      AND buyerId = ?`, products as the outer loop. */
  function JoinRows(products: seq<Product>, transactions: seq<Transaction>, buyerId: nat): (r: seq<PurchaseRow>)
    ensures forall row :: row in r <==>
      row.product in products && row.transaction in transactions && Joins(row.product, row.transaction, buyerId)
  {
    if products == [] then []
    else
      var p := products[0];
      Select(Where(transactions, (t: Transaction) => Joins(p, t, buyerId)), (t: Transaction) => PurchaseRow(p, t))
      + JoinRows(products[1..], transactions, buyerId)
  }

  /** The SELECT DISTINCT of that join: the history of one buyer. */
  function PurchasesOf(products: seq<Product>, transactions: seq<Transaction>, buyerId: nat): (r: seq<PurchaseRow>)
    ensures forall row :: row in r <==>
      row.product in products && row.transaction in transactions && Joins(row.product, row.transaction, buyerId)
    ensures forall i, j :: 0 <= i < j < |r| ==> r[i] != r[j]
  {
    Distinct(JoinRows(products, transactions, buyerId))
  }

  /** A purchase of an existing product shows up in the buyer's history, paired with
      the product row as the UPDATE left it. */
  lemma PurchaseInHistory(products: seq<Product>, transactions: seq<Transaction>, t: Transaction, p: Product, buyerId: nat)
    requires p in products && Key(p) == t.productId && t.buyerId == Some(buyerId)
    ensures PurchaseRow(p.(soldStatus := 1), t) in PurchasesOf(MarkSold(products, t.productId), transactions + [t], buyerId)
  {
    var after := MarkSold(products, t.productId);
    var i :| 0 <= i < |products| && products[i] == p;
    assert after[i] == p.(soldStatus := 1);
    assert after[i] in after;
    assert t in transactions + [t];
  }
}
