/**
 * The product catalog of the backend (be/app/main.py) as values: the three
 * tables (products, images, price_history), the read-only endpoints as
 * queries over them, and the writing endpoints as functions from the old
 * tables to the new ones. The class in catalog_store.dfy is specified by
 * these functions; the lemmas in catalog_laws.dfy state what the endpoints
 * promise.
 */
module Catalog {

  /** An endpoint's outcome: a value, or the HTTP 404 the endpoint raises. */
  datatype Result<T> = Ok(value: T) | NotFound

  /** A nullable column. */
  datatype Option<T> = Some(value: T) | None

  /** A row of `products`, without its key. */
  datatype Product = Product(name: string, description: string, price: int)

  /** A row of `images`; `id` is assigned by the database, and `productId`
      is the nullable foreign key to `products`. */
  datatype Image = Image(id: int, url: string, productId: Option<int>)

  /** A row of `price_history`; `id` is assigned by the database, and
      `productId` is the nullable foreign key to `products`. */
  datatype PriceChange = PriceChange(id: int, productId: Option<int>, price: int)

  /** The `ImageResponse` projection of an image row. */
  datatype ImageView = ImageView(id: int, url: string)

  /** The `ProductResponse` body: what the endpoints return, and what
      `create_product` accepts as its request. */
  datatype ProductView = ProductView(id: int, name: string, description: string, price: int, images: seq<ImageView>)

  /** The whole store. The two counters stand for the database's
      auto-increment keys of `images` and `price_history`. */
  datatype Tables = Tables(
    products: map<int, Product>,
    images: seq<Image>,
    history: seq<PriceChange>,
    nextImageId: int,
    nextHistoryId: int)

  /** The store before any request. */
  function Empty(): (t: Tables)
    ensures Valid(t) && t.products == map[] && t.images == [] && t.history == []
  {
    Tables(map[], [], [], 1, 1)
  }

  function ImageOwner(x: Image): Option<int> { x.productId }

  function ImageKey(x: Image): int { x.id }

  function ChangeOwner(x: PriceChange): Option<int> { x.productId }

  function ChangeKey(x: PriceChange): int { x.id }

  /** The rows of `rows` whose `key` is `k`, in stored order: the
      `filter(... == k)` of a query. */
  function Select<T(!new), K(==)>(rows: seq<T>, key: T -> K, k: K): (r: seq<T>)
    ensures |r| <= |rows|
    ensures forall x :: x in r <==> x in rows && key(x) == k
  {
    if rows == [] then []
    else if key(rows[0]) == k then [rows[0]] + Select(rows[1..], key, k)
    else Select(rows[1..], key, k)
  }

  /** Rows numbered by a database key: strictly increasing in stored
      order and all below the next key to hand out. */
  ghost predicate Numbered<T>(rows: seq<T>, id: T -> int, next: int)
  {
    && (forall i, j :: 0 <= i < j < |rows| ==> id(rows[i]) < id(rows[j]))
    && (forall i :: 0 <= i < |rows| ==> id(rows[i]) < next)
  }

  /** Every image and history row that has a `product_id` points at a
      stored product. */
  ghost predicate Linked(t: Tables)
  {
    && (forall x :: x in t.images && x.productId.Some? ==> x.productId.value in t.products)
    && (forall x :: x in t.history && x.productId.Some? ==> x.productId.value in t.products)
  }

  /** The invariant every endpoint keeps: image and history keys are
      unique and in insertion order, and no row points at a missing
      product. */
  ghost predicate Valid(t: Tables)
  {
    Numbered(t.images, ImageKey, t.nextImageId) && Numbered(t.history, ChangeKey, t.nextHistoryId) && Linked(t)
  }

  /** The `ImageResponse` list built from image rows, one per row in
      order. */
  function ImageViews(rows: seq<Image>): (r: seq<ImageView>)
    ensures |r| == |rows|
    ensures forall i {:trigger r[i]} :: 0 <= i < |rows| ==> r[i].id == rows[i].id && r[i].url == rows[i].url
  {
    seq(|rows|, i requires 0 <= i < |rows| => ImageView(rows[i].id, rows[i].url))
  }

  /** The response for a stored product: its fields, and one view per image
      row whose `product_id` is its id. */
  function View(t: Tables, id: int): (v: ProductView)
    requires id in t.products
    ensures v.id == id
    ensures v.name == t.products[id].name && v.description == t.products[id].description
    ensures v.price == t.products[id].price
    ensures |v.images| == |Select(t.images, ImageOwner, Some(id))|
    ensures forall w :: w in v.images <==>
      exists x :: x in t.images && x.productId == Some(id) && w == ImageView(x.id, x.url)
  {
    var p := t.products[id];
    var rows := Select(t.images, ImageOwner, Some(id));
    ImageViewsMembers(rows);
    ProductView(id, p.name, p.description, p.price, ImageViews(rows))
  }

  // ---------------------------------------------------------------------
  // Read-only endpoints

  /** `get_product`: 404 exactly when no product has the id; otherwise the
      product's fields and one view per image row that points at it. */
  function GetProduct(t: Tables, id: int): (r: Result<ProductView>)
    ensures r.NotFound? <==> id !in t.products
    ensures r.Ok? ==>
      && r.value.id == id
      && r.value.name == t.products[id].name
      && r.value.description == t.products[id].description
      && r.value.price == t.products[id].price
    ensures r.Ok? ==> |r.value.images| == |Select(t.images, ImageOwner, Some(id))|
    ensures r.Ok? ==> forall v :: v in r.value.images <==>
      exists x :: x in t.images && x.productId == Some(id) && v == ImageView(x.id, x.url)
  {
    if id in t.products then Ok(View(t, id)) else NotFound
  }

  lemma ImageViewsMembers(rows: seq<Image>)
    ensures forall v :: v in ImageViews(rows) <==> exists x :: x in rows && v == ImageView(x.id, x.url)
  {
    var r := ImageViews(rows);
    forall v | v in r ensures exists x :: x in rows && v == ImageView(x.id, x.url) {
      var i :| 0 <= i < |r| && r[i] == v;
      assert rows[i] in rows;
    }
    forall v | exists x :: x in rows && v == ImageView(x.id, x.url) ensures v in r {
      var x :| x in rows && v == ImageView(x.id, x.url);
      var i :| 0 <= i < |rows| && rows[i] == x;
      assert r[i] == v;
    }
  }

  /** `get_products`: every stored product, each as `get_product` returns
      it. The query has no ORDER BY, so the result is a set. */
  function GetProducts(t: Tables): (r: set<ProductView>)
    ensures forall v :: v in r ==> v.id in t.products && GetProduct(t, v.id) == Ok(v)
    ensures forall id :: id in t.products ==> Ok(View(t, id)) == GetProduct(t, id) && View(t, id) in r
  {
    set id | id in t.products.Keys :: View(t, id)
  }

  /** `get_product_price_history`: the history rows of the id in stored
      order; 404 exactly when there are none, whether or not the product
      exists. */
  function GetPriceHistory(t: Tables, id: int): (r: Result<seq<PriceChange>>)
    ensures r.NotFound? <==> forall x :: x in t.history ==> x.productId != Some(id)
    ensures r.Ok? ==> forall x :: x in r.value <==> x in t.history && x.productId == Some(id)
  {
    var rows := Select(t.history, ChangeOwner, Some(id));
    if rows == [] then NotFound
    else
      assert rows[0] in rows;
      Ok(rows)
  }

  // ---------------------------------------------------------------------
  // Writing endpoints

  /** The image rows `create_product` inserts: the request's urls in order,
      owned by the new product, keyed from `first` on. Request image ids are
      not used. */
  function NewImages(images: seq<ImageView>, owner: int, first: int): (r: seq<Image>)
    ensures |r| == |images|
    ensures forall i {:trigger r[i]} :: 0 <= i < |r| ==> r[i] == Image(first + i, images[i].url, Some(owner))
  {
    seq(|images|, i requires 0 <= i < |images| => Image(first + i, images[i].url, Some(owner)))
  }

  /** `create_product`: store the product under the request's id, then one
      image row per request image; answer with the stored product. The id
      must be new (otherwise the database's key constraint fails). */
  function CreateProduct(t: Tables, p: ProductView): (r: (Tables, ProductView))
    requires p.id !in t.products
    ensures Valid(t) ==> Valid(r.0)
  {
    WithProductValid(t, p);
    var t' := WithProduct(t, p);
    (t', View(t', p.id))
  }

  /** The tables after `create_product`'s two inserts: one product more,
      the old image rows followed by the new ones, history untouched. */
  function WithProduct(t: Tables, p: ProductView): (r: Tables)
    ensures r.products.Keys == t.products.Keys + {p.id}
    ensures r.products[p.id] == Product(p.name, p.description, p.price)
    ensures forall id :: id in t.products && id != p.id ==> r.products[id] == t.products[id]
    ensures |r.images| == |t.images| + |p.images| && r.images[..|t.images|] == t.images
    ensures r.history == t.history && r.nextHistoryId == t.nextHistoryId
  {
    t.(products := t.products[p.id := Product(p.name, p.description, p.price)],
       images := t.images + NewImages(p.images, p.id, t.nextImageId),
       nextImageId := t.nextImageId + |p.images|)
  }

  /** The inserted rows get keys above every stored key and point at the
      new product, so the invariant survives. */
  lemma WithProductValid(t: Tables, p: ProductView)
    requires p.id !in t.products
    ensures Valid(t) ==> Valid(WithProduct(t, p))
  {
    if Valid(t) {
      var t' := WithProduct(t, p);
      var added := NewImages(p.images, p.id, t.nextImageId);
      NewImagesNumbered(p.images, p.id, t.nextImageId);
      NumberedAppend(t.images, added, ImageKey, t.nextImageId, t'.nextImageId);
      forall x | x in t'.images && x.productId.Some? ensures x.productId.value in t'.products {
        if x !in t.images {
          assert x in added;
        }
      }
    }
  }

  lemma NewImagesNumbered(images: seq<ImageView>, owner: int, first: int)
    ensures var r := NewImages(images, owner, first);
      && Numbered(r, ImageKey, first + |images|)
      && forall x :: x in r ==> first <= x.id
  {
  }

  /** Rows numbered below `mid`, followed by rows keyed from `mid` on, are
      numbered. */
  lemma NumberedAppend<T(!new)>(a: seq<T>, b: seq<T>, id: T -> int, mid: int, next: int)
    requires Numbered(a, id, mid) && Numbered(b, id, next) && mid <= next
    requires forall y :: y in b ==> mid <= id(y)
    ensures Numbered(a + b, id, next)
  {
    var r := a + b;
    forall i, j | 0 <= i < j < |r| ensures id(r[i]) < id(r[j]) {
      if j >= |a| && i < |a| {
        assert r[j] == b[j - |a|] && b[j - |a|] in b;
      }
    }
  }

  /** `update_product_price`: 404 for an unknown id; otherwise overwrite the
      price and, only if it differs from the old one, append a history row. */
  function UpdateProductPrice(t: Tables, id: int, newPrice: int): (r: (Tables, Result<ProductView>))
    ensures Valid(t) ==> Valid(r.0)
  {
    if id !in t.products then (t, NotFound)
    else
      var oldPrice := t.products[id].price;
      var t1 := t.(products := t.products[id := t.products[id].(price := newPrice)]);
      var t2 := if oldPrice != newPrice
        then t1.(history := t1.history + [PriceChange(t.nextHistoryId, Some(id), newPrice)],
                 nextHistoryId := t.nextHistoryId + 1)
        else t1;
      (t2, Ok(View(t2, id)))
  }

  /** What the ORM does to `images` when a product is deleted: the
      relationship has no delete cascade, so every row that pointed at the
      product stays, with its `product_id` set to null. */
  function UnlinkImages(rows: seq<Image>, id: int): (r: seq<Image>)
    ensures |r| == |rows|
    ensures forall i {:trigger r[i]} :: 0 <= i < |rows| ==>
      && r[i].id == rows[i].id && r[i].url == rows[i].url
      && (rows[i].productId != Some(id) ==> r[i] == rows[i])
      && (rows[i].productId == Some(id) ==> r[i].productId == None)
    ensures forall x :: x in r ==> x.productId != Some(id)
  {
    seq(|rows|, i requires 0 <= i < |rows| =>
      if rows[i].productId == Some(id) then rows[i].(productId := None) else rows[i])
  }

  /** The same for `price_history`. */
  function UnlinkHistory(rows: seq<PriceChange>, id: int): (r: seq<PriceChange>)
    ensures |r| == |rows|
    ensures forall i {:trigger r[i]} :: 0 <= i < |rows| ==>
      && r[i].id == rows[i].id && r[i].price == rows[i].price
      && (rows[i].productId != Some(id) ==> r[i] == rows[i])
      && (rows[i].productId == Some(id) ==> r[i].productId == None)
    ensures forall x :: x in r ==> x.productId != Some(id)
  {
    seq(|rows|, i requires 0 <= i < |rows| =>
      if rows[i].productId == Some(id) then rows[i].(productId := None) else rows[i])
  }

  /** `delete_product`: 404 for an unknown id; otherwise the product row is
      removed and the image and history rows that pointed at it are kept
      with a null `product_id`. */
  function DeleteProduct(t: Tables, id: int): (r: (Tables, Result<()>))
    ensures Valid(t) ==> Valid(r.0)
  {
    if id !in t.products then (t, NotFound)
    else (t.(products := t.products - {id},
             images := UnlinkImages(t.images, id),
             history := UnlinkHistory(t.history, id)), Ok(()))
  }

  // ---------------------------------------------------------------------
  // Facts about Select and Numbered

  lemma {:induction false} SelectAppend<T(!new), K>(a: seq<T>, b: seq<T>, key: T -> K, k: K)
    ensures Select(a + b, key, k) == Select(a, key, k) + Select(b, key, k)
  {
    if a == [] {
      assert a + b == b;
    } else {
      assert (a + b)[1..] == a[1..] + b;
      SelectAppend(a[1..], b, key, k);
    }
  }

  lemma {:induction false} SelectAll<T(!new), K>(rows: seq<T>, key: T -> K, k: K)
    requires forall i :: 0 <= i < |rows| ==> key(rows[i]) == k
    ensures Select(rows, key, k) == rows
  {
    if rows != [] {
      SelectAll(rows[1..], key, k);
    }
  }

  /** Rewriting rows that neither had nor get the key `k` leaves the rows
      selected by `k` as they were. */
  lemma {:induction false} SelectUnchanged<T(!new), K>(rows: seq<T>, rows': seq<T>, key: T -> K, k: K)
    requires |rows'| == |rows|
    requires forall i :: 0 <= i < |rows| && (key(rows[i]) == k || key(rows'[i]) == k) ==> rows'[i] == rows[i]
    ensures Select(rows', key, k) == Select(rows, key, k)
  {
    if rows != [] {
      forall i | 0 <= i < |rows| - 1 && (key(rows[1..][i]) == k || key(rows'[1..][i]) == k)
        ensures rows'[1..][i] == rows[1..][i]
      {
        assert rows[1..][i] == rows[i + 1] && rows'[1..][i] == rows'[i + 1];
      }
      SelectUnchanged(rows[1..], rows'[1..], key, k);
    }
  }

  lemma NumberedHead<T(!new)>(rows: seq<T>, id: T -> int, next: int)
    requires Numbered(rows, id, next) && rows != []
    ensures Numbered(rows[1..], id, next)
    ensures forall x :: x in rows[1..] ==> id(rows[0]) < id(x)
  {
    forall x | x in rows[1..] ensures id(rows[0]) < id(x) {
      var j :| 0 <= j < |rows[1..]| && rows[1..][j] == x;
      assert rows[j + 1] == x;
    }
  }

  lemma NumberedCons<T(!new)>(x: T, rest: seq<T>, id: T -> int, next: int)
    requires Numbered(rest, id, next) && id(x) < next
    requires forall y :: y in rest ==> id(x) < id(y)
    ensures Numbered([x] + rest, id, next)
  {
    var r := [x] + rest;
    forall i, j | 0 <= i < j < |r| ensures id(r[i]) < id(r[j]) {
      assert r[j] == rest[j - 1];
      if i == 0 {
        assert rest[j - 1] in rest;
      } else {
        assert r[i] == rest[i - 1];
      }
    }
  }

  lemma {:induction false} SelectNumbered<T(!new), K>(rows: seq<T>, key: T -> K, k: K, id: T -> int, next: int)
    requires Numbered(rows, id, next)
    ensures Numbered(Select(rows, key, k), id, next)
  {
    if rows == [] {
    } else {
      NumberedHead(rows, id, next);
      SelectNumbered(rows[1..], key, k, id, next);
      if key(rows[0]) == k {
        NumberedCons(rows[0], Select(rows[1..], key, k), id, next);
      }
    }
  }

  lemma SelectNone<T(!new), K>(rows: seq<T>, key: T -> K, k: K)
    requires forall x :: x in rows ==> key(x) != k
    ensures Select(rows, key, k) == []
  {
  }

  /** One more request image inserts one more row, at the end. */
  lemma NewImagesSnoc(images: seq<ImageView>, i: int, owner: int, first: int)
    requires 0 <= i < |images|
    ensures NewImages(images[..i + 1], owner, first)
      == NewImages(images[..i], owner, first) + [Image(first + i, images[i].url, Some(owner))]
  {
  }

  lemma ImageViewsAppend(a: seq<Image>, b: seq<Image>)
    ensures ImageViews(a + b) == ImageViews(a) + ImageViews(b)
  {
  }
}
