/**
 * What the catalog endpoints promise, stated over the functions of module
 * Catalog: the outcomes of `update_product_price` (404 with no change, the
 * price always overwritten, a history row iff the price changed, nothing
 * else touched), what `create_product` and `delete_product` do as seen by
 * later reads, and the order of the price history.
 */
module CatalogLaws {
  import opened Catalog

  // ---------------------------------------------------------------------
  // update_product_price

  /** An unknown id answers 404 and leaves all three tables as they were. */
  lemma UpdateUnknownChangesNothing(t: Tables, id: int, newPrice: int)
    requires id !in t.products
    ensures UpdateProductPrice(t, id, newPrice) == (t, NotFound)
    ensures GetProduct(t, id) == NotFound
  {
  }

  /** For a stored product the new price is stored and returned, even when it
      equals the old one; name, description and images stay as they were. */
  lemma UpdateSetsPrice(t: Tables, id: int, newPrice: int)
    requires id in t.products
    ensures var (t', r) := UpdateProductPrice(t, id, newPrice);
      && r.Ok? && r == GetProduct(t', id)
      && r.value.price == newPrice
      && t'.products[id] == t.products[id].(price := newPrice)
      && r.value == GetProduct(t, id).value.(price := newPrice)
  {
  }

  /** The history table is only ever appended to, and it grows by exactly
      the row (id, newPrice) iff the price changed. */
  lemma UpdateAppendsHistoryIffChanged(t: Tables, id: int, newPrice: int)
    requires id in t.products
    ensures var t' := UpdateProductPrice(t, id, newPrice).0;
      var changed := t.products[id].price != newPrice;
      && (changed ==> t'.history == t.history + [PriceChange(t.nextHistoryId, Some(id), newPrice)])
      && (!changed ==> t'.history == t.history)
      && (|t'.history| == |t.history| + 1 <==> changed)
  {
  }

  /** As seen through `get_product_price_history`: the product's history
      gains the new price at its end iff the price changed. */
  lemma {:induction false} UpdateExtendsProductHistory(t: Tables, id: int, newPrice: int)
    requires id in t.products
    ensures var t' := UpdateProductPrice(t, id, newPrice).0;
      var changed := t.products[id].price != newPrice;
      && (changed ==>
            GetPriceHistory(t', id) == Ok(Select(t.history, ChangeOwner, Some(id)) + [PriceChange(t.nextHistoryId, Some(id), newPrice)]))
      && (!changed ==> GetPriceHistory(t', id) == GetPriceHistory(t, id))
  {
    var e := PriceChange(t.nextHistoryId, Some(id), newPrice);
    SelectAppend(t.history, [e], ChangeOwner, Some(id));
    assert Select([e], ChangeOwner, Some(id)) == [e];
  }

  /** Nothing else changes: the images, the set of stored ids, and every
      other product together with its price history. */
  lemma {:induction false} UpdateTouchesOnlyItsProduct(t: Tables, id: int, newPrice: int, other: int)
    requires other != id
    ensures var t' := UpdateProductPrice(t, id, newPrice).0;
      && t'.images == t.images
      && t'.products.Keys == t.products.Keys
      && GetProduct(t', other) == GetProduct(t, other)
      && GetPriceHistory(t', other) == GetPriceHistory(t, other)
  {
    var t' := UpdateProductPrice(t, id, newPrice).0;
    if t'.history != t.history {
      var e := PriceChange(t.nextHistoryId, Some(id), newPrice);
      assert t'.history == t.history + [e];
      SelectAppend(t.history, [e], ChangeOwner, Some(other));
      SelectNone([e], ChangeOwner, Some(other));
      assert Select(t'.history, ChangeOwner, Some(other)) == Select(t.history, ChangeOwner, Some(other));
    }
  }

  /** Setting a product to its current price leaves the store exactly as it
      was. */
  lemma UpdateToSamePriceIsNoOp(t: Tables, id: int)
    requires id in t.products
    ensures UpdateProductPrice(t, id, t.products[id].price) == (t, GetProduct(t, id))
  {
    assert t.products[id := t.products[id].(price := t.products[id].price)] == t.products;
  }

  /** Two successive changes to different prices leave two new history
      rows for the product, in call order, and the stored price is the
      price of the last of them. */
  lemma {:induction false} TwoPriceChanges(t: Tables, id: int, p1: int, p2: int)
    requires id in t.products
    requires t.products[id].price != p1 && p1 != p2
    ensures var t1 := UpdateProductPrice(t, id, p1).0;
      var t2 := UpdateProductPrice(t1, id, p2).0;
      var h := Select(t.history, ChangeOwner, Some(id))
               + [PriceChange(t.nextHistoryId, Some(id), p1), PriceChange(t.nextHistoryId + 1, Some(id), p2)];
      && GetPriceHistory(t2, id) == Ok(h)
      && t2.products[id].price == h[|h| - 1].price
  {
    var t1 := UpdateProductPrice(t, id, p1).0;
    var e1 := PriceChange(t.nextHistoryId, Some(id), p1);
    UpdateExtendsProductHistory(t, id, p1);
    assert t1.products[id].price == p1 && t1.nextHistoryId == t.nextHistoryId + 1;
    assert Select(t1.history, ChangeOwner, Some(id)) == Select(t.history, ChangeOwner, Some(id)) + [e1];
    UpdateExtendsProductHistory(t1, id, p2);
    var e2 := PriceChange(t.nextHistoryId + 1, Some(id), p2);
    assert (Select(t.history, ChangeOwner, Some(id)) + [e1]) + [e2] == Select(t.history, ChangeOwner, Some(id)) + [e1, e2];
  }

  // ---------------------------------------------------------------------
  // get_product_price_history

  /** With the keys the database hands out, the returned rows are in the
      order they were stored. */
  lemma HistoryInStoredOrder(t: Tables, id: int)
    requires Valid(t)
    requires GetPriceHistory(t, id).Ok?
    ensures var rows := GetPriceHistory(t, id).value;
      forall i, j :: 0 <= i < j < |rows| ==> rows[i].id < rows[j].id
  {
    SelectNumbered(t.history, ChangeOwner, Some(id), ChangeKey, t.nextHistoryId);
  }

  /** A stored product that was never repriced and an id that was never
      stored get the same answer: 404. */
  lemma {:induction false} NewProductHasNoHistory(t: Tables, p: ProductView, unknown: int)
    requires p.id !in t.products && unknown !in t.products && unknown != p.id
    requires forall x :: x in t.history ==> x.productId != Some(p.id) && x.productId != Some(unknown)
    ensures var t' := CreateProduct(t, p).0;
      && GetProduct(t', p.id).Ok? && GetProduct(t', unknown) == NotFound
      && GetPriceHistory(t', p.id) == NotFound == GetPriceHistory(t', unknown)
  {
  }

  // ---------------------------------------------------------------------
  // create_product

  /** The product is stored with the request's id, name, description and
      price, and `get_product` then answers with the returned product. The
      price history is untouched. */
  lemma CreateThenGet(t: Tables, p: ProductView)
    requires p.id !in t.products
    ensures var t' := CreateProduct(t, p).0;
      var v := CreateProduct(t, p).1;
      && GetProduct(t', p.id) == Ok(v)
      && v.id == p.id && v.name == p.name && v.description == p.description && v.price == p.price
      && t'.products.Keys == t.products.Keys + {p.id}
      && t'.history == t.history
  {
  }

  /** The returned product's images are the rows already owned by that id
      followed by the rows inserted for the request images. */
  lemma {:induction false} CreateAppendsImages(t: Tables, p: ProductView)
    requires p.id !in t.products
    ensures CreateProduct(t, p).1.images ==
      ImageViews(Select(t.images, ImageOwner, Some(p.id))) + ImageViews(NewImages(p.images, p.id, t.nextImageId))
  {
    var added := NewImages(p.images, p.id, t.nextImageId);
    var before := Select(t.images, ImageOwner, Some(p.id));
    assert CreateProduct(t, p).1.images == ImageViews(Select(t.images + added, ImageOwner, Some(p.id)));
    SelectAppend(t.images, added, ImageOwner, Some(p.id));
    SelectAll(added, ImageOwner, Some(p.id));
    ImageViewsAppend(before, added);
  }

  /** The rows inserted for the request images, as returned: one per
      request image, in request order, each with a fresh database key and
      the request's url (the request's own image ids are not used). */
  lemma InsertedImageViews(images: seq<ImageView>, owner: int, first: int)
    ensures var r := ImageViews(NewImages(images, owner, first));
      && |r| == |images|
      && forall i :: 0 <= i < |images| ==> r[i] == ImageView(first + i, images[i].url)
  {
  }

  /** When no image row already carries the id, the returned images are
      exactly the inserted ones. */
  lemma CreateStoresRequestImages(t: Tables, p: ProductView)
    requires p.id !in t.products
    requires forall x :: x in t.images ==> x.productId != Some(p.id)
    ensures CreateProduct(t, p).1.images == ImageViews(NewImages(p.images, p.id, t.nextImageId))
  {
    CreateAppendsImages(t, p);
    SelectNone(t.images, ImageOwner, Some(p.id));
    assert ImageViews(Select(t.images, ImageOwner, Some(p.id))) == [];
  }

  /** Under the invariant no row points at an id that is not stored, so a
      new product's images are exactly the inserted ones. */
  lemma CreateOnValidStoresRequestImages(t: Tables, p: ProductView)
    requires Valid(t) && p.id !in t.products
    ensures CreateProduct(t, p).1.images == ImageViews(NewImages(p.images, p.id, t.nextImageId))
  {
    CreateStoresRequestImages(t, p);
  }

  /** Creating a product changes no other product. */
  lemma {:induction false} CreateTouchesOnlyItsProduct(t: Tables, p: ProductView, other: int)
    requires p.id !in t.products && other != p.id
    ensures var t' := CreateProduct(t, p).0;
      && GetProduct(t', other) == GetProduct(t, other)
      && GetPriceHistory(t', other) == GetPriceHistory(t, other)
  {
    var t' := CreateProduct(t, p).0;
    var added := NewImages(p.images, p.id, t.nextImageId);
    SelectAppend(t.images, added, ImageOwner, Some(other));
    SelectNone(added, ImageOwner, Some(other));
    assert Select(t'.images, ImageOwner, Some(other)) == Select(t.images, ImageOwner, Some(other));
    if other in t.products {
      assert View(t', other) == View(t, other);
    }
  }

  // ---------------------------------------------------------------------
  // delete_product

  /** An unknown id answers 404 and changes nothing. */
  lemma DeleteUnknownChangesNothing(t: Tables, id: int)
    requires id !in t.products
    ensures DeleteProduct(t, id) == (t, NotFound)
  {
  }

  /** Deleting a product keeps every image and history row, with its key,
      url and price, but afterwards no row points at the deleted id. */
  lemma DeleteKeepsRowsUnlinked(t: Tables, id: int)
    requires id in t.products
    ensures var t' := DeleteProduct(t, id).0;
      && |t'.images| == |t.images| && |t'.history| == |t.history|
      && (forall i :: 0 <= i < |t.images| ==> t'.images[i].id == t.images[i].id && t'.images[i].url == t.images[i].url)
      && (forall i :: 0 <= i < |t.history| ==> t'.history[i].id == t.history[i].id && t'.history[i].price == t.history[i].price)
      && (forall x :: x in t'.images ==> x.productId != Some(id))
      && (forall x :: x in t'.history ==> x.productId != Some(id))
  {
  }

  /** Deleting `id` leaves the rows of any other product as they were. */
  lemma DeleteKeepsOtherRows(t: Tables, id: int, other: int)
    requires id in t.products && other != id
    ensures var t' := DeleteProduct(t, id).0;
      && Select(t'.images, ImageOwner, Some(other)) == Select(t.images, ImageOwner, Some(other))
      && Select(t'.history, ChangeOwner, Some(other)) == Select(t.history, ChangeOwner, Some(other))
  {
    var t' := DeleteProduct(t, id).0;
    SelectUnchanged(t.images, t'.images, ImageOwner, Some(other));
    SelectUnchanged(t.history, t'.history, ChangeOwner, Some(other));
  }

  /** After deleting a stored product, `get_product` and
      `get_product_price_history` answer 404 for it and the listing loses
      exactly that product; every other product and its price history read
      as before. */
  lemma DeleteThenGet(t: Tables, id: int)
    requires id in t.products
    ensures var (t', r) := DeleteProduct(t, id);
      && r == Ok(())
      && GetProduct(t', id) == NotFound
      && GetPriceHistory(t', id) == NotFound
      && GetProducts(t') == GetProducts(t) - {View(t, id)}
      && (forall other :: other != id ==>
            GetProduct(t', other) == GetProduct(t, other)
            && GetPriceHistory(t', other) == GetPriceHistory(t, other))
  {
    var t' := DeleteProduct(t, id).0;
    forall other | other != id
      ensures GetProduct(t', other) == GetProduct(t, other)
      ensures GetPriceHistory(t', other) == GetPriceHistory(t, other)
    {
      DeleteKeepsOtherRows(t, id, other);
    }
    forall other | other in t'.products ensures View(t', other) == View(t, other) {
      assert GetProduct(t', other) == GetProduct(t, other);
    }
    var gone := View(t, id);
    forall v | v in GetProducts(t') ensures v in GetProducts(t) - {gone} {
      assert v.id != id;
    }
    forall v | v in GetProducts(t) - {gone} ensures v in GetProducts(t') {
      assert v.id != id;
    }
  }

  /** A product created again under a deleted id gets only the images of
      the new request and no price history: the old rows no longer point at
      the id. */
  lemma DeleteThenRecreate(t: Tables, id: int, p: ProductView)
    requires id in t.products && p.id == id
    ensures var t' := DeleteProduct(t, id).0;
      var (t'', v) := CreateProduct(t', p);
      && v.images == ImageViews(NewImages(p.images, id, t.nextImageId))
      && GetPriceHistory(t'', id) == NotFound
  {
    var t' := DeleteProduct(t, id).0;
    DeleteKeepsRowsUnlinked(t, id);
    CreateStoresRequestImages(t', p);
  }
}
