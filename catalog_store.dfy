/**
 * The catalog as the backend keeps it: three tables that the endpoints of
 * be/app/main.py read and update in place, with one method per endpoint.
 * Each method is specified by the function of the same name in module
 * Catalog (whose properties module CatalogLaws proves) and, for the writing
 * endpoints, by what it does to each table.
 */
module CatalogStore {
  import opened Catalog

  class Store {
    var products: map<int, Product>
    var images: seq<Image>
    var history: seq<PriceChange>
    /** The keys the database will give the next image and history rows. */
    var nextImageId: int
    var nextHistoryId: int

    /** The tables as a value. */
    function Snapshot(): Tables
      reads this
    {
      Tables(products, images, history, nextImageId, nextHistoryId)
    }

    ghost predicate Valid()
      reads this
    {
      Catalog.Valid(Snapshot())
    }

    /** An empty catalog. */
    constructor ()
      ensures Valid() && Snapshot() == Empty()
    {
      products, images, history := map[], [], [];
      nextImageId, nextHistoryId := 1, 1;
    }

    /** `create_product`: insert the product, then one image row per request
        image, in request order. */
    method CreateProduct(p: ProductView) returns (r: ProductView)
      requires Valid() && p.id !in products
      modifies this
      ensures Valid()
      ensures products == old(products)[p.id := Product(p.name, p.description, p.price)]
      ensures images == old(images) + NewImages(p.images, p.id, old(nextImageId))
      ensures history == old(history)
      ensures (Snapshot(), r) == Catalog.CreateProduct(old(Snapshot()), p)
    {
      products := products[p.id := Product(p.name, p.description, p.price)];
      InsertImages(p.images, p.id);
      assert Snapshot() == WithProduct(old(Snapshot()), p);
      r := View(Snapshot(), p.id);
    }

    /** The loop of `create_product`: one image row per request image, owned
        by `owner`, keyed by the database in order. */
    method InsertImages(request: seq<ImageView>, owner: int)
      modifies this
      ensures images == old(images) + NewImages(request, owner, old(nextImageId))
      ensures nextImageId == old(nextImageId) + |request|
      ensures products == old(products) && history == old(history) && nextHistoryId == old(nextHistoryId)
    {
      var i := 0;
      while i < |request|
        invariant 0 <= i <= |request|
        invariant images == old(images) + NewImages(request[..i], owner, old(nextImageId))
        invariant nextImageId == old(nextImageId) + i
        invariant products == old(products) && history == old(history) && nextHistoryId == old(nextHistoryId)
      {
        NewImagesSnoc(request, i, owner, old(nextImageId));
        images := images + [Image(nextImageId, request[i].url, Some(owner))];
        nextImageId := nextImageId + 1;
        i := i + 1;
      }
      assert request[..i] == request;
    }

    /** `get_products`. */
    method GetProducts() returns (r: set<ProductView>)
      ensures r == Catalog.GetProducts(Snapshot())
      ensures forall v :: v in r ==> v.id in products
    {
      r := Catalog.GetProducts(Snapshot());
    }

    /** `get_product`. */
    method GetProduct(id: int) returns (r: Result<ProductView>)
      ensures r == Catalog.GetProduct(Snapshot(), id)
      ensures r.NotFound? <==> id !in products
    {
      r := Catalog.GetProduct(Snapshot(), id);
    }

    /** `update_product_price`: overwrite the price, then append a history
        row only if the price changed. */
    method UpdateProductPrice(id: int, newPrice: int) returns (r: Result<ProductView>)
      requires Valid()
      modifies this
      ensures Valid()
      ensures id !in old(products) ==> r == NotFound && unchanged(this)
      ensures id in old(products) ==>
        && products == old(products)[id := old(products)[id].(price := newPrice)]
        && history == (if old(products)[id].price != newPrice
                       then old(history) + [PriceChange(old(nextHistoryId), Some(id), newPrice)]
                       else old(history))
      ensures images == old(images)
      ensures (Snapshot(), r) == Catalog.UpdateProductPrice(old(Snapshot()), id, newPrice)
    {
      if id !in products {
        return NotFound;
      }
      var oldPrice := products[id].price;
      products := products[id := products[id].(price := newPrice)];
      if oldPrice != newPrice {
        history := history + [PriceChange(nextHistoryId, Some(id), newPrice)];
        nextHistoryId := nextHistoryId + 1;
      }
      r := Ok(View(Snapshot(), id));
    }

    /** `get_product_price_history`. */
    method GetPriceHistory(id: int) returns (r: Result<seq<PriceChange>>)
      ensures r == Catalog.GetPriceHistory(Snapshot(), id)
      ensures r.NotFound? <==> forall x :: x in history ==> x.productId != Some(id)
    {
      r := Catalog.GetPriceHistory(Snapshot(), id);
    }

    /** `delete_product`: remove the product row; the rows that pointed at
        it stay, with a null `product_id`. */
    method DeleteProduct(id: int) returns (r: Result<()>)
      requires Valid()
      modifies this
      ensures Valid()
      ensures r.NotFound? <==> id !in old(products)
      ensures products == old(products) - {id}
      ensures id in old(products) ==>
        images == UnlinkImages(old(images), id) && history == UnlinkHistory(old(history), id)
      ensures (Snapshot(), r) == Catalog.DeleteProduct(old(Snapshot()), id)
    {
      if id !in products {
        return NotFound;
      }
      products := products - {id};
      images := UnlinkImages(images, id);
      history := UnlinkHistory(history, id);
      r := Ok(());
    }
  }
}
