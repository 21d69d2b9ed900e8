/**
 * The ORM helpers: product lookup, creation, full replacement and deletion
 * by sku, and webhook creation, partial update and deletion by id.
 *
 * The unique index on sku is enforced when the change is made: a change
 * that would give two rows the same sku is reported as DuplicateSku and
 * leaves the table as it was.
 */
module Crud {
  import opened Wrappers
  import opened Catalog
  import opened Store

  /** ProductCreate / ProductUpdate as received: an omitted field is None. */
  datatype ProductBody = ProductBody(sku: string, name: string, description: Option<string>, active: Option<bool>)

  datatype StoreError = DuplicateSku(sku: string)

  /** The row a body describes once the schema defaults are filled in (description None, active true). */
  function RowOf(b: ProductBody): (r: ProductRow)
    ensures r.sku == b.sku && r.vals.name == b.name && r.vals.description == b.description
    ensures r.vals.active <==> b.active != Some(false)
  {
    ProductRow(b.sku, ProductVals(b.name, b.description, if b.active.Some? then b.active.value else true))
  }

  /** get_product_by_sku: the row whose sku is exactly `sku` (no case folding), if there is one. */
  function GetProductBySku(db: Database, sku: string): (r: Option<ProductRow>)
    reads db
    ensures r.None? <==> sku !in db.products
    ensures r.Some? ==> r.value.sku == sku && r.value.vals == db.products[sku]
  {
    if sku in db.products then Some(ProductRow(sku, db.products[sku])) else None
  }

  /**
   * What update_product does to the table: the row at `sku` is replaced by
   * `row` in every column, its key included. Moving onto another row's sku
   * breaks the unique index.
   */
  function Replace(t: Table, sku: string, row: ProductRow): (r: Result<Table, StoreError>)
    requires sku in t
    ensures r.Err? <==> row.sku != sku && row.sku in t
    ensures r.Err? ==> r.error == DuplicateSku(row.sku)
    ensures r.Ok? ==> row.sku in r.value && r.value[row.sku] == row.vals
    ensures r.Ok? && row.sku != sku ==> sku !in r.value
    ensures r.Ok? ==> forall k :: k != sku && k != row.sku ==>
      (k in r.value <==> k in t) && (k in t ==> r.value[k] == t[k])
  {
    if row.sku != sku && row.sku in t then Err(DuplicateSku(row.sku))
    else Ok((t - {sku})[row.sku := row.vals])
  }

  /** Replacing a row by itself changes nothing. */
  lemma ReplaceBySelf(t: Table, sku: string)
    requires sku in t
    ensures Replace(t, sku, ProductRow(sku, t[sku])) == Ok(t)
  {
    var r := (t - {sku})[sku := t[sku]];
    assert r.Keys == t.Keys;
    assert forall k :: k in t ==> r[k] == t[k];
    assert r == t;
  }

  /** Sending the same update again, to the row's new sku, changes nothing more. */
  lemma ReplaceIdempotent(t: Table, sku: string, row: ProductRow)
    requires sku in t && Replace(t, sku, row).Ok?
    ensures Replace(Replace(t, sku, row).value, row.sku, row) == Replace(t, sku, row)
  {
    var once := Replace(t, sku, row).value;
    ReplaceBySelf(once, row.sku);
  }

  /** create_product: adds the row; an sku already present is a unique-index violation. */
  method CreateProduct(db: Database, body: ProductBody) returns (r: Result<ProductRow, StoreError>)
    modifies db`products
    ensures body.sku in old(db.products) ==>
      r == Err(DuplicateSku(body.sku)) && db.products == old(db.products)
    ensures body.sku !in old(db.products) ==>
      r == Ok(RowOf(body)) && db.products == old(db.products)[body.sku := RowOf(body).vals]
  {
    if body.sku in db.products {
      return Err(DuplicateSku(body.sku));
    }
    var row := RowOf(body);
    db.products := db.products[row.sku := row.vals];
    r := Ok(row);
  }

  /**
   * update_product: an unknown sku gives None and no change; otherwise every
   * field of the row is overwritten from the body, sku included.
   */
  method UpdateProduct(db: Database, sku: string, body: ProductBody) returns (r: Result<Option<ProductRow>, StoreError>)
    modifies db`products
    ensures sku !in old(db.products) ==> r == Ok(None) && db.products == old(db.products)
    ensures sku in old(db.products) ==>
      match Replace(old(db.products), sku, RowOf(body))
      case Ok(t) => r == Ok(Some(RowOf(body))) && db.products == t
      case Err(e) => r == Err(e) && db.products == old(db.products)
  {
    var found := GetProductBySku(db, sku);
    if found.None? {
      return Ok(None);
    }
    var replaced := Replace(db.products, sku, RowOf(body));
    if replaced.Err? {
      return Err(replaced.error);
    }
    db.products := replaced.value;
    r := Ok(Some(RowOf(body)));
  }

  /** delete_product: removes the row with exactly that sku and returns it; None when there is none. */
  method DeleteProduct(db: Database, sku: string) returns (r: Option<ProductRow>)
    modifies db`products
    ensures r == (if sku in old(db.products) then Some(ProductRow(sku, old(db.products)[sku])) else None)
    ensures db.products == old(db.products) - {sku}
  {
    r := GetProductBySku(db, sku);
    if r.Some? {
      db.products := db.products - {sku};
    }
  }

  /** Creating a new product and deleting it again gives back the original table. */
  lemma DeleteUndoesCreate(t: Table, row: ProductRow)
    requires row.sku !in t
    ensures t[row.sku := row.vals] - {row.sku} == t
  {
    assert (t[row.sku := row.vals] - {row.sku}).Keys == t.Keys;
  }

  /** bulk_delete: every product row is removed. */
  method BulkDelete(db: Database)
    modifies db`products
    ensures db.products == map[]
  {
    db.products := map[];
  }

  /** WebhookCreate as received: `enabled` may be omitted. */
  datatype WebhookCreate = WebhookCreate(url: string, event: string, enabled: Option<bool>)

  /** create_webhook: one new row with the next serial id; `enabled` defaults to true. */
  method CreateWebhook(db: Database, w: WebhookCreate) returns (h: Webhook)
    requires db.Valid()
    modifies db`webhooks, db`nextWebhookId
    ensures db.Valid()
    ensures h == Webhook(old(db.nextWebhookId), w.url, w.event, w.enabled != Some(false))
    ensures forall g :: g in old(db.webhooks) ==> g.id != h.id
    ensures db.webhooks == old(db.webhooks) + [h]
    ensures db.nextWebhookId == old(db.nextWebhookId) + 1
  {
    h := Webhook(db.nextWebhookId, w.url, w.event, if w.enabled.Some? then w.enabled.value else true);
    db.webhooks := db.webhooks + [h];
    db.nextWebhookId := db.nextWebhookId + 1;
  }

  /** WebhookUpdate with `exclude_unset`: None is a field the request did not send. */
  datatype WebhookUpdate = WebhookUpdate(url: Option<string>, event: Option<string>, enabled: Option<bool>)

  /** Sets exactly the fields the update carries; the id and every field left unset are kept. */
  function Patch(h: Webhook, u: WebhookUpdate): (r: Webhook)
    ensures r.id == h.id
    ensures r.url == (if u.url.Some? then u.url.value else h.url)
    ensures r.event == (if u.event.Some? then u.event.value else h.event)
    ensures r.enabled == (if u.enabled.Some? then u.enabled.value else h.enabled)
  {
    h.(url := if u.url.Some? then u.url.value else h.url,
       event := if u.event.Some? then u.event.value else h.event,
       enabled := if u.enabled.Some? then u.enabled.value else h.enabled)
  }

  /** An update that sends no field changes nothing. */
  lemma PatchNothing(h: Webhook)
    ensures Patch(h, WebhookUpdate(None, None, None)) == h
  {
  }

  /** Two updates in a row act as one carrying, per field, the later value if sent and else the earlier. */
  function Merge(first: WebhookUpdate, second: WebhookUpdate): WebhookUpdate {
    WebhookUpdate(
      if second.url.Some? then second.url else first.url,
      if second.event.Some? then second.event else first.event,
      if second.enabled.Some? then second.enabled else first.enabled)
  }

  lemma PatchCompose(h: Webhook, first: WebhookUpdate, second: WebhookUpdate)
    ensures Patch(Patch(h, first), second) == Patch(h, Merge(first, second))
  {
  }

  /** Sending the same update twice is sending it once. */
  lemma PatchIdempotent(h: Webhook, u: WebhookUpdate)
    ensures Patch(Patch(h, u), u) == Patch(h, u)
  {
    PatchCompose(h, u, u);
    assert Merge(u, u) == u;
  }

  /** Rewriting one row without touching its id keeps the primary keys unique. */
  lemma UniqueIdsAfterUpdate(hooks: seq<Webhook>, k: nat, w: Webhook)
    requires UniqueIds(hooks) && k < |hooks| && w.id == hooks[k].id
    ensures UniqueIds(hooks[k := w])
  {
    var after := hooks[k := w];
    forall i, j | 0 <= i < j < |after| ensures after[i].id != after[j].id {
      assert after[i].id == hooks[i].id && after[j].id == hooks[j].id;
    }
  }

  /**
   * update_webhook: an unknown id gives None and no change; otherwise only
   * the fields the request sent are written, on that one row.
   */
  method UpdateWebhook(db: Database, id: int, u: WebhookUpdate) returns (r: Option<Webhook>)
    requires db.Valid()
    modifies db`webhooks
    ensures db.Valid()
    ensures match FindWebhook(old(db.webhooks), id)
      case None => r.None? && db.webhooks == old(db.webhooks)
      case Some(k) => var w := Patch(old(db.webhooks)[k], u);
        r == Some(w) && db.webhooks == old(db.webhooks)[k := w]
  {
    var found := FindWebhook(db.webhooks, id);
    if found.None? {
      return None;
    }
    var k := found.value;
    var w := Patch(db.webhooks[k], u);
    UniqueIdsAfterUpdate(db.webhooks, k, w);
    db.webhooks := db.webhooks[k := w];
    r := Some(w);
  }

  /** Removing one row keeps the primary keys unique, and with unique keys no row with its id is left. */
  lemma UniqueIdsAfterRemove(hooks: seq<Webhook>, k: nat)
    requires UniqueIds(hooks) && k < |hooks|
    ensures UniqueIds(hooks[..k] + hooks[k + 1..])
    ensures forall h :: h in hooks[..k] + hooks[k + 1..] ==> h.id != hooks[k].id && h in hooks
  {
    var after := hooks[..k] + hooks[k + 1..];
    assert forall i :: 0 <= i < |after| ==> after[i] == hooks[if i < k then i else i + 1];
  }

  /** delete_webhook: removes the row with that id and returns it; None when there is none. */
  method DeleteWebhook(db: Database, id: int) returns (r: Option<Webhook>)
    requires db.Valid()
    modifies db`webhooks
    ensures db.Valid()
    ensures forall h :: h in db.webhooks ==> h.id != id
    ensures match FindWebhook(old(db.webhooks), id)
      case None => r.None? && db.webhooks == old(db.webhooks)
      case Some(k) =>
        r == Some(old(db.webhooks)[k]) && db.webhooks == old(db.webhooks)[..k] + old(db.webhooks)[k + 1..]
  {
    var found := FindWebhook(db.webhooks, id);
    if found.None? {
      return None;
    }
    var k := found.value;
    r := Some(db.webhooks[k]);
    UniqueIdsAfterRemove(db.webhooks, k);
    db.webhooks := db.webhooks[..k] + db.webhooks[k + 1..];
  }

  /** Deleting the webhook just created, by its id, gives back the table as it was. */
  lemma {:induction false} DeleteUndoesCreateWebhook(hooks: seq<Webhook>, h: Webhook)
    requires forall g :: g in hooks ==> g.id != h.id
    ensures FindWebhook(hooks + [h], h.id) == Some(|hooks|)
    ensures (hooks + [h])[..|hooks|] + (hooks + [h])[|hooks| + 1..] == hooks
    decreases |hooks|
  {
    if hooks != [] {
      DeleteUndoesCreateWebhook(hooks[1..], h);
      assert (hooks + [h])[1..] == hooks[1..] + [h];
    }
    assert (hooks + [h])[..|hooks|] == hooks;
  }
}
