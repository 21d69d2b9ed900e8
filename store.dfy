/**
 * The database the application talks to: the products table (keyed by its
 * unique sku), the webhooks table (keyed by a serial id) and the
 * task_progress table that the task-status endpoint reads.
 */
module Store {
  import opened Wrappers
  import opened Catalog

  datatype Webhook = Webhook(id: int, url: string, event: string, enabled: bool)

  /** A task_progress row (the id is the map key). */
  datatype TaskRow = TaskRow(current: int, total: int, state: string)

  predicate UniqueIds(hooks: seq<Webhook>) {
    forall i, j :: 0 <= i < j < |hooks| ==> hooks[i].id != hooks[j].id
  }

  /** The position of the first row with primary key `id` (what `WHERE id = :id ... first()` finds). */
  function FindWebhook(hooks: seq<Webhook>, id: int): (r: Option<nat>)
    ensures r.None? <==> forall k :: 0 <= k < |hooks| ==> hooks[k].id != id
    ensures r.Some? ==> r.value < |hooks| && hooks[r.value].id == id
    ensures r.Some? ==> forall k :: 0 <= k < r.value ==> hooks[k].id != id
    decreases |hooks|
  {
    if hooks == [] then None
    else if hooks[0].id == id then Some(0)
    else
      var rest := FindWebhook(hooks[1..], id);
      if rest.None? then None else Some(rest.value + 1)
  }

  class Database {
    var products: Table
    /** Rows of the webhooks table in storage order. */
    var webhooks: seq<Webhook>
    /** The next value of the webhooks id sequence. */
    var nextWebhookId: int
    var taskProgress: map<string, TaskRow>

    /** Primary keys are unique and the id sequence is ahead of every id handed out. */
    ghost predicate Valid()
      reads this
    {
      UniqueIds(webhooks) && forall h :: h in webhooks ==> h.id < nextWebhookId
    }

    constructor ()
      ensures Valid()
      ensures products == map[] && webhooks == [] && taskProgress == map[]
    {
      products := map[];
      webhooks := [];
      nextWebhookId := 1;
      taskProgress := map[];
    }

    /** The import's flush: the upsert executed once per row of the batch, then committed. */
    method UpsertBatch(batch: seq<ProductRow>)
      modifies this`products
      ensures products == ApplyRows(old(products), batch)
    {
      products := ApplyRows(products, batch);
    }
  }
}
