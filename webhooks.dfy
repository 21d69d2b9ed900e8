/**
 * Webhook fan-out (trigger_event): the enabled webhooks subscribed to an
 * event are read once, then each gets one POST of the same payload. A POST
 * that fails is ignored and the loop goes on with the next webhook.
 *
 * The HTTP client is an oracle `post` from (url, payload) to what that POST
 * ended with; the clock is the `timestamp` parameter.
 */
module Webhooks {
  import opened Store

  /** The JSON body sent: {"event", "timestamp", "data"}. */
  datatype Payload = Payload(event: string, timestamp: string, data: map<string, string>)

  /** How one POST ended: a response with its status code, or an exception (timeout, refused, ...). */
  datatype PostResult = Responded(status: int) | Raised

  /** One delivery attempt: where it went, what was sent and how it ended. */
  datatype Attempt = Attempt(url: string, payload: Payload, outcome: PostResult)

  predicate Listens(h: Webhook, event: string) {
    h.event == event && h.enabled
  }

  /**
   * The rows `event = :event AND enabled = true` selects, in storage order:
   * the query has no ORDER BY, and storage order is one order it may return.
   */
  function Listeners(hooks: seq<Webhook>, event: string): (r: seq<Webhook>)
    ensures |r| <= |hooks|
    ensures forall h :: h in r <==> h in hooks && Listens(h, event)
    decreases |hooks|
  {
    if hooks == [] then []
    else
      var last := hooks[|hooks| - 1];
      Listeners(hooks[..|hooks| - 1], event) + (if Listens(last, event) then [last] else [])
  }

  /** Every selected row appears as often as in the table, every other row not at all. */
  lemma {:induction false} ListenersCount(hooks: seq<Webhook>, event: string, h: Webhook)
    ensures multiset(Listeners(hooks, event))[h] == if Listens(h, event) then multiset(hooks)[h] else 0
    decreases |hooks|
  {
    if hooks != [] {
      var init := hooks[..|hooks| - 1];
      ListenersCount(init, event, h);
      assert hooks == init + [hooks[|hooks| - 1]];
    }
  }

  /** With unique primary keys no webhook is selected twice, so none is posted to twice. */
  lemma {:induction false} ListenersUnique(hooks: seq<Webhook>, event: string)
    requires UniqueIds(hooks)
    ensures UniqueIds(Listeners(hooks, event))
    decreases |hooks|
  {
    if hooks != [] {
      var init := hooks[..|hooks| - 1];
      var last := hooks[|hooks| - 1];
      ListenersUnique(init, event);
      var r := Listeners(init, event);
      forall k | 0 <= k < |r| ensures r[k].id != last.id {
        assert r[k] in init;
        var j :| 0 <= j < |init| && init[j] == r[k];
        assert hooks[j] == r[k];
      }
    }
  }

  /**
   * trigger_event: the payload is built once, the listeners are read, and
   * the k-th attempt goes to the k-th listener with that payload, whatever
   * the earlier POSTs ended with. Nothing is written to the database.
   */
  method TriggerEvent(db: Database, event: string, data: map<string, string>, timestamp: string,
                      post: (string, Payload) -> PostResult)
    returns (attempts: seq<Attempt>)
    ensures var listeners := Listeners(db.webhooks, event);
      && |attempts| == |listeners|
      && forall k :: 0 <= k < |attempts| ==>
           attempts[k].url == listeners[k].url
           && attempts[k].payload == Payload(event, timestamp, data)
           && attempts[k].outcome == post(listeners[k].url, Payload(event, timestamp, data))
  {
    var payload := Payload(event, timestamp, data);
    var hooks := Listeners(db.webhooks, event);
    attempts := [];
    for k := 0 to |hooks|
      invariant |attempts| == k
      invariant forall j :: 0 <= j < k ==>
        attempts[j] == Attempt(hooks[j].url, payload, post(hooks[j].url, payload))
    {
      var outcome := post(hooks[k].url, payload);
      attempts := attempts + [Attempt(hooks[k].url, payload, outcome)];
    }
  }
}
