/**
  The in-memory webhook registry of app/api/webhooks.py: the module-level
  `webhooks` list and `webhook_counter`, the create, update, delete and list
  routes, and the lookup half of the test route.
*/
module Webhooks {
  import opened Wrappers
  import opened Http

  /** One stored webhook dictionary; its fixed `created_at` text is not modelled. */
  datatype Webhook = Webhook(id: nat, url: string, eventTypes: seq<string>, enabled: bool)

  /** The event types a new webhook subscribes to when the request names none. */
  const DefaultEventTypes: seq<string> := ["product.created", "product.updated", "product.deleted"]

  /** Webhooks are listed in creation order, so their ids increase strictly. */
  predicate IdsIncreasing(hs: seq<Webhook>) {
    forall i, j :: 0 <= i < j < |hs| ==> hs[i].id < hs[j].id
  }

  /** Every id was handed out by the counter, which starts at 0 and is bumped before use. */
  predicate IdsIssued(hs: seq<Webhook>, counter: nat) {
    forall i :: 0 <= i < |hs| ==> 1 <= hs[i].id <= counter
  }

  /**
    `next((w for w in webhooks if w["id"] == webhook_id), None)`, as an index.
    It has the shape of `Catalog.FindProduct`, but it scans the route's
    in-memory list of webhooks for an `int` path parameter, which may be
    negative, where that one queries the products table by its key.
  */
  function FindWebhook(hs: seq<Webhook>, id: int): (r: Option<nat>)
    ensures r.Some? ==> r.value < |hs| && hs[r.value].id == id
    ensures r.Some? ==> forall j :: 0 <= j < r.value ==> hs[j].id != id
    ensures r.None? ==> forall j :: 0 <= j < |hs| ==> hs[j].id != id
  {
    if hs == [] then None
    else if hs[0].id == id then Some(0)
    else match FindWebhook(hs[1..], id)
      case None => None
      case Some(k) => Some(k + 1)
  }

  /** `[w for w in webhooks if w["id"] != webhook_id]`. */
  function WithoutId(hs: seq<Webhook>, id: int): (r: seq<Webhook>)
    ensures |r| <= |hs|
  {
    if hs == [] then []
    else if hs[0].id == id then WithoutId(hs[1..], id)
    else [hs[0]] + WithoutId(hs[1..], id)
  }

  /** The filter keeps exactly the webhooks whose id differs. */
  lemma {:induction false} WithoutIdMembers(hs: seq<Webhook>, id: int)
    ensures forall w :: w in WithoutId(hs, id) <==> w in hs && w.id != id
  {
    if hs != [] {
      WithoutIdMembers(hs[1..], id);
      assert hs == [hs[0]] + hs[1..];
    }
  }

  /** The tail of an increasing list is increasing and lies above its head. */
  lemma TailIncreasing(hs: seq<Webhook>)
    requires IdsIncreasing(hs) && hs != []
    ensures IdsIncreasing(hs[1..])
    ensures forall w :: w in hs[1..] ==> hs[0].id < w.id
  {
    var tail := hs[1..];
    forall i, j | 0 <= i < j < |tail| ensures tail[i].id < tail[j].id {
      assert tail[i] == hs[i + 1] && tail[j] == hs[j + 1];
    }
    forall w | w in tail ensures hs[0].id < w.id {
      var m :| 0 <= m < |tail| && tail[m] == w;
      assert tail[m] == hs[m + 1];
    }
  }

  /** Filtering keeps the creation order. */
  lemma {:induction false} WithoutIdIncreasing(hs: seq<Webhook>, id: int)
    requires IdsIncreasing(hs)
    ensures IdsIncreasing(WithoutId(hs, id))
  {
    if hs != [] {
      var tail := hs[1..];
      TailIncreasing(hs);
      WithoutIdIncreasing(tail, id);
      if hs[0].id != id {
        var rest := WithoutId(tail, id);
        WithoutIdMembers(tail, id);
        var r := [hs[0]] + rest;
        assert WithoutId(hs, id) == r;
        forall i, j | 0 <= i < j < |r| ensures r[i].id < r[j].id {
          if i == 0 {
            assert r[j] == rest[j - 1];
            assert rest[j - 1] in tail;
          } else {
            assert r[i] == rest[i - 1] && r[j] == rest[j - 1];
          }
        }
      }
    }
  }

  /** Deleting an id nobody holds leaves the list as it was. */
  lemma {:induction false} WithoutAbsentId(hs: seq<Webhook>, id: int)
    requires forall j :: 0 <= j < |hs| ==> hs[j].id != id
    ensures WithoutId(hs, id) == hs
  {
    if hs != [] {
      WithoutAbsentId(hs[1..], id);
      assert hs == [hs[0]] + hs[1..];
    }
  }

  /** Deleting twice is deleting once. */
  lemma WithoutIdIdempotent(hs: seq<Webhook>, id: int)
    ensures WithoutId(WithoutId(hs, id), id) == WithoutId(hs, id)
  {
    var r := WithoutId(hs, id);
    WithoutIdMembers(hs, id);
    forall j | 0 <= j < |r| ensures r[j].id != id {
      assert r[j] in r;
    }
    WithoutAbsentId(r, id);
  }

  /** In a list with distinct ids, the delete route removes exactly the one matching entry. */
  lemma {:induction false} WithoutIdRemovesOne(hs: seq<Webhook>, k: nat)
    requires IdsIncreasing(hs) && k < |hs|
    ensures WithoutId(hs, hs[k].id) == hs[..k] + hs[k + 1..]
  {
    var tail := hs[1..];
    TailIncreasing(hs);
    if k == 0 {
      forall j | 0 <= j < |tail| ensures tail[j].id != hs[0].id {
        assert tail[j] in tail;
      }
      WithoutAbsentId(tail, hs[0].id);
    } else {
      var id := hs[k].id;
      assert tail[k - 1] == hs[k];
      assert hs[0].id != id;
      assert WithoutId(hs, id) == [hs[0]] + WithoutId(tail, id);
      WithoutIdRemovesOne(tail, k - 1);
      assert hs[..k] + hs[k + 1..] == [hs[0]] + (tail[..k - 1] + tail[k..]);
    }
  }

  /** Creating a webhook and then deleting it by its id restores the list. */
  lemma CreateThenDelete(hs: seq<Webhook>, w: Webhook)
    requires forall j :: 0 <= j < |hs| ==> hs[j].id < w.id
    ensures WithoutId(hs + [w], w.id) == hs
    ensures FindWebhook(hs + [w], w.id) == Some(|hs|)
  {
    var hw := hs + [w];
    forall j | 0 <= j < |hs| ensures hw[j].id != w.id {
      assert hw[j] == hs[j];
    }
    assert hw[|hs|] == w;
    WithoutIdSplit(hs, [w], w.id);
    WithoutAbsentId(hs, w.id);
    assert WithoutId([w], w.id) == WithoutId([], w.id);
  }

  /** Filtering distributes over concatenation. */
  lemma {:induction false} WithoutIdSplit(a: seq<Webhook>, b: seq<Webhook>, id: int)
    ensures WithoutId(a + b, id) == WithoutId(a, id) + WithoutId(b, id)
  {
    if a != [] {
      assert (a + b)[1..] == a[1..] + b;
      WithoutIdSplit(a[1..], b, id);
    } else {
      assert a + b == b;
    }
  }

  /**
    The webhook after `update_webhook`: each field the request carries
    (is not None) replaces the stored one; the id never changes.
  */
  function Patched(w: Webhook, url: Option<string>, eventTypes: Option<seq<string>>,
                   enabled: Option<bool>): (v: Webhook)
    ensures v.id == w.id
    ensures v.url == url.GetOr(w.url)
    ensures v.eventTypes == eventTypes.GetOr(w.eventTypes)
    ensures v.enabled == enabled.GetOr(w.enabled)
    ensures url.None? && eventTypes.None? && enabled.None? ==> v == w
  {
    Webhook(w.id, url.GetOr(w.url), eventTypes.GetOr(w.eventTypes), enabled.GetOr(w.enabled))
  }

  /** Sending the same update twice is sending it once. */
  lemma PatchedIdempotent(w: Webhook, url: Option<string>, eventTypes: Option<seq<string>>,
                          enabled: Option<bool>)
    ensures var v := Patched(w, url, eventTypes, enabled);
      Patched(v, url, eventTypes, enabled) == v
  {
  }

  /** What the HTTP client reported for the test POST; the round-trip time is not modelled. */
  datatype Delivery =
    | Delivered(statusCode: int)   // the endpoint answered, with any status
    | Unreachable(error: string)   // the client raised; `error` is `str(e)`

  /** The JSON body of a test answer, without `response_time_ms`. */
  datatype TestReport = TestReport(success: bool, statusCode: Option<int>, error: Option<string>, url: string)

  class WebhookRegistry {
    /** `webhooks`: the stored webhooks in creation order. */
    var webhooks: seq<Webhook>
    /** `webhook_counter`: the last id handed out. */
    var counter: nat

    ghost predicate Valid()
      reads this
    {
      IdsIncreasing(webhooks) && IdsIssued(webhooks, counter)
    }

    constructor ()
      ensures webhooks == [] && counter == 0 && Valid()
    {
      webhooks := [];
      counter := 0;
    }

    /** `GET /api/webhooks`: the stored webhooks in creation order, with distinct ids. */
    function ListWebhooks(): (r: seq<Webhook>)
      reads this
      ensures |r| == |webhooks| && forall w :: w in r <==> w in webhooks
      ensures Valid() ==> forall i, j :: 0 <= i < j < |r| ==> r[i].id < r[j].id
    {
      webhooks
    }

    /**
      `POST /webhooks`: bumps the counter, appends a webhook carrying the new
      counter value as its id and returns it. The id is fresh: it is larger
      than every id stored before. A request without `event_types` subscribes
      to the three product events, one without `enabled` is enabled.
    */
    method CreateWebhook(url: string, eventTypes: Option<seq<string>>, enabled: Option<bool>) returns (w: Webhook)
      requires Valid()
      modifies this
      ensures Valid()
      ensures counter == old(counter) + 1
      ensures w == Webhook(counter, url, eventTypes.GetOr(DefaultEventTypes), enabled.GetOr(true))
      ensures webhooks == old(webhooks) + [w]
      ensures forall j :: 0 <= j < |old(webhooks)| ==> old(webhooks)[j].id < w.id
      ensures FindWebhook(webhooks, w.id) == Some(|old(webhooks)|)
    {
      counter := counter + 1;
      w := Webhook(counter, url, eventTypes.GetOr(DefaultEventTypes), enabled.GetOr(true));
      CreateThenDelete(webhooks, w);
      webhooks := webhooks + [w];
    }

    /**
      `PUT /webhooks/{id}`: 404 when no webhook has the id; otherwise the
      first webhook with that id is patched in place and returned.
    */
    method UpdateWebhook(id: int, url: Option<string>, eventTypes: Option<seq<string>>,
                         enabled: Option<bool>) returns (r: Result<Webhook, HttpError>)
      requires Valid()
      modifies this
      ensures Valid()
      ensures counter == old(counter)
      ensures r.Failure? <==> FindWebhook(old(webhooks), id).None?
      ensures r.Failure? ==> r.error == HttpError(NotFound, "Webhook not found") && webhooks == old(webhooks)
      ensures r.Success? ==>
        var k := FindWebhook(old(webhooks), id).value;
        && r.value == Patched(old(webhooks)[k], url, eventTypes, enabled)
        && webhooks == old(webhooks)[k := r.value]
      ensures r.Success? ==> r.value.id == id
    {
      var found := FindWebhook(webhooks, id);
      if found.None? {
        return Failure(HttpError(NotFound, "Webhook not found"));
      }
      var k := found.value;
      var v := Patched(webhooks[k], url, eventTypes, enabled);
      webhooks := webhooks[k := v];
      r := Success(v);
    }

    /**
      `DELETE /webhooks/{id}`: keeps every webhook whose id differs; the answer
      is "Webhook deleted" whether or not anything matched.
    */
    method DeleteWebhook(id: int) returns (message: string)
      requires Valid()
      modifies this
      ensures Valid()
      ensures counter == old(counter)
      ensures webhooks == WithoutId(old(webhooks), id)
      ensures forall w :: w in webhooks <==> w in old(webhooks) && w.id != id
      ensures FindWebhook(webhooks, id).None?
      ensures message == "Webhook deleted"
    {
      WithoutIdIncreasing(webhooks, id);
      WithoutIdMembers(webhooks, id);
      webhooks := WithoutId(webhooks, id);
      message := "Webhook deleted";
    }

    /**
      `POST /webhooks/{id}/test`: 404 when no webhook has the id; otherwise
      the outcome of posting the test payload to the webhook's url.
    */
    function TestWebhook(id: int, delivery: Delivery): (r: Result<TestReport, HttpError>)
      reads this
      ensures r.Failure? <==> FindWebhook(webhooks, id).None?
      ensures r.Failure? ==> r.error == HttpError(NotFound, "Webhook not found")
      ensures r.Success? ==> r.value.url == webhooks[FindWebhook(webhooks, id).value].url
      ensures r.Success? ==> (r.value.success <==> delivery.Delivered?)
      ensures r.Success? && delivery.Delivered? ==>
        r.value.statusCode == Some(delivery.statusCode) && r.value.error.None?
      ensures r.Success? && delivery.Unreachable? ==>
        r.value.error == Some(delivery.error) && r.value.statusCode.None?
    {
      match FindWebhook(webhooks, id)
      case None => Failure(HttpError(NotFound, "Webhook not found"))
      case Some(k) =>
        var url := webhooks[k].url;
        match delivery
        case Delivered(code) => Success(TestReport(true, Some(code), None, url))
        case Unreachable(e) => Success(TestReport(false, None, Some(e), url))
    }
  }
}
