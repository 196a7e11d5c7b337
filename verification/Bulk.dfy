/** The bulk acknowledgement rule: which item counts as delivered, and what a batch's count means. */
module Bulk {
  import opened Wrappers
  import opened Tailer

  /** One item of a bulk response; `errorType` is `error.type` where the item carries an error. */
  datatype Action = Action(status: Option<nat>, error: Option<Option<string>>)
  type Item = Option<Action>
  datatype Response = Response(errors: bool, items: Option<seq<Item>>)
  datatype ShipResult = ShipResult(attempted: nat, succeeded: nat, failed: nat)

  const CONFLICT := "version_conflict_engine_exception"
  const USIZE: nat := 0x1_0000_0000_0000_0000

  predicate BulkItemSuccess(keyed: bool, item: Item) {
    if keyed then
      item.Some? && (item.value.status == Some(201)
        || (item.value.status == Some(409) && item.value.error == Some(Some(CONFLICT))))
    else item.None? || item.value.error.None?
  }

  /** Item `i` counts as delivered. Documents past the request's end count as unkeyed. */
  predicate Delivered(keyed: seq<bool>, errors: bool, items: seq<Item>, i: nat)
    requires i < |items|
  {
    if i < |keyed| && keyed[i] then BulkItemSuccess(true, items[i])
    else !errors || BulkItemSuccess(false, items[i])
  }

  /** How many of the first `n` items do not count as delivered. */
  ghost function Failures(keyed: seq<bool>, errors: bool, items: seq<Item>, n: nat): (count: nat)
    requires n <= |items|
    ensures count <= n
  {
    if n == 0 then 0
    else Failures(keyed, errors, items, n - 1) + if Delivered(keyed, errors, items, n - 1) then 0 else 1
  }

  /** Counts the failures of one response. The subtraction wraps, as release builds do. */
  method CountResponse(keyed: seq<bool>, response: Response) returns (result: ShipResult)
    requires |keyed| < USIZE
    ensures result.attempted == |keyed|
    ensures keyed == [] || !(response.errors || true in keyed) ==> result.failed == 0
    ensures keyed != [] && (response.errors || true in keyed) ==>
      result.failed == match response.items
        case None => |keyed|
        case Some(items) => Failures(keyed, response.errors, items, |items|)
    ensures result.failed <= |keyed| ==> result.succeeded + result.failed == |keyed|
    ensures result.succeeded < USIZE && (result.succeeded + result.failed - |keyed|) % USIZE == 0
  {
    if keyed == [] { return ShipResult(0, 0, 0); }
    var failed := 0;
    if response.errors || true in keyed {
      if response.items.Some? {
        var items := response.items.value;
        for position := 0 to |items|
          invariant failed == Failures(keyed, response.errors, items, position)
        {
          var success :=
            if position < |keyed| && keyed[position] then BulkItemSuccess(true, items[position])
            else !response.errors || BulkItemSuccess(false, items[position]);
          if !success { failed := failed + 1; }
        }
      } else {
        failed := |keyed|;
      }
    }
    result := ShipResult(|keyed|, (|keyed| - failed) % USIZE, failed);
  }

  // ---- When a count of zero failures acknowledges every document ----

  ghost function FailedCount(keyed: seq<bool>, response: Response): nat {
    if response.items.None? then |keyed|
    else Failures(keyed, response.errors, response.items.value, |response.items.value|)
  }

  ghost predicate AllKeyed(keyed: seq<bool>) { forall i :: 0 <= i < |keyed| ==> keyed[i] }

  ghost predicate EveryDocumentAcknowledged(keyed: seq<bool>, response: Response) {
    && response.items.Some? && |keyed| <= |response.items.value|
    && forall i :: 0 <= i < |keyed| ==> BulkItemSuccess(true, response.items.value[i])
  }

  lemma {:induction false} NoFailures(keyed: seq<bool>, errors: bool, items: seq<Item>, n: nat)
    requires AllKeyed(keyed) && n <= |items| && n <= |keyed|
    ensures Failures(keyed, errors, items, n) == 0 <==> forall i :: 0 <= i < n ==> BulkItemSuccess(true, items[i])
  {
    if n > 0 {
      NoFailures(keyed, errors, items, n - 1);
      assert keyed[n - 1];
    }
  }

  /** With one item per action, zero failures means every document was acknowledged, and only then. */
  lemma ZeroFailuresIsAcknowledgement(keyed: seq<bool>, response: Response)
    requires keyed != [] && AllKeyed(keyed)
    requires response.items.Some? ==> |response.items.value| == |keyed|
    ensures FailedCount(keyed, response) == 0 <==> EveryDocumentAcknowledged(keyed, response)
  {
    if response.items.Some? { NoFailures(keyed, response.errors, response.items.value, |keyed|); }
  }

  /** A response with fewer items than actions acknowledges too little, yet counts zero failures
      whenever the items it does have succeeded. */
  lemma ShortResponseOverstates(keyed: seq<bool>, response: Response)
    requires keyed != [] && AllKeyed(keyed)
    requires response.items.Some? && |response.items.value| < |keyed|
    ensures !EveryDocumentAcknowledged(keyed, response)
    ensures FailedCount(keyed, response) == 0 <==>
      forall i :: 0 <= i < |response.items.value| ==> BulkItemSuccess(true, response.items.value[i])
  {
    NoFailures(keyed, response.errors, response.items.value, |response.items.value|);
  }

  // ---- The index behind the response ----

  /** A stored document, with the log position it came from. */
  datatype Entry = Entry(id: Digest, document: Document, gen: Gen, at: nat)

  ghost predicate Has(store: seq<Entry>, id: Digest) { exists i :: 0 <= i < |store| && store[i].id == id }

  ghost predicate DistinctIds(store: seq<Entry>) {
    forall i, j :: 0 <= i < j < |store| ==> store[i].id != store[j].id
  }

  /** A keyed create: stores the document when its id is new, and conflicts otherwise. */
  ghost function Create(store: seq<Entry>, e: EventEnvelope): seq<Entry> {
    if Has(store, e.id) then store else store + [Entry(e.id, e.document, e.token.gen, e.at)]
  }

  lemma CreateStores(store: seq<Entry>, e: EventEnvelope)
    ensures Has(Create(store, e), e.id)
  {
    if !Has(store, e.id) { assert Create(store, e)[|store|].id == e.id; }
  }

  ghost function CreateItem(store: seq<Entry>, e: EventEnvelope): Item {
    if Has(store, e.id) then Some(Action(Some(409), Some(Some(CONFLICT)))) else Some(Action(Some(201), None))
  }

  /** How the cluster treats one action: it may also store a document and still report a failure. */
  datatype Attempt = Applied | Unreported(item: Item) | Refused(item: Item)

  ghost predicate Honest(a: Attempt) { a.Applied? || !BulkItemSuccess(true, a.item) }

  /** One bulk request: the store afterwards, and one item per action in order. */
  ghost function Apply(store: seq<Entry>, events: seq<EventEnvelope>, attempts: seq<Attempt>): (seq<Entry>, seq<Item>)
    requires |events| == |attempts|
    decreases |events|
  {
    if events == [] then (store, [])
    else
      var e, a := events[0], attempts[0];
      var rest := Apply(if a.Refused? then store else Create(store, e), events[1..], attempts[1..]);
      (rest.0, [if a.Applied? then CreateItem(store, e) else a.item] + rest.1)
  }

  ghost predicate FromEvents(events: seq<EventEnvelope>, x: Entry) {
    exists e :: e in events && x == Entry(e.id, e.document, e.token.gen, e.at)
  }

  /** What a bulk request guarantees, whatever the cluster refuses along the way. */
  lemma {:induction false} ApplyEffect(store: seq<Entry>, events: seq<EventEnvelope>, attempts: seq<Attempt>)
    requires |events| == |attempts| && (forall a :: a in attempts ==> Honest(a))
    ensures var after := Apply(store, events, attempts);
            && |after.1| == |events| && store <= after.0
            && (DistinctIds(store) ==> DistinctIds(after.0))
            && (forall k :: |store| <= k < |after.0| ==>
                  FromEvents(events, after.0[k]))
            && (forall i :: 0 <= i < |events| && BulkItemSuccess(true, after.1[i]) ==> Has(after.0, events[i].id))
    decreases |events|
  {
    if events != [] {
      var e, a := events[0], attempts[0];
      var next := if a.Refused? then store else Create(store, e);
      ApplyEffect(next, events[1..], attempts[1..]);
      var after, rest := Apply(store, events, attempts), Apply(next, events[1..], attempts[1..]);
      assert after.0 == rest.0 && after.1[1..] == rest.1;
      if BulkItemSuccess(true, after.1[0]) {
        assert a in attempts && a.Applied?;
        CreateStores(store, e);
        var k :| 0 <= k < |next| && next[k].id == e.id;
        assert after.0[k].id == e.id;
      }
      forall i | 0 <= i < |events| && BulkItemSuccess(true, after.1[i]) ensures Has(after.0, events[i].id) {
        if i > 0 { assert after.1[i] == rest.1[i - 1] && events[i] == events[1..][i - 1]; }
      }
      forall k | |store| <= k < |after.0|
        ensures FromEvents(events, after.0[k])
      {
        if k < |next| {
          assert after.0[k] == next[k] && e in events;
        } else {
          assert FromEvents(events[1..], rest.0[k]);
        }
      }
    }
  }
}
