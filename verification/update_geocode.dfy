/**
 * The update-existing job (`UpdateGeocodeDaemon.updateCity`): every row the
 * store reports as due for refresh is looked up at the provider by its own
 * validity start and code, and a returned record is merged into it.
 */
module UpdateGeocode {
  import opened Optional
  import opened Dates
  import opened Cities
  import opened LocalStore
  import opened Insee

  /** The fields the merge leaves alone: the key, the display name and the derived codes. */
  predicate SameIdentity(a: City, b: City)
  {
    && a.code == b.code
    && a.dateValidityStart == b.dateValidityStart
    && a.value == b.value
    && a.codeZone == b.codeZone
    && a.codeCountry == b.codeCountry
  }

  /**
   * The per-row merge of a provider record into a local row: both short names
   * are copied even when null, the end date only when the provider gives one,
   * and the row is stamped with `now`.
   */
  function Merge(local: City, remote: City, now: Date): (merged: City)
    ensures merged.valueMin == remote.valueMin
    ensures merged.valueMinComplete == remote.valueMinComplete
    ensures remote.dateValidityEnd.Some? ==> merged.dateValidityEnd == remote.dateValidityEnd
    ensures remote.dateValidityEnd.None? ==> merged.dateValidityEnd == local.dateValidityEnd
    ensures merged.dateLastUpdate == Some(now)
    ensures SameIdentity(merged, local)
  {
    var end := if remote.dateValidityEnd != None then remote.dateValidityEnd else local.dateValidityEnd;
    local.(valueMin := remote.valueMin,
           valueMinComplete := remote.valueMinComplete,
           dateValidityEnd := end,
           dateLastUpdate := Some(now))
  }

  /** Merging the same provider record again only moves the update stamp. */
  lemma MergeIdempotent(local: City, remote: City, now1: Date, now2: Date)
    ensures Merge(Merge(local, remote, now1), remote, now2) == Merge(local, remote, now2)
  {
  }

  /** The provider's record for a row, asked for by the row's own start date and code, not by today. */
  function RemoteFor(provider: CityLookup, row: City): Option<City>
  {
    provider(row.dateValidityStart, row.code)
  }

  /** The rows the store reported as due for refresh all exist. */
  predicate ValidCandidates(store: Store, candidates: seq<RowId>)
  {
    forall k :: 0 <= k < |candidates| ==> candidates[k] < |store|
  }

  /** The candidates the provider has a record for, in candidate order. */
  function Matched(store: Store, candidates: seq<RowId>, provider: CityLookup): (m: seq<RowId>)
    requires ValidCandidates(store, candidates)
    ensures |m| <= |candidates|
    ensures forall id :: id in m <==> id in candidates && id < |store| && RemoteFor(provider, store[id]).Some?
  {
    if candidates == [] then []
    else
      var init := candidates[..|candidates| - 1];
      var last := candidates[|candidates| - 1];
      assert candidates == init + [last];
      Matched(store, init, provider) + (if RemoteFor(provider, store[last]).Some? then [last] else [])
  }

  /** The `updateCity` write the job issues for a matched candidate. */
  function WriteFor(store: Store, provider: CityLookup, now: Date, id: RowId): Write
    requires id < |store| && RemoteFor(provider, store[id]).Some?
  {
    UpdateCity(id, Merge(store[id], RemoteFor(provider, store[id]).value, now))
  }

  /**
   * The writes of one pass: exactly one `updateCity` per matched candidate,
   * in candidate order, and never a `createCity`.
   */
  function UpdateWrites(store: Store, candidates: seq<RowId>, provider: CityLookup, now: Date): (ws: seq<Write>)
    requires ValidCandidates(store, candidates)
    ensures |ws| <= |candidates|
    ensures forall k :: 0 <= k < |ws| ==> ws[k].UpdateCity? && ws[k].id < |store|
  {
    if candidates == [] then []
    else
      var init := candidates[..|candidates| - 1];
      var last := candidates[|candidates| - 1];
      assert candidates == init + [last];
      UpdateWrites(store, init, provider, now)
        + (if RemoteFor(provider, store[last]).Some? then [WriteFor(store, provider, now, last)] else [])
  }

  /** The k-th write of a pass is the merge of the k-th matched candidate. */
  lemma {:induction false} UpdateWritesFollowMatched(store: Store, candidates: seq<RowId>, provider: CityLookup, now: Date)
    requires ValidCandidates(store, candidates)
    ensures |UpdateWrites(store, candidates, provider, now)| == |Matched(store, candidates, provider)|
    ensures forall k :: 0 <= k < |Matched(store, candidates, provider)| ==>
      var id := Matched(store, candidates, provider)[k];
      id < |store| && RemoteFor(provider, store[id]).Some?
      && UpdateWrites(store, candidates, provider, now)[k] == WriteFor(store, provider, now, id)
  {
    if candidates != [] {
      var init := candidates[..|candidates| - 1];
      UpdateWritesFollowMatched(store, init, provider, now);
    }
  }

  /** One row after the pass, stated per row: merged when matched, otherwise as it was. */
  function RefreshedRow(store: Store, candidates: seq<RowId>, provider: CityLookup, now: Date, i: RowId): City
    requires i < |store|
  {
    var remote := RemoteFor(provider, store[i]);
    if i in candidates && remote.Some? then Merge(store[i], remote.value, now) else store[i]
  }

  /** The store after the pass, row by row. */
  function Refresh(store: Store, candidates: seq<RowId>, provider: CityLookup, now: Date): (r: Store)
  {
    seq(|store|, i requires 0 <= i < |store| => RefreshedRow(store, candidates, provider, now, i))
  }

  /** Adding one candidate to the list adds at most its own write. */
  lemma UpdateWritesSnoc(store: Store, candidates: seq<RowId>, id: RowId, provider: CityLookup, now: Date)
    requires ValidCandidates(store, candidates) && id < |store|
    ensures ValidCandidates(store, candidates + [id])
    ensures UpdateWrites(store, candidates + [id], provider, now)
         == UpdateWrites(store, candidates, provider, now)
            + (if RemoteFor(provider, store[id]).Some? then [WriteFor(store, provider, now, id)] else [])
  {
    assert (candidates + [id])[..|candidates|] == candidates;
  }

  /** Adding one candidate to the list changes at most its own row. */
  lemma RefreshSnoc(store: Store, candidates: seq<RowId>, id: RowId, provider: CityLookup, now: Date)
    requires id < |store|
    ensures RemoteFor(provider, store[id]).Some? ==>
      Refresh(store, candidates + [id], provider, now)
        == Refresh(store, candidates, provider, now)[id := Merge(store[id], RemoteFor(provider, store[id]).value, now)]
    ensures RemoteFor(provider, store[id]).None? ==>
      Refresh(store, candidates + [id], provider, now) == Refresh(store, candidates, provider, now)
  {
    forall i | 0 <= i < |store|
      ensures i in candidates + [id] <==> i in candidates || i == id
    {
    }
  }

  /** Committing the writes of a pass gives the row-by-row result of the pass. */
  lemma {:induction false} WritesCommitToRefresh(store: Store, candidates: seq<RowId>, provider: CityLookup, now: Date)
    requires ValidCandidates(store, candidates)
    ensures CommitAll(store, UpdateWrites(store, candidates, provider, now)) == Refresh(store, candidates, provider, now)
  {
    if candidates != [] {
      var init := candidates[..|candidates| - 1];
      var last := candidates[|candidates| - 1];
      assert candidates == init + [last];
      WritesCommitToRefresh(store, init, provider, now);
      UpdateWritesSnoc(store, init, last, provider, now);
      RefreshSnoc(store, init, last, provider, now);
      var ws := UpdateWrites(store, init, provider, now);
      if RemoteFor(provider, store[last]).Some? {
        var w := WriteFor(store, provider, now, last);
        CommitAllSnoc(store, ws, w);
        calc {
          CommitAll(store, ws + [w]);
          Commit(CommitAll(store, ws), w);
          Commit(Refresh(store, init, provider, now), w);
          Refresh(store, init, provider, now)[last := w.row];
          Refresh(store, init + [last], provider, now);
        }
        assert UpdateWrites(store, init + [last], provider, now) == ws + [w];
      } else {
        assert UpdateWrites(store, init + [last], provider, now) == ws;
      }
    } else {
      var none := Refresh(store, candidates, provider, now);
      assert forall i :: 0 <= i < |store| ==> none[i] == store[i];
    }
  }

  /** The row-by-row result of a pass: matched candidates merged, every other row as it was. */
  lemma RefreshRows(store: Store, candidates: seq<RowId>, provider: CityLookup, now: Date)
    ensures |Refresh(store, candidates, provider, now)| == |store|
    ensures forall i :: 0 <= i < |store| && i in candidates && RemoteFor(provider, store[i]).Some? ==>
      Refresh(store, candidates, provider, now)[i] == Merge(store[i], RemoteFor(provider, store[i]).value, now)
    ensures forall i :: 0 <= i < |store| && (i !in candidates || RemoteFor(provider, store[i]).None?) ==>
      Refresh(store, candidates, provider, now)[i] == store[i]
  {
  }

  /** One turn of the loop: a matched candidate adds its write, and committing it overwrites its row. */
  lemma RunStep(store: Store, candidates: seq<RowId>, k: nat, provider: CityLookup, now: Date)
    requires ValidCandidates(store, candidates) && k < |candidates|
    ensures ValidCandidates(store, candidates[..k]) && ValidCandidates(store, candidates[..k + 1])
    ensures var id := candidates[k];
      var ws := UpdateWrites(store, candidates[..k], provider, now);
      var ws' := UpdateWrites(store, candidates[..k + 1], provider, now);
      if RemoteFor(provider, store[id]).Some? then
        && ws' == ws + [WriteFor(store, provider, now, id)]
        && CommitAll(store, ws') == CommitAll(store, ws)[id := WriteFor(store, provider, now, id).row]
      else ws' == ws
  {
    var id := candidates[k];
    assert candidates[..k + 1] == candidates[..k] + [id];
    UpdateWritesSnoc(store, candidates[..k], id, provider, now);
    if RemoteFor(provider, store[id]).Some? {
      var ws := UpdateWrites(store, candidates[..k], provider, now);
      CommitAllSnoc(store, ws, WriteFor(store, provider, now, id));
    }
  }

  /**
   * The loop of `updateCity`: for each candidate row, ask the provider and, on
   * a hit, merge and write the row back. Rows are committed one at a time.
   */
  method Run(store: Store, candidates: seq<RowId>, provider: CityLookup, now: Date)
    returns (store': Store, writes: seq<Write>)
    requires ValidCandidates(store, candidates)
    ensures writes == UpdateWrites(store, candidates, provider, now)
    ensures store' == CommitAll(store, writes)
    ensures store' == Refresh(store, candidates, provider, now)
    ensures |store'| == |store|
    ensures forall i :: 0 <= i < |store| && i in candidates && RemoteFor(provider, store[i]).Some? ==>
      store'[i] == Merge(store[i], RemoteFor(provider, store[i]).value, now)
    ensures forall i :: 0 <= i < |store| && (i !in candidates || RemoteFor(provider, store[i]).None?) ==>
      store'[i] == store[i]
  {
    store' := store;
    writes := [];
    var k := 0;
    while k < |candidates|
      invariant 0 <= k <= |candidates|
      invariant writes == UpdateWrites(store, candidates[..k], provider, now)
      invariant store' == CommitAll(store, writes)
    {
      var id := candidates[k];
      var city := store[id];
      var remote := provider(city.dateValidityStart, city.code);
      RunStep(store, candidates, k, provider, now);
      if remote.Some? {
        var row := Merge(city, remote.value, now);
        writes := writes + [UpdateCity(id, row)];
        store' := store'[id := row];
      }
      k := k + 1;
    }
    assert candidates[..k] == candidates;
    WritesCommitToRefresh(store, candidates, provider, now);
    RefreshRows(store, candidates, provider, now);
  }

  /**
   * Running the pass twice over the same candidates, with the provider
   * unchanged, is running it once at the later time.
   */
  lemma RefreshTwice(store: Store, candidates: seq<RowId>, provider: CityLookup, now1: Date, now2: Date)
    ensures Refresh(Refresh(store, candidates, provider, now1), candidates, provider, now2)
         == Refresh(store, candidates, provider, now2)
  {
    var once := Refresh(store, candidates, provider, now1);
    forall i | 0 <= i < |store|
      ensures RefreshedRow(once, candidates, provider, now2, i) == RefreshedRow(store, candidates, provider, now2, i)
    {
      var remote := RemoteFor(provider, store[i]);
      if i in candidates && remote.Some? {
        MergeIdempotent(store[i], remote.value, now1, now2);
      }
    }
  }

  /**
   * The pass over the provider client: a row whose reply is a 404, another
   * error status, a transport failure, a null or empty body, or a body that
   * does not decode is left as it was; a candidate whose reply decodes is
   * merged with the decoded record.
   */
  lemma FetchedRefresh(store: Store, candidates: seq<RowId>, replyFor: (Date, string) -> Reply,
                       decode: string -> Option<City>, now: Date, i: RowId)
    requires i < |store|
    ensures var reply := replyFor(store[i].dateValidityStart, store[i].code);
      var refreshed := Refresh(store, candidates, ClientLookup(replyFor, decode), now);
      && (!Delivers(reply) || decode(reply.text.value).None? ==> refreshed[i] == store[i])
      && (i in candidates && Delivers(reply) && decode(reply.text.value).Some? ==>
            refreshed[i] == Merge(store[i], decode(reply.text.value).value, now))
  {
    var reply := replyFor(store[i].dateValidityStart, store[i].code);
    assert RemoteFor(ClientLookup(replyFor, decode), store[i]) == Fetch(reply, decode);
  }
}
