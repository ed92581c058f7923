/**
 * The local store of city rows, reduced to what the two jobs use: a lookup by
 * (date, code), `updateCity` and `createCity`. The store's own query is not
 * part of this model; the lookup below is the assumed interval match.
 */
module LocalStore {
  import opened Optional
  import opened Dates
  import opened Cities

  /** A row is identified by its position; `createCity` appends. */
  type RowId = nat

  type Store = seq<City>

  /**
   * The assumed match of `getCityByDateAndCode`: same code, and `date` inside
   * the row's validity interval. A row without an end is open-ended.
   */
  predicate Covers(row: City, date: Date, code: string)
  {
    && row.code == code
    && row.dateValidityStart <= date
    && (row.dateValidityEnd.None? || date <= row.dateValidityEnd.value)
  }

  /** `getCityByDateAndCode`: the first row that covers (`date`, `code`), if any. */
  function Lookup(store: Store, date: Date, code: string): (r: Option<City>)
    ensures r.Some? ==> r.value in store && Covers(r.value, date, code)
  {
    if store == [] then None
    else if Covers(store[0], date, code) then Some(store[0])
    else Lookup(store[1..], date, code)
  }

  /** The lookup misses only when no stored row covers (date, code). */
  lemma {:induction false} LookupFindsCovering(store: Store, date: Date, code: string, i: int)
    requires 0 <= i < |store| && Covers(store[i], date, code)
    ensures Lookup(store, date, code).Some?
  {
    if !Covers(store[0], date, code) {
      LookupFindsCovering(store[1..], date, code, i - 1);
    }
  }

  /** Rows added after a successful lookup do not hide the row it found. */
  lemma LookupKeepsFinding(store: Store, added: Store, date: Date, code: string)
    requires Lookup(store, date, code).Some?
    ensures Lookup(store + added, date, code).Some?
  {
    var row := Lookup(store, date, code).value;
    var i :| 0 <= i < |store| && store[i] == row;
    assert (store + added)[i] == row;
    LookupFindsCovering(store + added, date, code, i);
  }

  /** A lookup over two runs of rows finds in the first run when it can, and otherwise in the second. */
  lemma {:induction false} LookupAppend(store: Store, added: Store, date: Date, code: string)
    ensures Lookup(store + added, date, code)
         == if Lookup(store, date, code).Some? then Lookup(store, date, code) else Lookup(added, date, code)
  {
    if store == [] {
      assert store + added == added;
    } else {
      assert (store + added)[1..] == store[1..] + added;
      LookupAppend(store[1..], added, date, code);
    }
  }

  /** One store write issued by a job. */
  datatype Write = UpdateCity(id: RowId, row: City) | CreateCity(row: City)

  /** Commits one write: `updateCity` overwrites its row, `createCity` appends a new one. */
  function Commit(store: Store, w: Write): (r: Store)
    requires w.UpdateCity? ==> w.id < |store|
    ensures w.UpdateCity? ==> |r| == |store| && r[w.id] == w.row
    ensures w.UpdateCity? ==> forall i :: 0 <= i < |store| && i != w.id ==> r[i] == store[i]
    ensures w.CreateCity? ==> |r| == |store| + 1 && r[..|store|] == store && r[|store|] == w.row
  {
    match w
    case UpdateCity(id, row) => store[id := row]
    case CreateCity(row) => store + [row]
  }

  /** The number of `createCity` writes in `writes`. */
  function CreatesIn(writes: seq<Write>): nat
  {
    if writes == [] then 0
    else CreatesIn(writes[..|writes| - 1]) + (if writes[|writes| - 1].CreateCity? then 1 else 0)
  }

  /** The store after committing `writes` in order, each one independently. */
  function CommitAll(store: Store, writes: seq<Write>): (r: Store)
    requires forall k :: 0 <= k < |writes| ==> writes[k].UpdateCity? ==> writes[k].id < |store|
    ensures |r| == |store| + CreatesIn(writes)
  {
    if writes == [] then store
    else
      var last := writes[|writes| - 1];
      Commit(CommitAll(store, writes[..|writes| - 1]), last)
  }

  /** Committing one more write commits it on top of the earlier ones. */
  lemma CommitAllSnoc(store: Store, writes: seq<Write>, w: Write)
    requires forall k :: 0 <= k < |writes| ==> writes[k].UpdateCity? ==> writes[k].id < |store|
    requires w.UpdateCity? ==> w.id < |store|
    ensures CommitAll(store, writes + [w]) == Commit(CommitAll(store, writes), w)
  {
    assert (writes + [w])[..|writes|] == writes;
  }
}
