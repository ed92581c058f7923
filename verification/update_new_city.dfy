/**
 * The discover-new job (`UpdateNewCityGeocodeDaemon.run`): every city of the
 * provider's full list that the store does not hold for today is given its
 * default fields and inserted.
 */
module UpdateNewCity {
  import opened Optional
  import opened Dates
  import opened Text
  import opened Cities
  import opened LocalStore
  import opened Insee

  /** `CONSTANTE_CODE_COUNTRY`: the country code of a domestic municipality. */
  const CodeCountry: string := "99100"

  /** `CONSTANTE_DATE_MAX`, "2999-12-31": the open-ended validity end of a discovered row. */
  const DateMax: Date := DaysFromCivil(2999, 12, 31)

  /** Why a run stops: an exception the job does not catch. */
  datatype Fault =
    | NullValueMin(code: string)   // `getValueMin().toUpperCase()` on a null name
    | CodeTooShort(code: string)   // `getCode().substring(0, 2)` on a code shorter than two characters
    | NoCityList                   // `getAllCities` dereferencing the null array of a failed fetch

  datatype Outcome = Completed | Aborted(fault: Fault)

  /** The rows the loop inserted, in order, and how it ended. */
  datatype Discovery = Discovery(inserted: seq<City>, outcome: Outcome)

  /** The store after a run, the writes it issued in order, and how it ended. */
  datatype Pass = Pass(store: Store, writes: seq<Write>, outcome: Outcome)

  /**
   * The new row made from a provider record: its key, short names and start
   * are the provider's; every other field is a default.
   */
  ghost predicate DerivedFrom(row: City, remote: City, now: Date)
  {
    && remote.valueMin.Some?
    && |remote.code| >= 2
    && row.code == remote.code
    && row.valueMin == remote.valueMin
    && row.valueMinComplete == remote.valueMinComplete
    && row.dateValidityStart == remote.dateValidityStart
    && row.codeCountry == Some(CodeCountry)
    && row.value == Some(Upper(remote.valueMin.value))
    && row.codeZone == Some(remote.code[..2])
    && row.dateValidityEnd == Some(DateMax)
    && row.dateLastUpdate == Some(now)
  }

  /**
   * The defaults of one discovered city, in the order the source sets them;
   * a null name fails before a short code does.
   */
  function Derive(remote: City, now: Date): (r: Result<City, Fault>)
    ensures remote.valueMin.None? ==> r == Err(NullValueMin(remote.code))
    ensures remote.valueMin.Some? && |remote.code| < 2 ==> r == Err(CodeTooShort(remote.code))
    ensures r.Ok? <==> remote.valueMin.Some? && |remote.code| >= 2
    ensures r.Ok? ==> DerivedFrom(r.value, remote, now)
  {
    match remote.valueMin
    case None => Err(NullValueMin(remote.code))
    case Some(name) =>
      var value := Upper(name);
      var zone := Substring(remote.code, 0, 2);
      if zone.None? then Err(CodeTooShort(remote.code))
      else
        Ok(remote.(dateLastUpdate := Some(now),
                   codeCountry := Some(CodeCountry),
                   value := Some(value),
                   codeZone := zone,
                   dateValidityEnd := Some(DateMax)))
  }

  /** A derived row is found again at `today` exactly when it has started by then. */
  lemma DerivedCoversToday(row: City, remote: City, now: Date, today: Date)
    requires DerivedFrom(row, remote, now) && today <= DateMax
    ensures Covers(row, today, remote.code) <==> remote.dateValidityStart <= today
  {
  }

  /**
   * The loop over the provider's list. Each city is looked up in the store as
   * it stands at that point, so a row inserted earlier in the run is seen.
   */
  function Discover(store: Store, remotes: seq<City>, today: Date, now: Date): (d: Discovery)
    ensures |d.inserted| <= |remotes|
    decreases |remotes|
  {
    if remotes == [] then Discovery([], Completed)
    else
      var city := remotes[0];
      if Lookup(store, today, city.code).Some? then Discover(store, remotes[1..], today, now)
      else
        match Derive(city, now)
        case Err(fault) => Discovery([], Aborted(fault))
        case Ok(row) =>
          var rest := Discover(store + [row], remotes[1..], today, now);
          Discovery([row] + rest.inserted, rest.outcome)
  }

  /** One `createCity` per inserted row, in order. */
  function Creates(rows: seq<City>): (ws: seq<Write>)
  {
    seq(|rows|, k requires 0 <= k < |rows| => CreateCity(rows[k]))
  }

  /** `run`: fetch the full list, then discover. A failed fetch throws before any write. */
  function Run(store: Store, fetched: Option<seq<City>>, today: Date, now: Date): (p: Pass)
    ensures fetched.None? ==> p == Pass(store, [], Aborted(NoCityList))
    ensures |p.store| == |store| + |p.writes| && p.store[..|store|] == store
    ensures forall k :: 0 <= k < |p.writes| ==> p.writes[k] == CreateCity(p.store[|store| + k])
  {
    match fetched
    case None => Pass(store, [], Aborted(NoCityList))
    case Some(remotes) =>
      var d := Discover(store, remotes, today, now);
      Pass(store + d.inserted, Creates(d.inserted), d.outcome)
  }

  /** Each inserted row had no row for (today, code) in the store as it stood just before. */
  ghost predicate InsertedOnlyWhenAbsent(store: Store, inserted: seq<City>, today: Date)
  {
    forall k :: 0 <= k < |inserted| ==> Lookup(store + inserted[..k], today, inserted[k].code).None?
  }

  /** Each inserted row is the derivation of a city of the list. */
  ghost predicate InsertedFromList(remotes: seq<City>, inserted: seq<City>, now: Date)
  {
    forall k :: 0 <= k < |inserted| ==> exists j :: 0 <= j < |remotes| && Derive(remotes[j], now) == Ok(inserted[k])
  }

  /**
   * A city is inserted only when the store, as it stands at that point,
   * holds no row for (today, code); each inserted row is the derivation of a
   * city of the list.
   */
  lemma DiscoverInsertsOnlyAbsent(store: Store, remotes: seq<City>, today: Date, now: Date)
    ensures InsertedOnlyWhenAbsent(store, Discover(store, remotes, today, now).inserted, today)
    ensures InsertedFromList(remotes, Discover(store, remotes, today, now).inserted, now)
  {
    InsertedWhenAbsentHolds(store, remotes, today, now);
    InsertedFromListHolds(store, remotes, today, now);
  }

  /** The first half of `DiscoverInsertsOnlyAbsent`, by induction on the list. */
  lemma {:induction false} InsertedWhenAbsentHolds(store: Store, remotes: seq<City>, today: Date, now: Date)
    ensures InsertedOnlyWhenAbsent(store, Discover(store, remotes, today, now).inserted, today)
    decreases |remotes|
  {
    if remotes != [] {
      var city := remotes[0];
      if Lookup(store, today, city.code).Some? {
        InsertedWhenAbsentHolds(store, remotes[1..], today, now);
      } else if Derive(city, now).Ok? {
        var row := Derive(city, now).value;
        var rest := Discover(store + [row], remotes[1..], today, now).inserted;
        var ins := Discover(store, remotes, today, now).inserted;
        assert ins == [row] + rest;
        InsertedWhenAbsentHolds(store + [row], remotes[1..], today, now);
        forall k | 0 <= k < |ins|
          ensures Lookup(store + ins[..k], today, ins[k].code).None?
        {
          if k == 0 {
            assert store + ins[..0] == store;
          } else {
            assert store + ins[..k] == (store + [row]) + rest[..k - 1];
          }
        }
      }
    }
  }

  /** The second half of `DiscoverInsertsOnlyAbsent`, by induction on the list. */
  lemma {:induction false} InsertedFromListHolds(store: Store, remotes: seq<City>, today: Date, now: Date)
    ensures InsertedFromList(remotes, Discover(store, remotes, today, now).inserted, now)
    decreases |remotes|
  {
    if remotes != [] {
      var city := remotes[0];
      var tail := remotes[1..];
      if Lookup(store, today, city.code).Some? || Derive(city, now).Ok? {
        var next := if Lookup(store, today, city.code).Some? then store else store + [Derive(city, now).value];
        var rest := Discover(next, tail, today, now).inserted;
        var ins := Discover(store, remotes, today, now).inserted;
        InsertedFromListHolds(next, tail, today, now);
        forall k | 0 <= k < |ins|
          ensures exists j :: 0 <= j < |remotes| && Derive(remotes[j], now) == Ok(ins[k])
        {
          if ins == rest {
            var j :| 0 <= j < |tail| && Derive(tail[j], now) == Ok(rest[k]);
            assert tail[j] == remotes[j + 1];
          } else if k == 0 {
            assert Derive(remotes[0], now) == Ok(ins[0]);
          } else {
            assert ins[k] == rest[k - 1];
            var j :| 0 <= j < |tail| && Derive(tail[j], now) == Ok(rest[k - 1]);
            assert tail[j] == remotes[j + 1];
          }
        }
      }
    }
  }

  /**
   * After a completed loop, every listed city that has started by today is
   * found in the store for today: either it was there, or it was inserted
   * with the open-ended end date.
   */
  lemma {:induction false} DiscoverCoversAll(store: Store, remotes: seq<City>, today: Date, now: Date)
    requires Discover(store, remotes, today, now).outcome == Completed
    requires today <= DateMax
    ensures forall j :: 0 <= j < |remotes| && remotes[j].dateValidityStart <= today ==>
      Lookup(store + Discover(store, remotes, today, now).inserted, today, remotes[j].code).Some?
    decreases |remotes|
  {
    if remotes != [] {
      var city := remotes[0];
      var tail := remotes[1..];
      var found := Lookup(store, today, city.code).Some?;
      var next := if found then store else store + [Derive(city, now).value];
      var rest := Discover(next, tail, today, now).inserted;
      var ins := Discover(store, remotes, today, now).inserted;
      assert store + ins == next + rest;
      DiscoverCoversAll(next, tail, today, now);
      HeadCovered(store, city, today, now);
      forall j | 0 <= j < |remotes| && remotes[j].dateValidityStart <= today
        ensures Lookup(store + ins, today, remotes[j].code).Some?
      {
        if j == 0 {
          LookupKeepsFinding(next, rest, today, city.code);
        } else {
          assert remotes[j] == tail[j - 1];
        }
      }
    }
  }

  /** The store the rest of the list is discovered against holds the head city for today. */
  lemma HeadCovered(store: Store, city: City, today: Date, now: Date)
    requires Lookup(store, today, city.code).None? ==> Derive(city, now).Ok?
    requires today <= DateMax
    ensures var next := if Lookup(store, today, city.code).Some? then store else store + [Derive(city, now).value];
      city.dateValidityStart <= today ==> Lookup(next, today, city.code).Some?
  {
    if Lookup(store, today, city.code).None? && city.dateValidityStart <= today {
      var row := Derive(city, now).value;
      DerivedCoversToday(row, city, now, today);
      LookupFindsCovering(store + [row], today, city.code, |store|);
    }
  }

  /** A list whose every city is already held for today is skipped entirely. */
  lemma {:induction false} DiscoverSkipsPresent(store: Store, remotes: seq<City>, today: Date, now: Date)
    requires forall j :: 0 <= j < |remotes| ==> Lookup(store, today, remotes[j].code).Some?
    ensures Discover(store, remotes, today, now) == Discovery([], Completed)
    decreases |remotes|
  {
    if remotes != [] {
      assert Lookup(store, today, remotes[0].code).Some?;
      DiscoverSkipsPresent(store, remotes[1..], today, now);
    }
  }

  /**
   * Idempotence of the loop, for any first outcome: discovering the same list
   * again against the store the first pass left inserts nothing and ends the
   * same way. A city found before is still found, a city inserted before now
   * covers today, and the city that stopped the first pass is still absent
   * and fails again.
   */
  lemma {:induction false} RediscoverInsertsNothing(store: Store, remotes: seq<City>, today: Date, now1: Date, now2: Date)
    requires forall j :: 0 <= j < |remotes| ==> remotes[j].dateValidityStart <= today
    requires today <= DateMax
    ensures var first := Discover(store, remotes, today, now1);
      Discover(store + first.inserted, remotes, today, now2) == Discovery([], first.outcome)
    decreases |remotes|
  {
    if remotes != [] {
      var city := remotes[0];
      var tail := remotes[1..];
      var first := Discover(store, remotes, today, now1);
      var after := store + first.inserted;
      assert forall j :: 0 <= j < |tail| ==> tail[j] == remotes[j + 1];
      if Lookup(store, today, city.code).Some? {
        RediscoverInsertsNothing(store, tail, today, now1, now2);
        LookupKeepsFinding(store, first.inserted, today, city.code);
      } else if Derive(city, now1).Ok? {
        var row := Derive(city, now1).value;
        var rest := Discover(store + [row], tail, today, now1);
        assert after == (store + [row]) + rest.inserted;
        RediscoverInsertsNothing(store + [row], tail, today, now1, now2);
        DerivedCoversToday(row, city, now1, today);
        assert after[|store|] == row;
        LookupFindsCovering(after, today, city.code, |store|);
      } else {
        assert after == store;
      }
    }
  }

  /**
   * Idempotence of the job: whatever way a run over a list of cities that
   * have all started by today ended, a second run on the same list and day
   * inserts nothing and ends the same way.
   */
  lemma RerunInsertsNothing(store: Store, remotes: seq<City>, today: Date, now1: Date, now2: Date)
    requires forall j :: 0 <= j < |remotes| ==> remotes[j].dateValidityStart <= today
    requires today <= DateMax
    ensures var first := Run(store, Some(remotes), today, now1);
      Run(first.store, Some(remotes), today, now2) == Pass(first.store, [], first.outcome)
  {
    RediscoverInsertsNothing(store, remotes, today, now1, now2);
    assert Creates([]) == [];
  }

  /** The store after a run is its writes committed in order; no `updateCity` is issued. */
  lemma RunCommitsItsWrites(store: Store, fetched: Option<seq<City>>, today: Date, now: Date)
    ensures var p := Run(store, fetched, today, now);
      (forall k :: 0 <= k < |p.writes| ==> p.writes[k].CreateCity?) && p.store == CommitAll(store, p.writes)
  {
    var p := Run(store, fetched, today, now);
    CreatesAppend(store, p.writes, p.store[|store|..]);
    assert p.store == store + p.store[|store|..];
  }

  /** Committing only `createCity` writes appends their rows in order. */
  lemma {:induction false} CreatesAppend(store: Store, writes: seq<Write>, rows: Store)
    requires |rows| == |writes|
    requires forall k :: 0 <= k < |writes| ==> writes[k] == CreateCity(rows[k])
    ensures CommitAll(store, writes) == store + rows
  {
    if writes != [] {
      var n := |writes| - 1;
      CreatesAppend(store, writes[..n], rows[..n]);
      assert store + rows == (store + rows[..n]) + [rows[n]];
    }
  }

  /**
   * Under the assumed interval match, a listed city whose validity starts
   * after today and which the store does not hold for today is inserted by a
   * run and again by the next one: its own new row does not cover today.
   */
  lemma FutureStartInsertedAgain(store: Store, city: City, today: Date, now1: Date, now2: Date)
    requires Derive(city, now1).Ok?
    requires today < city.dateValidityStart
    requires Lookup(store, today, city.code).None?
    ensures var first := Run(store, Some([city]), today, now1);
      var second := Run(first.store, Some([city]), today, now2);
      && first.writes == [CreateCity(Derive(city, now1).value)]
      && second.writes == [CreateCity(Derive(city, now2).value)]
  {
    var row := Derive(city, now1).value;
    assert [city][1..] == [];
    assert Discover(store, [city], today, now1).inserted == [row];
    assert Creates([row]) == [CreateCity(row)];
    assert !Covers(row, today, city.code);
    assert Lookup([row], today, city.code).None?;
    LookupAppend(store, [row], today, city.code);
    var row2 := Derive(city, now2).value;
    assert Discover(store + [row], [city], today, now2).inserted == [row2];
    assert Creates([row2]) == [CreateCity(row2)];
  }

  /**
   * Discovering a list in two parts: the second part starts from the store
   * the first part left, unless the first part stopped the run.
   */
  lemma {:induction false} DiscoverAppend(store: Store, front: seq<City>, back: seq<City>, today: Date, now: Date)
    ensures var d := Discover(store, front, today, now);
      Discover(store, front + back, today, now)
        == if d.outcome.Completed? then
             var rest := Discover(store + d.inserted, back, today, now);
             Discovery(d.inserted + rest.inserted, rest.outcome)
           else d
    decreases |front|
  {
    if front == [] {
      assert front + back == back;
      assert store + [] == store;
    } else {
      var city := front[0];
      assert (front + back)[0] == city;
      assert (front + back)[1..] == front[1..] + back;
      if Lookup(store, today, city.code).Some? {
        DiscoverAppend(store, front[1..], back, today, now);
      } else if Derive(city, now).Ok? {
        var row := Derive(city, now).value;
        DiscoverAppend(store + [row], front[1..], back, today, now);
        var d := Discover(store + [row], front[1..], today, now);
        assert store + ([row] + d.inserted) == (store + [row]) + d.inserted;
      }
    }
  }

  /**
   * The turn of one listed city, when the loop reaches it: found for today,
   * it is skipped; missing and derivable, its derivation is inserted next,
   * whatever its start date; missing and not derivable, the run stops there
   * with that fault and nothing after it is inserted.
   */
  lemma CityTurn(store: Store, remotes: seq<City>, j: nat, today: Date, now: Date)
    requires j < |remotes|
    requires Discover(store, remotes[..j], today, now).outcome == Completed
    ensures var before := Discover(store, remotes[..j], today, now).inserted;
      var d := Discover(store, remotes, today, now);
      var city := remotes[j];
      && (Lookup(store + before, today, city.code).Some? ==>
            d == Discovery(before + Discover(store + before, remotes[j + 1..], today, now).inserted,
                           Discover(store + before, remotes[j + 1..], today, now).outcome))
      && (Lookup(store + before, today, city.code).None? && Derive(city, now).Ok? ==>
            |before| < |d.inserted| && d.inserted[..|before| + 1] == before + [Derive(city, now).value])
      && (Lookup(store + before, today, city.code).None? && Derive(city, now).Err? ==>
            d == Discovery(before, Aborted(Derive(city, now).error)))
  {
    var before := Discover(store, remotes[..j], today, now).inserted;
    assert remotes == remotes[..j] + remotes[j..];
    DiscoverAppend(store, remotes[..j], remotes[j..], today, now);
    assert remotes[j..][0] == remotes[j];
    assert remotes[j..][1..] == remotes[j + 1..];
    var city := remotes[j];
    if Lookup(store + before, today, city.code).None? && Derive(city, now).Ok? {
      var d := Discover(store, remotes, today, now);
      var rest := Discover(store + before, remotes[j..], today, now);
      assert d.inserted == before + rest.inserted;
      assert rest.inserted[0] == Derive(city, now).value;
      assert d.inserted[..|before| + 1] == before + rest.inserted[..1];
    } else if Lookup(store + before, today, city.code).None? {
      assert before + [] == before;
    }
  }

  /** The loop completes when every listed city derives: only a failed derivation stops it. */
  lemma {:induction false} DiscoverCompletes(store: Store, remotes: seq<City>, today: Date, now: Date)
    requires forall j :: 0 <= j < |remotes| ==> Derive(remotes[j], now).Ok?
    ensures Discover(store, remotes, today, now).outcome == Completed
    decreases |remotes|
  {
    if remotes != [] {
      var tail := remotes[1..];
      assert forall j :: 0 <= j < |tail| ==> tail[j] == remotes[j + 1];
      if Lookup(store, today, remotes[0].code).Some? {
        DiscoverCompletes(store, tail, today, now);
      } else {
        assert Derive(remotes[0], now).Ok?;
        DiscoverCompletes(store + [Derive(remotes[0], now).value], tail, today, now);
      }
    }
  }

  /**
   * A stopped loop names a listed city that the store, with everything the
   * run inserted, still does not hold for today and whose derivation fails
   * with that fault.
   */
  lemma {:induction false} AbortNamesMissingCity(store: Store, remotes: seq<City>, today: Date, now: Date)
    requires Discover(store, remotes, today, now).outcome.Aborted?
    ensures var d := Discover(store, remotes, today, now);
      exists j :: 0 <= j < |remotes| && Derive(remotes[j], now) == Err(d.outcome.fault)
        && Lookup(store + d.inserted, today, remotes[j].code).None?
    decreases |remotes|
  {
    var city := remotes[0];
    var tail := remotes[1..];
    var d := Discover(store, remotes, today, now);
    if Lookup(store, today, city.code).Some? {
      AbortNamesMissingCity(store, tail, today, now);
      var j :| 0 <= j < |tail| && Derive(tail[j], now) == Err(d.outcome.fault)
        && Lookup(store + d.inserted, today, tail[j].code).None?;
      assert tail[j] == remotes[j + 1];
    } else if Derive(city, now).Ok? {
      var row := Derive(city, now).value;
      var rest := Discover(store + [row], tail, today, now);
      AbortNamesMissingCity(store + [row], tail, today, now);
      assert store + d.inserted == (store + [row]) + rest.inserted;
      var j :| 0 <= j < |tail| && Derive(tail[j], now) == Err(d.outcome.fault)
        && Lookup((store + [row]) + rest.inserted, today, tail[j].code).None?;
      assert tail[j] == remotes[j + 1];
    } else {
      assert store + d.inserted == store;
      assert Derive(remotes[0], now) == Err(d.outcome.fault);
    }
  }

  /**
   * The job over the provider client: a full-list GET that fails, or whose
   * body does not decode, aborts the run with no write; a decoded list is
   * discovered as is.
   */
  lemma FetchedRun(store: Store, reply: Reply, decode: string -> Option<seq<City>>, today: Date, now: Date)
    ensures !Delivers(reply) || decode(reply.text.value).None? ==>
      Run(store, Fetch(reply, decode), today, now) == Pass(store, [], Aborted(NoCityList))
    ensures Delivers(reply) && decode(reply.text.value).Some? ==>
      Run(store, Fetch(reply, decode), today, now) == Run(store, decode(reply.text.value), today, now)
  {
  }
}
