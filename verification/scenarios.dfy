/** Worked examples of both jobs on concrete rows. */
module Scenarios {
  import opened Optional
  import opened Dates
  import opened Cities
  import opened LocalStore
  import Text
  import UpdateGeocode
  import UpdateNewCity

  function Paris(valueMin: string, end: Option<Date>): City
  {
    City("75056", Some("75"), Some("99100"), Some("PARIS"), Some(valueMin), Some(valueMin),
         DaysFromCivil(2020, 1, 1), end, None)
  }

  /** A provider record without an end keeps the local open-ended end; the name is still refreshed. */
  lemma NullRemoteEndKeepsLocalEnd(now: Date)
    ensures var merged := UpdateGeocode.Merge(Paris("Paris", Some(UpdateNewCity.DateMax)), Paris("Paris 1er", None), now);
      merged.valueMin == Some("Paris 1er") && merged.dateValidityEnd == Some(UpdateNewCity.DateMax)
  {
  }

  /** A provider record with an end closes the local interval. */
  lemma RemoteEndClosesInterval(now: Date)
    ensures var closed := Some(DaysFromCivil(2021, 6, 30));
      UpdateGeocode.Merge(Paris("Paris", Some(UpdateNewCity.DateMax)), Paris("Paris", closed), now).dateValidityEnd == closed
  {
  }

  /** A city unknown locally is given its zone, the domestic country code and an upper-cased name. */
  lemma NewOverseasCityDefaults(today: Date, now: Date)
    ensures var remote := City("97501", None, None, None, Some("Saint-Pierre"), Some("Saint-Pierre"), today, Some(today), None);
      UpdateNewCity.Derive(remote, now)
        == Ok(remote.(codeZone := Some("97"), codeCountry := Some("99100"), value := Some("SAINT-PIERRE"),
                      dateValidityEnd := Some(UpdateNewCity.DateMax), dateLastUpdate := Some(now)))
  {
    UpperSaintPierre();
    assert "97501"[0..2] == "97";
  }

  /** Into an empty store, the one listed city is inserted as its derivation. */
  lemma AbsentCityInserted(remote: City, today: Date, now: Date)
    requires UpdateNewCity.Derive(remote, now).Ok?
    ensures UpdateNewCity.Run([], Some([remote]), today, now).writes == [CreateCity(UpdateNewCity.Derive(remote, now).value)]
  {
    assert [remote][1..] == [];
  }

  lemma UpperSaintPierre()
    ensures Text.Upper("Saint-Pierre") == "SAINT-PIERRE"
  {
    assert "Saint-Pierre" == "Saint" + "-Pierre";
    Text.UpperAppend("Saint", "-Pierre");
    assert Text.Upper("Saint") == "SAINT";
    assert Text.Upper("-Pierre") == "-PIERRE";
  }

  /** A candidate the provider has no record for is left exactly as it was. */
  lemma NotFoundLeavesRowAlone(now: Date)
    ensures var store := [Paris("Paris", Some(UpdateNewCity.DateMax))];
      UpdateGeocode.Refresh(store, [0], (date: Date, code: string) => None, now) == store
  {
    var store := [Paris("Paris", Some(UpdateNewCity.DateMax))];
    assert UpdateGeocode.Refresh(store, [0], (date: Date, code: string) => None, now)[0] == store[0];
  }
}
