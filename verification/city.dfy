/** The `City` business record shared by the provider client, the store and both jobs. */
module Cities {
  import opened Optional
  import opened Dates

  /**
   * One versioned row of a municipality. Every field but the key (`code`,
   * `dateValidityStart`) is a nullable reference in the source and is an
   * `Option` here: records decoded from the provider leave unset fields null.
   */
  datatype City = City(
    code: string,
    codeZone: Option<string>,
    codeCountry: Option<string>,
    value: Option<string>,
    valueMin: Option<string>,
    valueMinComplete: Option<string>,
    dateValidityStart: Date,
    dateValidityEnd: Option<Date>,
    dateLastUpdate: Option<Date>)
}
