/** A row of the property table. Every column except `property_id` and
    `property_type` may be NULL, which `None` stands for. */
module Records {
  import opened Wrappers

  datatype Record = Record(
    propertyId: string,
    propertyType: string,
    price: Option<real>,
    sqft: Option<real>,
    rooms: Option<real>,
    bathroom: Option<real>,
    latitude: Option<real>,
    longitude: Option<real>,
    aesScore: Option<real>,
    listingUrls: Option<string>,
    community: Option<string>,
    isValidated: Option<bool>,
    validatedBy: Option<string>,
    validationTimestamp: Option<string>)
}
