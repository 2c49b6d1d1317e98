/** The two record types the parser produces (`LMUser` and `LMFeature`). */
module Records {
  /** One checked-out license, from one user line of a feature section. */
  datatype User = User(
    userid: string,
    host: string,
    display: string,
    featureVersion: string,
    serverHost: string,
    serverPort: string,
    licenseHandle: string,
    checkoutDatetime: string,  // `%Y-%m-%d %H:%M:%S`
    activeTime: nat,           // whole hours, rounded
    overnight: bool,
    updateTime: string)        // the stamp the caller passed in, verbatim

  /** One feature section: its header counts, metadata, and users in report order. */
  datatype Feature = Feature(
    featureName: string,
    featureCode: string,
    featureVersion: string,    // "--" when unset
    vendor: string,            // "--" when unset
    licenseType: string,       // "--" when unset
    issued: string,            // digits, verbatim
    used: string,              // digits, verbatim
    users: seq<User>)
}
